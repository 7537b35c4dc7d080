/**
 * Contact extraction (src/lib/parser.ts: extractContact, inferName,
 * inferLocation). Everything is read from the first eight lines; the regular
 * expressions for e-mail addresses, phone numbers, URLs and locations are the
 * caller-supplied `Heuristics`.
 */
module Contact {
  import opened Wrappers
  import opened Strings
  import opened Seqs
  import opened Resume

  /** How many leading lines are searched for contact details. */
  const HeaderLength: nat := 8

  /** `phoneRegex.test(line)` */
  function IsPhoneLine(h: Heuristics): string -> bool
  {
    line => h.phoneMatch(line).Some?
  }

  /** The test `inferLocation` applies to each line. */
  function IsLocationLine(h: Heuristics): string -> bool
  {
    line => h.isLocation(line) && !h.isEmail(line) && h.phoneMatch(line).None?
  }

  /** Every URL match of every line, in line order and then match order. */
  function Urls(lines: seq<string>, h: Heuristics): (r: seq<string>)
    ensures forall u <- r :: exists l <- lines :: u in h.urlMatches(l)
    ensures forall l <- lines, u <- h.urlMatches(l) :: u in r
  {
    if lines == [] then []
    else
      var before := lines[..|lines| - 1];
      assert forall l <- before :: l in lines;
      assert forall l <- lines :: l in before || l == lines[|lines| - 1];
      Urls(before, h) + h.urlMatches(lines[|lines| - 1])
  }

  /** `inferName`: the first line without its URLs, unless it is empty or holds an e-mail address or a phone number. */
  function InferName(lines: seq<string>, h: Heuristics): (r: string)
    ensures IsTrimmed(r)
    ensures lines == [] || lines[0] == [] ==> r == ""
    ensures lines != [] && (h.isEmail(lines[0]) || h.phoneMatch(lines[0]).Some?) ==> r == ""
    ensures lines != [] && lines[0] != [] && !h.isEmail(lines[0]) && h.phoneMatch(lines[0]).None? ==>
      r == Trim(h.stripUrls(lines[0]))
  {
    var firstLine := if lines == [] then "" else lines[0];
    if firstLine != "" && !h.isEmail(firstLine) && h.phoneMatch(firstLine).None? then
      Trim(h.stripUrls(firstLine))
    else ""
  }

  /** `inferLocation`: the first line that looks like a place and is neither an e-mail address nor a phone number. */
  function InferLocation(lines: seq<string>, h: Heuristics): (r: string)
    ensures r == "" || (r in lines && h.isLocation(r) && !h.isEmail(r) && h.phoneMatch(r).None?)
    ensures (forall l <- lines :: !IsLocationLine(h)(l)) ==> r == ""
    ensures forall i | 0 <= i < |lines| && IsLocationLine(h)(lines[i]) :: r == lines[i] || exists j | 0 <= j < i :: r == lines[j]
    ensures (exists l <- lines :: IsLocationLine(h)(l)) ==>
      IsLocationLine(h)(r) && exists i | 0 <= i < |lines| :: lines[i] == r && forall j | 0 <= j < i :: !IsLocationLine(h)(lines[j])
  {
    FindOr(lines, IsLocationLine(h), "")
  }

  /** The phone field: the phone-number match inside the first line that has one. */
  function PhoneOf(lines: seq<string>, h: Heuristics): (r: string)
    ensures forall i | 0 <= i < |lines| && h.phoneMatch(lines[i]).Some? && (forall j | 0 <= j < i :: h.phoneMatch(lines[j]).None?) ::
      r == h.phoneMatch(lines[i]).value
    ensures (forall l <- lines :: h.phoneMatch(l).None?) ==> r == h.phoneMatch("").GetOr("")
    ensures PhoneNeedsText(h) && (forall l <- lines :: h.phoneMatch(l).None?) ==> r == ""
  {
    var phoneLine := FindOr(lines, IsPhoneLine(h), "");
    h.phoneMatch(phoneLine).GetOr("")
  }

  /** The contact record of a resume whose first lines are `header`. */
  function ContactOf(header: seq<string>, h: Heuristics): (c: ContactInfo)
    ensures NoDuplicates(c.links)
    ensures forall u <- c.links :: exists l <- header :: u in h.urlMatches(l)
    ensures forall l <- header, u <- h.urlMatches(l) :: u in c.links
    ensures c.email == "" || (c.email in header && h.isEmail(c.email))
    ensures (exists l <- header :: h.isEmail(l)) ==> h.isEmail(c.email)
    ensures (exists l <- header :: h.isEmail(l)) ==>
      exists i | 0 <= i < |header| :: header[i] == c.email && forall j | 0 <= j < i :: !h.isEmail(header[j])
    ensures c.name == InferName(header, h) && c.phone == PhoneOf(header, h) && c.location == InferLocation(header, h)
  {
    ContactInfo(
      InferName(header, h),
      FindOr(header, h.isEmail, ""),
      PhoneOf(header, h),
      InferLocation(header, h),
      Dedup(Urls(header, h)))
  }

  /**
   * `extractContact`: the links are gathered into an insertion-ordered set,
   * and nothing past the first eight lines is consulted.
   */
  method ExtractContact(lines: seq<string>, h: Heuristics) returns (contact: ContactInfo)
    ensures contact == ContactOf(Take(lines, HeaderLength), h)
  {
    var firstLines := Take(lines, HeaderLength);
    var email := FindOr(firstLines, h.isEmail, "");
    var phoneLine := FindOr(firstLines, IsPhoneLine(h), "");
    var phone := h.phoneMatch(phoneLine).GetOr("");
    var linkSet: seq<string> := [];
    for i := 0 to |firstLines|
      invariant linkSet == Dedup(Urls(firstLines[..i], h))
    {
      linkSet := AddAll(linkSet, h.urlMatches(firstLines[i]), Urls(firstLines[..i], h));
      PrefixSnoc(firstLines, i);
    }
    assert firstLines[..|firstLines|] == firstLines;
    contact := ContactInfo(InferName(firstLines, h), email, phone, InferLocation(firstLines, h), linkSet);
  }

  /** `matches.forEach((match) => linkSet.add(match))` on the insertion-ordered set `linkSet`. */
  method AddAll(linkSet: seq<string>, matches: seq<string>, ghost seen: seq<string>) returns (r: seq<string>)
    requires linkSet == Dedup(seen)
    ensures r == Dedup(seen + matches)
  {
    r := linkSet;
    assert seen + matches[..0] == seen;
    for j := 0 to |matches|
      invariant r == Dedup(seen + matches[..j])
    {
      AddStep(seen, matches, j);
      if matches[j] !in r {
        r := r + [matches[j]];
      }
    }
    assert matches[..|matches|] == matches;
  }

  lemma AddStep(seen: seq<string>, matches: seq<string>, j: nat)
    requires j < |matches|
    ensures var d := Dedup(seen + matches[..j]);
      Dedup(seen + matches[..j + 1]) == if matches[j] in d then d else d + [matches[j]]
  {
    assert seen + matches[..j + 1] == (seen + matches[..j]) + [matches[j]];
    DedupSnoc(seen + matches[..j], matches[j]);
  }

  /** A first line holding an e-mail address or a phone number is never taken as the name. */
  lemma NameIsNotContactDetail(lines: seq<string>, h: Heuristics)
    requires lines != [] && (h.isEmail(lines[0]) || h.phoneMatch(lines[0]).Some?)
    ensures ContactOf(Take(lines, HeaderLength), h).name == ""
  {
  }
}
