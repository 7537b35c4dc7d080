/**
 * Section splitting (src/lib/parser.ts: HEADING_KEYWORDS, detectHeading,
 * splitIntoSections, extractExtras): one left-to-right pass that files every
 * non-heading line under the key of the most recent heading.
 */
module Sections {
  import opened Wrappers
  import opened Strings
  import opened Seqs

  const HeadingKeywords: seq<string> := [
    "summary", "objective", "profile", "skills", "technical skills", "experience",
    "professional experience", "work experience", "projects", "education",
    "certifications", "awards"]

  /** The keys the parser reads itself; every other non-empty section becomes an extra. */
  const ParsedKeys: set<string> := {"header", "summary", "skills", "experience", "education"}

  predicate IsHeadingPunctuation(c: char) { c == ':' || c == '.' }

  predicate KeepInHeading(c: char) { !IsHeadingPunctuation(c) }

  predicate NotSpace(c: char) { !IsSpace(c) }

  /** `line.toLowerCase().trim().replace(/[:.]/g, "")`: every colon and full stop goes, not only trailing ones. */
  function CleanHeading(line: string): string
  {
    Filter(Trim(Lower(line)), KeepInHeading)
  }

  /** `s.replace(/\s+/g, "")` */
  function RemoveSpaces(s: string): (r: string)
    ensures forall c <- r :: !IsSpace(c)
  {
    Filter(s, NotSpace)
  }

  /** `detectHeading`: the section key of a heading line, `None` for any other line. */
  function DetectHeading(line: string): (r: Option<string>)
    ensures r.Some? <==> CleanHeading(line) in HeadingKeywords
    ensures r.Some? ==> r.value != [] && forall c <- r.value :: 'a' <= c <= 'z'
    ensures r.Some? ==> r.value == RemoveSpaces(CleanHeading(line))
  {
    var lower := CleanHeading(line);
    if lower in HeadingKeywords then
      KeywordText(lower);
      KeyOfKeywordText(lower);
      Some(RemoveSpaces(lower))
    else None
  }

  /** Every keyword is lower-case words separated by single spaces, starting with a letter. */
  lemma KeywordText(kw: string)
    requires kw in HeadingKeywords
    ensures kw != [] && 'a' <= kw[0] <= 'z' && 'a' <= kw[|kw| - 1] <= 'z'
    ensures forall c <- kw :: 'a' <= c <= 'z' || c == ' '
  {
    KeywordEnds(kw);
    KeywordChars(kw);
  }

  lemma KeywordEnds(kw: string)
    requires kw in HeadingKeywords
    ensures kw != [] && 'a' <= kw[0] <= 'z' && 'a' <= kw[|kw| - 1] <= 'z'
  {
  }

  lemma KeywordChars(kw: string)
    requires kw in HeadingKeywords
    ensures forall c <- kw :: 'a' <= c <= 'z' || c == ' '
  {
  }

  lemma KeyOfKeywordText(kw: string)
    requires kw != [] && 'a' <= kw[0] <= 'z'
    requires forall c <- kw :: 'a' <= c <= 'z' || c == ' '
    ensures RemoveSpaces(kw) != [] && forall c <- RemoveSpaces(kw) :: 'a' <= c <= 'z'
  {
    assert kw[0] in kw && NotSpace(kw[0]);
  }

  /** A keyword on its own is recognised as a heading, keyed by the keyword without its spaces. */
  lemma DetectHeadingOfKeyword(kw: string)
    requires kw in HeadingKeywords
    ensures DetectHeading(kw) == Some(RemoveSpaces(kw))
  {
    KeywordText(kw);
    CleanOfClean(kw);
  }

  /** A keyword followed by a colon or a full stop is recognised as a heading, keyed by the keyword without its spaces. */
  lemma DetectHeadingOfPunctuatedKeyword(kw: string, c: char)
    requires kw in HeadingKeywords && IsHeadingPunctuation(c)
    ensures DetectHeading(kw + [c]) == Some(RemoveSpaces(kw))
  {
    KeywordText(kw);
    CleanOfColon(kw, c);
  }

  /** A one-word keyword, such as the skills heading, opens the section of that very name. */
  lemma DetectHeadingOfWord(kw: string)
    requires kw in HeadingKeywords && forall c <- kw :: c != ' '
    ensures DetectHeading(kw) == Some(kw)
  {
    DetectHeadingOfKeyword(kw);
    assert RemoveSpaces(kw) == kw by {
      KeywordText(kw);
      RemoveSpacesOfWord(kw);
    }
  }

  lemma RemoveSpacesOfWord(w: string)
    requires forall c <- w :: c != ' ' && ('a' <= c <= 'z' || c == ' ')
    ensures RemoveSpaces(w) == w
  {
    assert forall c <- w :: NotSpace(c);
    FilterAll(w, NotSpace);
  }

  /** A trimmed line of lower-case letters and spaces is its own cleaned form. */
  lemma CleanOfClean(s: string)
    requires IsTrimmed(s)
    requires forall c <- s :: 'a' <= c <= 'z' || c == ' '
    ensures CleanHeading(s) == s
  {
    LowerOfLower(s);
    TrimOfTrimmed(s);
    KeepLowerWords(s);
  }

  /** Lower-case letters and spaces all survive the removal of punctuation. */
  lemma KeepLowerWords(s: string)
    requires forall c <- s :: 'a' <= c <= 'z' || c == ' '
    ensures Filter(s, KeepInHeading) == s
  {
    assert forall c <- s :: KeepInHeading(c);
    FilterAll(s, KeepInHeading);
  }

  /** A trailing colon or full stop after lower-case words is dropped. */
  lemma CleanOfColon(s: string, c: char)
    requires s != [] && !IsSpace(s[0]) && IsHeadingPunctuation(c)
    requires forall x <- s :: 'a' <= x <= 'z' || x == ' '
    ensures CleanHeading(s + [c]) == s
  {
    var k := s + [c];
    assert Lower(k) == k by {
      LowerOfLower(s);
      assert forall i | 0 <= i < |k| :: k[i] == if i < |s| then s[i] else c;
    }
    assert Trim(k) == k by {
      assert IsTrimmed(k);
      TrimOfTrimmed(k);
    }
    assert Filter(k, KeepInHeading) == s by {
      FilterAppend(s, [c], KeepInHeading);
      KeepLowerWords(s);
    }
  }

  /*
   * The splitting specification is stated for any heading detector `detect`;
   * `splitIntoSections` uses it with DetectHeading.
   */

  /** The key of the section that is current once `lines` have been read. */
  function CurrentKey(lines: seq<string>, detect: string -> Option<string>): string
  {
    if lines == [] then "header"
    else
      match detect(lines[|lines| - 1])
      case Some(key) => key
      case None => CurrentKey(lines[..|lines| - 1], detect)
  }

  /** Each non-heading line, paired with the key of the section current when it is read. */
  function Routed(lines: seq<string>, detect: string -> Option<string>): (r: seq<(string, string)>)
    ensures forall p <- r :: detect(p.1).None? && p.1 in lines
  {
    if lines == [] then []
    else
      var before := lines[..|lines| - 1];
      var line := lines[|lines| - 1];
      Routed(before, detect) + if detect(line).None? then [(CurrentKey(before, detect), line)] else []
  }

  /** The lines routed to `key`, in order. */
  function LinesFor(routed: seq<(string, string)>, key: string): (r: seq<string>)
    ensures forall l <- r :: (key, l) in routed
  {
    if routed == [] then []
    else
      var p := routed[|routed| - 1];
      var before := routed[..|routed| - 1];
      assert forall q <- before :: q in routed;
      LinesFor(before, key) + if p.0 == key then [p.1] else []
  }

  /** The lines of `routed`, whatever their key. */
  function RoutedLines(routed: seq<(string, string)>): seq<string>
  {
    if routed == [] then [] else RoutedLines(routed[..|routed| - 1]) + [routed[|routed| - 1].1]
  }

  /** The body of section `key`: the non-heading lines read while it was current. */
  function SectionBody(lines: seq<string>, key: string, detect: string -> Option<string>): seq<string>
  {
    LinesFor(Routed(lines, detect), key)
  }

  /** The keys of the headings among `lines`. */
  function HeadingKeys(lines: seq<string>, detect: string -> Option<string>): set<string>
  {
    set l <- lines | detect(l).Some? :: detect(l).value
  }

  /** The record `splitIntoSections` returns: "header" and every detected key, each with its body. */
  function SectionsOf(lines: seq<string>, detect: string -> Option<string>): map<string, seq<string>>
  {
    map key <- {"header"} + HeadingKeys(lines, detect) :: SectionBody(lines, key, detect)
  }

  /** A line that is not a heading. */
  function IsBodyLine(detect: string -> Option<string>): string -> bool
  {
    l => detect(l).None?
  }

  /** Every non-heading line is routed exactly once, in source order. */
  lemma {:induction false} RoutedInOrder(lines: seq<string>, detect: string -> Option<string>)
    ensures RoutedLines(Routed(lines, detect)) == Filter(lines, IsBodyLine(detect))
  {
    if lines != [] {
      var before, line := lines[..|lines| - 1], lines[|lines| - 1];
      RoutedInOrder(before, detect);
      FrontLast(lines);
      FilterAppend(before, [line], IsBodyLine(detect));
      RoutedLinesAppend(Routed(before, detect), if detect(line).None? then [(CurrentKey(before, detect), line)] else []);
      assert Filter([line], IsBodyLine(detect)) == if detect(line).None? then [line] else [];
    }
  }

  lemma RoutedLinesAppend(a: seq<(string, string)>, b: seq<(string, string)>)
    requires |b| <= 1
    ensures RoutedLines(a + b) == RoutedLines(a) + RoutedLines(b)
  {
    if b == [] {
      assert a + b == a;
    } else {
      assert (a + b)[..|a + b| - 1] == a;
      assert RoutedLines(b) == [b[0].1] by { assert b[..0] == []; }
    }
  }

  /** Each non-heading line goes to the section current when it is read: the last heading before it, or "header". */
  lemma RoutedKeyIsCurrent(lines: seq<string>, i: nat, detect: string -> Option<string>)
    requires i < |lines| && detect(lines[i]).None?
    ensures (CurrentKey(lines[..i], detect), lines[i]) in Routed(lines[..i + 1], detect)
  {
    assert lines[..i + 1][..i] == lines[..i];
  }

  /** The current key is always a key of the record. */
  lemma {:induction false} CurrentKeyIsKey(lines: seq<string>, detect: string -> Option<string>)
    ensures CurrentKey(lines, detect) in {"header"} + HeadingKeys(lines, detect)
  {
    if lines != [] {
      var before := lines[..|lines| - 1];
      CurrentKeyIsKey(before, detect);
      assert forall l <- before :: l in lines;
    }
  }

  /** A key that has never been current has an empty body. */
  lemma {:induction false} EmptyBodyOfNewKey(lines: seq<string>, key: string, detect: string -> Option<string>)
    requires key !in {"header"} + HeadingKeys(lines, detect)
    ensures SectionBody(lines, key, detect) == []
  {
    if lines != [] {
      var before, line := lines[..|lines| - 1], lines[|lines| - 1];
      assert forall l <- before :: l in lines;
      EmptyBodyOfNewKey(before, key, detect);
      CurrentKeyIsKey(before, detect);
      var routed := Routed(before, detect);
      var extra := if detect(line).None? then [(CurrentKey(before, detect), line)] else [];
      if extra != [] {
        assert (routed + extra)[..|routed + extra| - 1] == routed;
      } else {
        assert routed + extra == routed;
      }
    }
  }

  lemma BodySnoc(lines: seq<string>, line: string, key: string, detect: string -> Option<string>)
    ensures SectionBody(lines + [line], key, detect) ==
      SectionBody(lines, key, detect) + if detect(line).None? && key == CurrentKey(lines, detect) then [line] else []
  {
    var all := lines + [line];
    assert all[..|all| - 1] == lines && all[|all| - 1] == line;
    var routed := Routed(lines, detect);
    var extra := if detect(line).None? then [(CurrentKey(lines, detect), line)] else [];
    assert Routed(all, detect) == routed + extra;
    if extra != [] {
      assert (routed + extra)[..|routed + extra| - 1] == routed;
    } else {
      assert routed + extra == routed;
    }
  }

  lemma HeadingKeysSnoc(lines: seq<string>, line: string, detect: string -> Option<string>)
    ensures HeadingKeys(lines + [line], detect) ==
      HeadingKeys(lines, detect) + if detect(line).Some? then {detect(line).value} else {}
  {
    var all := lines + [line];
    assert forall l <- all :: l in lines || l == line;
    assert forall l <- lines :: l in all;
    assert line in all;
  }

  /** Reading a heading line adds its key with an empty body, unless the key is already there. */
  lemma SectionsOfSnocHeading(lines: seq<string>, line: string, detect: string -> Option<string>)
    requires detect(line).Some?
    ensures var s := SectionsOf(lines, detect); var key := detect(line).value;
      SectionsOf(lines + [line], detect) == if key in s then s else s[key := []]
  {
    var s, key := SectionsOf(lines, detect), detect(line).value;
    var t := SectionsOf(lines + [line], detect);
    var u := if key in s then s else s[key := []];
    assert t.Keys == u.Keys by {
      HeadingKeysSnoc(lines, line, detect);
    }
    forall k | k in t.Keys ensures t[k] == u[k] {
      BodySnoc(lines, line, k, detect);
      if k !in s {
        EmptyBodyOfNewKey(lines, k, detect);
      }
    }
  }

  /** Reading any other line appends it to the current section's body. */
  lemma SectionsOfSnocBody(lines: seq<string>, line: string, detect: string -> Option<string>)
    requires detect(line).None?
    ensures CurrentKey(lines, detect) in SectionsOf(lines, detect)
    ensures var s := SectionsOf(lines, detect); var key := CurrentKey(lines, detect);
      SectionsOf(lines + [line], detect) == s[key := s[key] + [line]]
  {
    var s, key := SectionsOf(lines, detect), CurrentKey(lines, detect);
    assert key in s by {
      CurrentKeyIsKey(lines, detect);
    }
    var t := SectionsOf(lines + [line], detect);
    var u := s[key := s[key] + [line]];
    assert t.Keys == u.Keys by {
      HeadingKeysSnoc(lines, line, detect);
    }
    forall k | k in t.Keys ensures t[k] == u[k] {
      BodySnoc(lines, line, k, detect);
    }
  }

  /** `splitIntoSections`: one pass over the lines, switching the current key at each heading. */
  method SplitIntoSections(lines: seq<string>) returns (sections: map<string, seq<string>>)
    ensures sections == SectionsOf(lines, DetectHeading)
    ensures "header" in sections
    ensures forall key <- sections, l <- sections[key] :: DetectHeading(l).None?
  {
    sections := map["header" := []];
    var currentKey := "header";
    for i := 0 to |lines|
      invariant currentKey == CurrentKey(lines[..i], DetectHeading)
      invariant sections == SectionsOf(lines[..i], DetectHeading)
    {
      var line := lines[i];
      ghost var before := lines[..i];
      PrefixSnoc(lines, i);
      var headingKey := DetectHeading(line);
      if headingKey.Some? {
        currentKey := headingKey.value;
        if currentKey !in sections {
          sections := sections[currentKey := []];
        }
        assert sections == SectionsOf(before + [line], DetectHeading) by {
          SectionsOfSnocHeading(before, line, DetectHeading);
        }
        continue;
      }
      // the `??=` of the source never fires: the current key always has a body
      assert currentKey in sections by {
        CurrentKeyIsKey(before, DetectHeading);
      }
      sections := sections[currentKey := sections[currentKey] + [line]];
      assert sections == SectionsOf(before + [line], DetectHeading) by {
        SectionsOfSnocBody(before, line, DetectHeading);
      }
    }
    assert lines[..|lines|] == lines;
    SectionBodiesHaveNoHeading(lines, DetectHeading);
  }

  /** No heading line is ever filed in a body. */
  lemma SectionBodiesHaveNoHeading(lines: seq<string>, detect: string -> Option<string>)
    ensures var s := SectionsOf(lines, detect); forall key <- s, l <- s[key] :: detect(l).None?
  {
  }

  /**
   * `extractExtras`: every section the parser does not read itself, kept
   * unchanged when its body is non-empty.
   */
  method ExtractExtras(sections: map<string, seq<string>>) returns (extras: map<string, seq<string>>)
    ensures forall key <- extras :: key !in ParsedKeys && key in sections && extras[key] == sections[key]
    ensures forall key <- extras :: extras[key] != []
    ensures forall key <- sections :: key !in ParsedKeys && sections[key] != [] ==> key in extras
  {
    extras := map[];
    var pending := sections.Keys;
    while pending != {}
      invariant pending <= sections.Keys
      invariant forall key <- extras :: key !in pending && key !in ParsedKeys && key in sections && extras[key] == sections[key]
      invariant forall key <- extras :: extras[key] != []
      invariant forall key <- sections.Keys - pending :: key !in ParsedKeys && sections[key] != [] ==> key in extras
      decreases pending
    {
      var key :| key in pending;
      pending := pending - {key};
      if key == "header" || key == "summary" || key == "skills" || key == "experience" || key == "education" {
        continue;
      }
      if sections[key] != [] {
        extras := extras[key := sections[key]];
      }
    }
  }
}
