/**
 * Experience and education entries (src/lib/parser.ts: stripBullet,
 * extractYear, isNewExperienceHeading, parseExperienceHeading,
 * extractExperience, extractEducation).
 */
module Entries {
  import opened Wrappers
  import opened Strings
  import opened Seqs
  import opened Resume

  /*
   * Bullet markers: `^[-•*]\s+` and `^\d+\.\s+`, tried in that order; only
   * the first one that matches is removed.
   */

  predicate IsMarkerSymbol(c: char) { c == '-' || c == '\U{2022}' || c == '*' }

  /** The length of the leading bullet marker of `line`, or 0 when there is none. */
  function MarkerLength(line: string): (n: nat)
    ensures n <= |line|
    ensures n == 0 <== |line| < 2 || !(IsMarkerSymbol(line[0]) || IsDigit(line[0]))
    ensures n > 0 ==> n == |line| || !IsSpace(line[n])
  {
    if |line| >= 2 && IsMarkerSymbol(line[0]) && IsSpace(line[1]) then
      1 + LeadingRun(line[1..], IsSpace)
    else
      var d := LeadingRun(line, IsDigit);
      if d >= 1 && d + 1 < |line| && line[d] == '.' && IsSpace(line[d + 1]) then
        d + 1 + LeadingRun(line[d + 1..], IsSpace)
      else 0
  }

  /** `stripBullet`: the line without its bullet marker, trimmed. */
  function StripBullet(line: string): (r: string)
    ensures IsTrimmed(r)
    ensures |r| <= |line|
  {
    Trim(line[MarkerLength(line)..])
  }

  /** `^[-•*]\s+` matches at the start of `line`. */
  predicate HasSymbolMarker(line: string) {
    |line| >= 2 && IsMarkerSymbol(line[0]) && IsSpace(line[1])
  }

  /** The first `d` characters of `line` are digits. */
  predicate DigitsUpTo(line: string, d: nat)
    requires d <= |line|
  {
    forall k | 0 <= k < d :: IsDigit(line[k])
  }

  /** `^\d+\.\s+` matches at the start of `line`. */
  predicate HasNumberMarker(line: string) {
    exists d: nat :: 1 <= d && d + 1 < |line| && DigitsUpTo(line, d) && line[d] == '.' && IsSpace(line[d + 1])
  }

  /**
   * A line that neither marker pattern matches is only trimmed, even when it
   * starts with `-`, `•`, `*` or a digit ("2015 - 2019", "-foo", "3.5 GPA").
   */
  lemma StripBulletWithoutMarker(line: string)
    requires !HasSymbolMarker(line) && !HasNumberMarker(line)
    ensures StripBullet(line) == Trim(line)
  {
    var d := LeadingRun(line, IsDigit);
    assert line[0..] == line;
  }

  /** Exactly one symbol marker is removed, even when the text after it starts with another. */
  lemma StripOneSymbolMarker(m: char, gap: string, text: string)
    requires IsMarkerSymbol(m) && gap != [] && forall c <- gap :: IsSpace(c)
    requires IsTrimmed(text)
    ensures StripBullet([m] + gap + text) == text
  {
    var line := [m] + gap + text;
    assert line[1..] == gap + text;
    assert line[1] == gap[0];
    RunOverGap(gap, text, IsSpace);
    assert line[1 + |gap|..] == text;
    TrimOfTrimmed(text);
  }

  /** Exactly one numbered marker is removed. */
  lemma StripOneNumberMarker(digits: string, gap: string, text: string)
    requires digits != [] && forall c <- digits :: IsDigit(c)
    requires gap != [] && forall c <- gap :: IsSpace(c)
    requires IsTrimmed(text)
    ensures StripBullet(digits + ['.'] + gap + text) == text
  {
    var line := digits + ['.'] + gap + text;
    NumberMarkerLength(digits, gap, text);
    assert line[|digits| + 1 + |gap|..] == text;
    TrimOfTrimmed(text);
  }

  /** A numbered marker covers the digits, the dot and the whole gap. */
  lemma NumberMarkerLength(digits: string, gap: string, text: string)
    requires digits != [] && forall c <- digits :: IsDigit(c)
    requires gap != [] && forall c <- gap :: IsSpace(c)
    requires text == [] || !IsSpace(text[0])
    ensures MarkerLength(digits + ['.'] + gap + text) == |digits| + 1 + |gap|
  {
    var line := digits + ['.'] + gap + text;
    var d := |digits|;
    assert !IsMarkerSymbol(line[0]) by { assert line[0] == digits[0]; assert digits[0] in digits; }
    assert line[d] == '.' && line[d + 1] == gap[0];
    assert LeadingRun(line, IsDigit) == d by {
      assert line == digits + (['.'] + gap + text);
      RunOverGap(digits, ['.'] + gap + text, IsDigit);
    }
    assert line[d + 1..] == gap + text;
    RunOverGap(gap, text, IsSpace);
  }

  lemma {:induction false} RunOverGap(gap: string, text: string, p: char -> bool)
    requires forall c <- gap :: p(c)
    requires text == [] || !p(text[0])
    ensures LeadingRun(gap + text, p) == |gap|
  {
    if gap != [] {
      assert (gap + text)[1..] == gap[1..] + text;
      assert gap[0] in gap;
      RunOverGap(gap[1..], text, p);
    } else {
      assert gap + text == text;
    }
  }

  /*
   * Years. `\b` holds between a word character (`[A-Za-z0-9_]`) and a
   * non-word character or either end of the line.
   */

  /** `\b\d{4}\b` matches at position `i`. */
  predicate YearTokenAt(s: string, i: nat)
  {
    && i + 4 <= |s|
    && (forall t | i <= t < i + 4 :: IsDigit(s[t]))
    && (i == 0 || !IsWordChar(s[i - 1]))
    && (i + 4 == |s| || !IsWordChar(s[i + 4]))
  }

  /** `/(\b\d{4}\b)/.test(line)` */
  predicate HasYearToken(s: string)
  {
    exists i: nat | i < |s| :: YearTokenAt(s, i)
  }

  /** `\b(19|20)\d{2}\b` matches at position `i`. */
  predicate CenturyYearAt(s: string, i: nat)
  {
    YearTokenAt(s, i) && ((s[i] == '1' && s[i + 1] == '9') || (s[i] == '2' && s[i + 1] == '0'))
  }

  /** The leftmost position at or after `from` where `\b(19|20)\d{2}\b` matches. */
  function FirstCenturyYear(s: string, from: nat): (r: Option<nat>)
    ensures r.Some? ==> from <= r.value && CenturyYearAt(s, r.value)
    ensures r.Some? ==> forall j | from <= j < r.value :: !CenturyYearAt(s, j)
    ensures r.None? ==> forall j | from <= j :: !CenturyYearAt(s, j)
    decreases |s| - from
  {
    if from + 4 > |s| then None
    else if CenturyYearAt(s, from) then Some(from)
    else FirstCenturyYear(s, from + 1)
  }

  /** `extractYear`: the first four-digit year of the 1900s or 2000s standing as a word, or "". */
  function ExtractYear(line: string): (r: string)
    ensures r == "" || (|r| == 4 && (forall c <- r :: IsDigit(c)) && ((r[0] == '1' && r[1] == '9') || (r[0] == '2' && r[1] == '0')))
    ensures r != "" <==> exists i: nat :: CenturyYearAt(line, i)
    ensures r != "" ==> exists i: nat :: CenturyYearAt(line, i) && r == line[i..i + 4] && forall j | 0 <= j < i :: !CenturyYearAt(line, j)
  {
    match FirstCenturyYear(line, 0)
    case None => ""
    case Some(i) =>
      var r := line[i..i + 4];
      assert forall c <- r :: IsDigit(c) by {
        assert forall t | 0 <= t < 4 :: r[t] == line[i + t];
      }
      r
  }

  /*
   * The date range of an experience heading: `/(\b\d{4}\b).*(\b\d{4}\b|present)/i`.
   * The match starts at the leftmost year token that has a closing year or
   * "present" after it; `.*` is greedy, so it ends at the last such closer
   * reachable without crossing a line terminator, which `.` does not match.
   */

  predicate IsLineTerminator(c: char) { c == '\n' || c == '\r' || c == '\U{2028}' || c == '\U{2029}' }

  /** Where `(\b\d{4}\b|present)` ends when it is tried at `k` (the year first), case-insensitively. */
  function RangeEndAt(s: string, k: nat): (r: Option<nat>)
    ensures r.Some? ==> k < r.value <= |s|
  {
    if YearTokenAt(s, k) then Some(k + 4)
    else if k + 7 <= |s| && Lower(s[k..k + 7]) == "present" then Some(k + 7)
    else None
  }

  predicate NoTerminator(s: string, a: nat, b: nat)
    requires a <= b <= |s|
  {
    forall t | a <= t < b :: !IsLineTerminator(s[t])
  }

  /** A closer of the range can be tried at `k`: `.*` reaches it from the year at `i`, and it matches there. */
  predicate ClosesAt(s: string, i: nat, k: nat)
  {
    i + 4 <= k <= |s| && NoTerminator(s, i + 4, k) && RangeEndAt(s, k).Some?
  }

  function Closer(s: string, i: nat): nat -> bool
  {
    (k: nat) => ClosesAt(s, i, k)
  }

  /** Backtracking from `k` down to `lo`: the largest position in that range where `p` holds. */
  function LastWhere(lo: nat, k: nat, p: nat -> bool): (r: Option<nat>)
    requires lo <= k
    ensures r.Some? ==> lo <= r.value <= k && p(r.value) && forall j | r.value < j <= k :: !p(j)
    ensures r.None? ==> forall j | lo <= j <= k :: !p(j)
    decreases k
  {
    if p(k) then Some(k)
    else if k == lo then None
    else LastWhere(lo, k - 1, p)
  }

  /** The end of the match whose year starts at `i`: the closer at the largest `k' <= k` that `.*` can reach. */
  function LastRangeEnd(s: string, i: nat, k: nat): (r: Option<nat>)
    requires i + 4 <= k <= |s|
    ensures r.Some? ==> i + 4 < r.value <= |s|
  {
    match LastWhere(i + 4, k, Closer(s, i))
    case None => None
    case Some(k') => RangeEndAt(s, k')
  }

  /** Greediness: the end found is that of the last closer `.*` can reach, and there is none when no closer is reachable. */
  lemma LastRangeEndIsLast(s: string, i: nat, k: nat)
    requires i + 4 <= k <= |s|
    ensures LastRangeEnd(s, i, k).Some? ==> exists k' | i + 4 <= k' <= k ::
      && ClosesAt(s, i, k') && RangeEndAt(s, k') == LastRangeEnd(s, i, k)
      && forall k'' | k' < k'' <= k :: !ClosesAt(s, i, k'')
    ensures LastRangeEnd(s, i, k).None? ==> forall k' | i + 4 <= k' <= k :: !ClosesAt(s, i, k')
  {
    var w := LastWhere(i + 4, k, Closer(s, i));
    assert forall j :: Closer(s, i)(j) == ClosesAt(s, i, j);
    if w.Some? {
      assert ClosesAt(s, i, w.value);
    }
  }

  /** A match of the date range can start at `j`: a year token with a closer `.*` can reach. */
  predicate StartsRange(s: string, j: nat)
  {
    YearTokenAt(s, j) && LastRangeEnd(s, j, |s|).Some?
  }

  /** The bounds of the leftmost date-range match starting at or after `i`. */
  function DateMatchFrom(s: string, i: nat): (r: Option<(nat, nat)>)
    ensures r.Some? ==> i <= r.value.0 && r.value.0 + 4 < r.value.1 <= |s| && StartsRange(s, r.value.0)
    ensures r.Some? ==> LastRangeEnd(s, r.value.0, |s|) == Some(r.value.1)
    ensures r.Some? ==> forall j | i <= j < r.value.0 :: !StartsRange(s, j)
    ensures r.None? ==> forall j | i <= j :: !StartsRange(s, j)
    decreases |s| - i
  {
    if i + 4 > |s| then None
    else if StartsRange(s, i) then Some((i, LastRangeEnd(s, i, |s|).value))
    else DateMatchFrom(s, i + 1)
  }

  /** `line.match(dateRegex)?.[0]`: the matched text, which opens with a four-digit year. */
  function DateMatch(line: string): (r: Option<string>)
    ensures r.Some? ==> |r.value| > 4 && (forall t | 0 <= t < 4 :: IsDigit(r.value[t]))
    ensures r.Some? ==> exists i: nat :: OccursAt(line, r.value, i)
    ensures r.Some? <==> DateMatchFrom(line, 0).Some?
    ensures r.Some? ==> r.value == line[DateMatchFrom(line, 0).value.0..DateMatchFrom(line, 0).value.1]
  {
    match DateMatchFrom(line, 0)
    case None => None
    case Some((a, b)) =>
      var m := line[a..b];
      assert OccursAt(line, m, a);
      Some(m)
  }

  predicate IsDash(c: char) { c == '-' || c == '\U{2013}' }

  /** The separators of `[-–@•]`. */
  predicate IsEntrySeparator(c: char) { IsDash(c) || c == '@' || c == '\U{2022}' }

  /** `dateMatch[0].split(/[-–]/).map((part) => part.trim())`, or two empty strings without a match. */
  function DateParts(dateMatch: Option<string>): (r: seq<string>)
    ensures |r| >= 1
    ensures forall d <- r :: IsTrimmed(d) && forall c <- d :: !IsDash(c)
    ensures dateMatch.None? ==> r == ["", ""]
  {
    match dateMatch
    case None => ["", ""]
    case Some(m) =>
      var pieces := Split(m, IsDash);
      var r := TrimAll(pieces);
      assert forall i | 0 <= i < |r| :: forall c <- r[i] :: c in pieces[i];
      r
  }

  /** `noDates.split(/[-–@•]/).map((part) => part.trim()).filter(Boolean)` */
  function HeadingParts(noDates: string): (r: seq<string>)
    ensures forall p <- r :: p != [] && IsTrimmed(p) && forall c <- p :: !IsEntrySeparator(c)
  {
    var pieces := Split(noDates, IsEntrySeparator);
    var trimmed := TrimAll(pieces);
    assert forall i | 0 <= i < |trimmed| :: forall c <- trimmed[i] :: c in pieces[i];
    Filter(trimmed, NonEmpty)
  }

  /**
   * `parseExperienceHeading`: the date range is split at its dash into start
   * and end; the rest of the line, with the first occurrence of the date text
   * removed, is split at the separators into company and title.
   */
  function ParseExperienceHeading(line: string): (e: ExperienceEntry)
    ensures e.bullets == []
    ensures IsTrimmed(e.company) && IsTrimmed(e.title) && IsTrimmed(e.start) && IsTrimmed(e.end)
    ensures forall c <- e.company :: !IsEntrySeparator(c)
    ensures forall c <- e.title :: !IsEntrySeparator(c)
    ensures forall c <- e.start :: !IsDash(c)
    ensures forall c <- e.end :: !IsDash(c)
    ensures DateMatch(line).None? ==> e.start == "" && e.end == ""
    ensures e.company == "" ==> e.title == ""
    ensures |HeadingParts(NoDates(line))| < 2 ==> e.title == ""
  {
    var dates := DateParts(DateMatch(line));
    var parts := HeadingParts(NoDates(line));
    ExperienceEntry(PartOr(parts, 0, IsEntrySeparator), PartOr(parts, 1, IsEntrySeparator),
      PartOr(dates, 0, IsDash), PartOr(dates, 1, IsDash), [])
  }

  /** `line.replace(dateMatch?.[0] ?? "", "").trim()`: the heading with the first copy of the date text removed. */
  function NoDates(line: string): (r: string)
    ensures IsTrimmed(r)
    ensures DateMatch(line).None? ==> r == Trim(line)
  {
    ReplaceFirstEmpty(line);
    Trim(ReplaceFirst(line, DateMatch(line).GetOr(""), ""))
  }

  /** `parts[i] ?? ""` over trimmed parts none of which holds a character `bad` accepts. */
  function PartOr(parts: seq<string>, i: nat, bad: char -> bool): (r: string)
    requires forall p <- parts :: IsTrimmed(p) && forall c <- p :: !bad(c)
    ensures IsTrimmed(r) && forall c <- r :: !bad(c)
    ensures i < |parts| ==> r == parts[i]
    ensures i >= |parts| ==> r == ""
  {
    if i < |parts| then parts[i] else ""
  }

  /*
   * The round trip of a heading laid out as the parser expects it:
   * "company - title start - end".
   */

  /** The dash between two parts of a heading, with a space on each side. */
  const DashGap: string := [' ', '-', ' ']

  /** A company or title: non-empty, trimmed, with no digit and no separator. */
  predicate PlainPart(x: string)
  {
    x != [] && IsTrimmed(x) && forall c <- x :: !IsDigit(c) && !IsEntrySeparator(c)
  }

  predicate FourDigits(y: string)
  {
    |y| == 4 && forall c <- y :: IsDigit(c)
  }

  /** The heading "company - title start - end". */
  function RangeHeading(company: string, title: string, start: string, end: string): string
  {
    (company + DashGap + title + [' ']) + (start + DashGap + end)
  }

  /** A company and a title with a dash between them are read back as the two heading parts. */
  lemma HeadingPartsOfPair(c: string, t: string)
    requires PlainPart(c) && PlainPart(t)
    ensures HeadingParts(c + DashGap + t) == [c, t]
  {
    var a, b := c + [' '], [' '] + t;
    assert Split(c + DashGap + t, IsEntrySeparator) == [a, b] by {
      assert c + DashGap + t == a + ['-'] + b;
      assert forall x <- a :: x == ' ' || x in c;
      assert forall x <- b :: x == ' ' || x in t;
      SplitAround(a, '-', b, IsEntrySeparator);
    }
    TrimPair(c, t);
    assert Filter([c, t], NonEmpty) == [c, t] by {
      FilterAll([c, t], NonEmpty);
    }
  }

  /** Trimming "x " and " y" gives x and y. */
  lemma TrimPair(x: string, y: string)
    requires x != [] && IsTrimmed(x) && y != [] && IsTrimmed(y)
    ensures TrimAll([x + [' '], [' '] + y]) == [x, y]
  {
    var r := TrimAll([x + [' '], [' '] + y]);
    assert r[0] == x by {
      TrimSpaceAfter(x);
    }
    assert r[1] == y by {
      TrimSpaceBefore(y);
    }
    PairOf(r, x, y);
  }

  /** Two years with a dash between them are read back as start and end. */
  lemma DatePartsOfRange(y1: string, y2: string)
    requires FourDigits(y1) && FourDigits(y2)
    ensures DateParts(Some(y1 + DashGap + y2)) == [y1, y2]
  {
    var a, b := y1 + [' '], [' '] + y2;
    assert Split(y1 + DashGap + y2, IsDash) == [a, b] by {
      assert y1 + DashGap + y2 == a + ['-'] + b;
      assert forall x <- a :: x == ' ' || x in y1;
      assert forall x <- b :: x == ' ' || x in y2;
      SplitAround(a, '-', b, IsDash);
    }
    FourDigitsTrimmed(y1);
    FourDigitsTrimmed(y2);
    TrimPair(y1, y2);
  }

  lemma FourDigitsTrimmed(y: string)
    requires FourDigits(y)
    ensures y != [] && IsTrimmed(y)
  {
    assert y[0] in y && y[3] in y;
  }

  /** In "company - title start - end" the date range is "start - end". */
  lemma DateMatchOfRangeHeading(c: string, t: string, y1: string, y2: string)
    requires PlainPart(c) && PlainPart(t) && FourDigits(y1) && FourDigits(y2)
    ensures DateMatch(RangeHeading(c, t, y1, y2)) == Some(y1 + DashGap + y2)
  {
    var pre, m := c + DashGap + t + [' '], y1 + DashGap + y2;
    var s, p := pre + m, |pre|;
    assert forall j: nat | j < p :: !StartsRange(s, j) by {
      NoDigitInPrefix(c, t);
      forall j: nat | j < p
        ensures !StartsRange(s, j)
      {
        assert s[j] == pre[j] && pre[j] in pre;
      }
    }
    LastRangeEndOfRange(pre, y1, y2);
    LeftmostRange(s, p, |s|);
    SuffixOf(pre, m);
  }

  /** The first position where a range can start is where the date match starts. */
  lemma LeftmostRange(s: string, p: nat, e: nat)
    requires StartsRange(s, p) && LastRangeEnd(s, p, |s|) == Some(e)
    requires forall j: nat | j < p :: !StartsRange(s, j)
    ensures DateMatchFrom(s, 0) == Some((p, e))
  {
    var r := DateMatchFrom(s, 0);
    assert r.Some?;
    assert r.value.0 == p;
  }

  /** No character before the first year of "company - title " is a digit. */
  lemma NoDigitInPrefix(c: string, t: string)
    requires PlainPart(c) && PlainPart(t)
    ensures forall x <- c + DashGap + t + [' '] :: !IsDigit(x)
  {
    assert forall x <- c + DashGap + t + [' '] :: x in c || x in t || x == ' ' || x == '-';
  }

  /** Both years of "start - end" after a space stand as word-bounded four-digit tokens. */
  lemma YearsOfRange(pre: string, y1: string, y2: string)
    requires pre != [] && pre[|pre| - 1] == ' ' && FourDigits(y1) && FourDigits(y2)
    ensures YearTokenAt(pre + (y1 + DashGap + y2), |pre|)
    ensures YearTokenAt(pre + (y1 + DashGap + y2), |pre| + 7)
  {
    var m := y1 + DashGap + y2;
    var s, p := pre + m, |pre|;
    RangeChars(y1, y2, m);
    assert YearTokenAt(s, p) by {
      assert forall k | 0 <= k < 4 :: s[p + k] == m[k];
      assert s[p - 1] == ' ' && s[p + 4] == m[4];
    }
    assert YearTokenAt(s, p + 7) by {
      assert forall k | 7 <= k < 11 :: s[p + k] == m[k];
      assert s[p + 6] == m[6] && |s| == p + 11;
    }
  }

  /** The characters of "start - end". */
  lemma RangeChars(y1: string, y2: string, m: string)
    requires FourDigits(y1) && FourDigits(y2) && m == y1 + DashGap + y2
    ensures |m| == 11
    ensures forall k | 0 <= k < 4 :: IsDigit(m[k])
    ensures forall k | 7 <= k < 11 :: IsDigit(m[k])
    ensures m[4] == ' ' && m[5] == '-' && m[6] == ' '
  {
    assert forall k | 0 <= k < 4 :: m[k] == y1[k] && y1[k] in y1;
    assert forall k | 7 <= k < 11 :: m[k] == y2[k - 7] && y2[k - 7] in y2;
  }

  /** The greedy range from the first year of "start - end" runs to the end of the second. */
  lemma LastRangeEndOfRange(pre: string, y1: string, y2: string)
    requires pre != [] && pre[|pre| - 1] == ' ' && FourDigits(y1) && FourDigits(y2)
    ensures StartsRange(pre + (y1 + DashGap + y2), |pre|)
    ensures LastRangeEnd(pre + (y1 + DashGap + y2), |pre|, |pre + (y1 + DashGap + y2)|) == Some(|pre + (y1 + DashGap + y2)|)
  {
    var s, p := pre + (y1 + DashGap + y2), |pre|;
    RangeChars(y1, y2, y1 + DashGap + y2);
    YearsOfRange(pre, y1, y2);
    assert ClosesAt(s, p, p + 7) by {
      assert s[p + 4] == ' ' && s[p + 5] == '-' && s[p + 6] == ' ';
      assert RangeEndAt(s, p + 7) == Some(p + 11);
    }
    assert forall k | p + 7 < k :: !Closer(s, p)(k) by {
      forall k | p + 7 < k ensures !ClosesAt(s, p, k) {
        assert k + 4 > |s|;
      }
    }
    var w := LastWhere(p + 4, p + 11, Closer(s, p));
    assert Closer(s, p)(p + 7);
    assert w == Some(p + 7);
  }

  /** In "company - title start - end", removing the date text and trimming leaves "company - title". */
  lemma NoDatesOfRangeHeading(c: string, t: string, y1: string, y2: string)
    requires PlainPart(c) && PlainPart(t) && FourDigits(y1) && FourDigits(y2)
    ensures Trim(ReplaceFirst(RangeHeading(c, t, y1, y2), y1 + DashGap + y2, "")) == c + DashGap + t
  {
    var pre, m := c + DashGap + t + [' '], y1 + DashGap + y2;
    var s, p := pre + m, |pre|;
    assert IndexOf(s, m) == Some(p) by {
      assert OccursAt(s, m, p) by {
        SuffixOf(pre, m);
      }
      assert forall j: nat | j < p :: !OccursAt(s, m, j) by {
        NoDigitInPrefix(c, t);
        assert y1[0] in y1 && m[0] == y1[0];
        forall j: nat | j < p
          ensures !OccursAt(s, m, j)
        {
          assert s[j] == pre[j] && pre[j] in pre;
          if j + |m| <= |s| {
            assert s[j..j + |m|][0] == s[j];
          }
        }
      }
      FirstOccurrence(s, m, p);
    }
    assert ReplaceFirst(s, m, "") == pre by {
      PrefixOf(pre, m);
      assert s[p + |m|..] == [];
    }
    var x := c + DashGap + t;
    assert x[0] == c[0] && x[|x| - 1] == t[|t| - 1];
    TrimSpaceAfter(x);
  }

  /** The round trip: "company - title start - end" is parsed back into those four fields. */
  lemma ParseRangeHeading(c: string, t: string, y1: string, y2: string)
    requires PlainPart(c) && PlainPart(t) && FourDigits(y1) && FourDigits(y2)
    ensures ParseExperienceHeading(RangeHeading(c, t, y1, y2)) == ExperienceEntry(c, t, y1, y2, [])
  {
    var line := RangeHeading(c, t, y1, y2);
    assert DateParts(DateMatch(line)) == [y1, y2] by {
      DateMatchOfRangeHeading(c, t, y1, y2);
      DatePartsOfRange(y1, y2);
    }
    assert HeadingParts(NoDates(line)) == [c, t] by {
      DateMatchOfRangeHeading(c, t, y1, y2);
      NoDatesOfRangeHeading(c, t, y1, y2);
      HeadingPartsOfPair(c, t);
    }
  }

  /*
   * The "current entry" accumulator shared by `extractExperience` and
   * `extractEducation`, stated for any heading test `isHead`: a heading line
   * closes the current entry and opens a new one; any other line is stripped
   * of its bullet marker and, when something is left, appended to the
   * current entry, which is created blank when there is none yet.
   */

  /** An entry before its heading is parsed: the heading line, if any, and the bullets gathered under it. */
  datatype Block = Block(head: Option<string>, bullets: seq<string>)

  /** The accumulator: the entries already pushed and the current one. */
  datatype Accumulator = Accumulator(done: seq<Block>, current: Option<Block>)

  /** Reading one line. */
  function Step(acc: Accumulator, line: string, isHead: string -> bool): Accumulator
  {
    if isHead(line) then
      Accumulator(acc.done + (if acc.current.Some? then [acc.current.value] else []), Some(Block(Some(line), [])))
    else
      var bullet := StripBullet(line);
      if bullet == "" then acc else AddBullet(acc, bullet)
  }

  /** A bullet goes to the current entry, or to a new entry without a heading when there is none. */
  function AddBullet(acc: Accumulator, bullet: string): Accumulator
  {
    var current := acc.current.GetOr(Block(None, []));
    Accumulator(acc.done, Some(current.(bullets := current.bullets + [bullet])))
  }

  /** The number of entries the accumulator holds, the current one included. */
  function Count(acc: Accumulator): nat
  {
    |acc.done| + if acc.current.Some? then 1 else 0
  }

  /** What every accumulated entry satisfies: a heading that passes `isHead`, or bullets; and no empty bullet. */
  predicate GoodBlock(b: Block, isHead: string -> bool)
  {
    && (b.head.Some? ==> isHead(b.head.value))
    && (b.head.None? ==> b.bullets != [])
    && forall x <- b.bullets :: x != []
  }

  /** The accumulator invariant: only the very first entry may lack a heading. */
  predicate Wellformed(acc: Accumulator, isHead: string -> bool)
  {
    && (forall i | 0 < i < |acc.done| :: acc.done[i].head.Some?)
    && (acc.done != [] ==> acc.current.Some? && acc.current.value.head.Some?)
    && (forall b <- acc.done :: GoodBlock(b, isHead))
    && (acc.current.Some? ==> GoodBlock(acc.current.value, isHead))
  }

  lemma StepKeepsWellformed(acc: Accumulator, line: string, isHead: string -> bool)
    requires Wellformed(acc, isHead)
    ensures Wellformed(Step(acc, line, isHead), isHead)
    ensures Count(Step(acc, line, isHead)) <= Count(acc) + 1
  {
    if isHead(line) {
      HeadingKeepsWellformed(acc, line, isHead);
    } else if StripBullet(line) != "" {
      BulletKeepsWellformed(acc, StripBullet(line), isHead);
    }
  }

  /** A heading pushes the current entry, which is good, and opens a good one. */
  lemma HeadingKeepsWellformed(acc: Accumulator, line: string, isHead: string -> bool)
    requires Wellformed(acc, isHead) && isHead(line)
    ensures Wellformed(Step(acc, line, isHead), isHead)
  {
    var next := Step(acc, line, isHead);
    assert forall i | 0 < i < |next.done| :: next.done[i] in acc.done || next.done[i] == acc.current.value;
    assert forall b <- next.done :: b in acc.done || b == acc.current.value;
  }

  /** A non-empty bullet keeps the accumulator well formed. */
  lemma BulletKeepsWellformed(acc: Accumulator, bullet: string, isHead: string -> bool)
    requires Wellformed(acc, isHead) && bullet != []
    ensures Wellformed(AddBullet(acc, bullet), isHead)
  {
    var c := AddBullet(acc, bullet).current.value;
    assert forall x <- c.bullets :: x != [] by {
      assert forall x <- c.bullets :: x == bullet || (acc.current.Some? && x in acc.current.value.bullets);
    }
  }

  /** The accumulator after reading `lines` from the start. */
  function Fold(lines: seq<string>, isHead: string -> bool): (acc: Accumulator)
    ensures Count(acc) <= |lines|
    ensures Wellformed(acc, isHead)
  {
    if lines == [] then Accumulator([], None)
    else
      var prev := Fold(lines[..|lines| - 1], isHead);
      StepKeepsWellformed(prev, lines[|lines| - 1], isHead);
      Step(prev, lines[|lines| - 1], isHead)
  }

  /** The entries once every line is read: the pushed ones and the last current one. */
  function Blocks(lines: seq<string>, isHead: string -> bool): (r: seq<Block>)
    ensures |r| <= |lines|
    ensures forall i | 0 < i < |r| :: r[i].head.Some?
    ensures forall b <- r :: GoodBlock(b, isHead)
  {
    var acc := Fold(lines, isHead);
    acc.done + if acc.current.Some? then [acc.current.value] else []
  }

  /** The bullets of every non-heading line: the line after `stripBullet`, when something is left. */
  function BulletLines(lines: seq<string>, isHead: string -> bool): (r: seq<string>)
    ensures forall b <- r :: b != [] && IsTrimmed(b)
  {
    if lines == [] then []
    else
      var line := lines[|lines| - 1];
      BulletLines(lines[..|lines| - 1], isHead) +
        if !isHead(line) && StripBullet(line) != "" then [StripBullet(line)] else []
  }

  /** All bullets of a list of entries, entry by entry. */
  function AllBullets(blocks: seq<Block>): seq<string>
  {
    if blocks == [] then [] else AllBullets(blocks[..|blocks| - 1]) + blocks[|blocks| - 1].bullets
  }

  /** The heading lines of a list of entries, in order. */
  function Heads(blocks: seq<Block>): seq<string>
  {
    if blocks == [] then []
    else
      var b := blocks[|blocks| - 1];
      Heads(blocks[..|blocks| - 1]) + if b.head.Some? then [b.head.value] else []
  }

  lemma AllBulletsSnoc(blocks: seq<Block>, b: Block)
    ensures AllBullets(blocks + [b]) == AllBullets(blocks) + b.bullets
    ensures Heads(blocks + [b]) == Heads(blocks) + if b.head.Some? then [b.head.value] else []
  {
    assert (blocks + [b])[..|blocks|] == blocks;
  }

  /** Bullets are kept in source order, none is lost and none is empty. */
  lemma {:induction false} BlocksKeepBullets(lines: seq<string>, isHead: string -> bool)
    ensures AllBullets(Blocks(lines, isHead)) == BulletLines(lines, isHead)
  {
    var acc := Fold(lines, isHead);
    AccumulatorBullets(lines, isHead);
    if acc.current.Some? {
      AllBulletsSnoc(acc.done, acc.current.value);
    } else {
      assert acc.done + [] == acc.done;
    }
  }

  /** The bullets of the current entry, if there is one. */
  function CurrentBullets(acc: Accumulator): seq<string>
  {
    if acc.current.Some? then acc.current.value.bullets else []
  }

  /** The bullet of one line: its stripped text, unless it is a heading or nothing is left. */
  function LineBullet(line: string, isHead: string -> bool): seq<string>
  {
    if !isHead(line) && StripBullet(line) != "" then [StripBullet(line)] else []
  }

  lemma {:induction false} AccumulatorBullets(lines: seq<string>, isHead: string -> bool)
    ensures var acc := Fold(lines, isHead); AllBullets(acc.done) + CurrentBullets(acc) == BulletLines(lines, isHead)
  {
    if lines != [] {
      var before, line := lines[..|lines| - 1], lines[|lines| - 1];
      var acc := Fold(before, isHead);
      AccumulatorBullets(before, isHead);
      BulletsStep(acc, line, isHead);
      assert BulletLines(lines, isHead) == BulletLines(before, isHead) + LineBullet(line, isHead);
    }
  }

  /** One line adds its own bullet, if it has one, to the bullets seen. */
  lemma BulletsStep(acc: Accumulator, line: string, isHead: string -> bool)
    ensures var next := Step(acc, line, isHead);
      AllBullets(next.done) + CurrentBullets(next) == (AllBullets(acc.done) + CurrentBullets(acc)) + LineBullet(line, isHead)
  {
    var next := Step(acc, line, isHead);
    if isHead(line) {
      BulletsStepHeading(acc, line, isHead);
    } else if StripBullet(line) != "" {
      BulletsOfAddBullet(acc, StripBullet(line));
    }
  }

  lemma BulletsOfAddBullet(acc: Accumulator, bullet: string)
    ensures var next := AddBullet(acc, bullet);
      AllBullets(next.done) + CurrentBullets(next) == (AllBullets(acc.done) + CurrentBullets(acc)) + [bullet]
  {
    AppendAssoc(AllBullets(acc.done), CurrentBullets(acc), [bullet]);
  }

  lemma BulletsStepHeading(acc: Accumulator, line: string, isHead: string -> bool)
    requires isHead(line)
    ensures var next := Step(acc, line, isHead);
      AllBullets(next.done) + CurrentBullets(next) == (AllBullets(acc.done) + CurrentBullets(acc)) + LineBullet(line, isHead)
  {
    var next := Step(acc, line, isHead);
    assert CurrentBullets(next) == [] && LineBullet(line, isHead) == [];
    if acc.current.Some? {
      AllBulletsSnoc(acc.done, acc.current.value);
    } else {
      assert acc.done + [] == acc.done;
    }
  }

  /** Every heading line opens exactly one entry, in source order. */
  lemma {:induction false} BlocksKeepHeadings(lines: seq<string>, isHead: string -> bool)
    ensures Heads(Blocks(lines, isHead)) == Filter(lines, isHead)
  {
    var acc := Fold(lines, isHead);
    AccumulatorHeads(lines, isHead);
    if acc.current.Some? {
      AllBulletsSnoc(acc.done, acc.current.value);
    } else {
      assert acc.done + [] == acc.done;
    }
  }

  /** The heading line of the current entry, if it has one. */
  function CurrentHead(acc: Accumulator): seq<string>
  {
    if acc.current.Some? && acc.current.value.head.Some? then [acc.current.value.head.value] else []
  }

  lemma {:induction false} AccumulatorHeads(lines: seq<string>, isHead: string -> bool)
    ensures var acc := Fold(lines, isHead); Heads(acc.done) + CurrentHead(acc) == Filter(lines, isHead)
  {
    if lines != [] {
      var before, line := lines[..|lines| - 1], lines[|lines| - 1];
      var acc := Fold(before, isHead);
      AccumulatorHeads(before, isHead);
      HeadsStep(acc, line, isHead);
      FrontLast(lines);
      FilterAppend(before, [line], isHead);
      AppendAssoc(Heads(acc.done), CurrentHead(acc), Filter([line], isHead));
    }
  }

  /** One line adds its own heading, if it is one, to the headings seen. */
  lemma HeadsStep(acc: Accumulator, line: string, isHead: string -> bool)
    ensures var next := Step(acc, line, isHead);
      Heads(next.done) + CurrentHead(next) == (Heads(acc.done) + CurrentHead(acc)) + Filter([line], isHead)
  {
    if isHead(line) {
      HeadsStepHeading(acc, line, isHead);
    } else {
      var next := Step(acc, line, isHead);
      assert Filter([line], isHead) == [];
      assert next.done == acc.done && CurrentHead(next) == CurrentHead(acc);
    }
  }

  lemma HeadsStepHeading(acc: Accumulator, line: string, isHead: string -> bool)
    requires isHead(line)
    ensures var next := Step(acc, line, isHead);
      Heads(next.done) + CurrentHead(next) == (Heads(acc.done) + CurrentHead(acc)) + Filter([line], isHead)
  {
    var next := Step(acc, line, isHead);
    assert Filter([line], isHead) == [line];
    assert CurrentHead(next) == [line];
    if acc.current.Some? {
      AllBulletsSnoc(acc.done, acc.current.value);
    } else {
      assert acc.done + [] == acc.done;
    }
    assert Heads(next.done) == Heads(acc.done) + CurrentHead(acc);
  }

  lemma FoldSnoc(lines: seq<string>, i: nat, isHead: string -> bool)
    requires i < |lines|
    ensures Fold(lines[..i + 1], isHead) == Step(Fold(lines[..i], isHead), lines[i], isHead)
  {
    assert lines[..i + 1][..i] == lines[..i];
  }

  /** The bullets of a list of entries, entry by entry, given each entry's bullets. */
  lemma {:induction false} SameBullets(bulletsOf: seq<seq<string>>, blocks: seq<Block>)
    requires |bulletsOf| == |blocks| && forall i | 0 <= i < |blocks| :: bulletsOf[i] == blocks[i].bullets
    ensures Flatten(bulletsOf) == AllBullets(blocks)
  {
    if blocks != [] {
      var n := |blocks| - 1;
      SameBullets(bulletsOf[..n], blocks[..n]);
    }
  }

  /*
   * extractExperience
   */

  /**
   * `isNewExperienceHeading`: a "Words - Word" line, or one with a four-digit
   * token that does not start with "•". The bullet test binds to the year
   * alternative only (`A || (B && C)`).
   */
  predicate IsNewExperienceHeading(line: string, h: Heuristics): (r: bool)
    ensures h.isNamedRange(line) ==> r
    ensures line != [] && line[0] == '\U{2022}' ==> (r <==> h.isNamedRange(line))
    ensures !HasYearToken(line) ==> (r <==> h.isNamedRange(line))
    ensures HasYearToken(line) && (line == [] || line[0] != '\U{2022}') ==> r
  {
    h.isNamedRange(line) || (HasYearToken(line) && !(line != [] && line[0] == '\U{2022}'))
  }

  function IsExperienceHeading(h: Heuristics): string -> bool
  {
    line => IsNewExperienceHeading(line, h)
  }

  /** The experience entry of an accumulated block: the parsed heading, or a blank entry, with the block's bullets. */
  function ToExperience(b: Block): (e: ExperienceEntry)
    ensures e.bullets == b.bullets
    ensures b.head.Some? ==> e == ParseExperienceHeading(b.head.value).(bullets := b.bullets)
    ensures b.head.None? ==> e.company == e.title == e.start == e.end == ""
  {
    match b.head
    case None => ExperienceEntry("", "", "", "", b.bullets)
    case Some(line) => ParseExperienceHeading(line).(bullets := b.bullets)
  }

  function ExperienceEntries(blocks: seq<Block>): (r: seq<ExperienceEntry>)
  {
    seq(|blocks|, i requires 0 <= i < |blocks| => ToExperience(blocks[i]))
  }

  lemma ExperienceEntriesSnoc(blocks: seq<Block>, b: Block)
    ensures ExperienceEntries(blocks + [b]) == ExperienceEntries(blocks) + [ToExperience(b)]
  {
  }

  function CurrentExperience(acc: Accumulator): Option<ExperienceEntry>
  {
    if acc.current.Some? then Some(ToExperience(acc.current.value)) else None
  }

  /** The experience entries of the lines of the experience section. */
  function ExperienceOf(lines: seq<string>, h: Heuristics): (r: seq<ExperienceEntry>)
    ensures |r| <= |lines|
    ensures forall e <- r, b <- e.bullets :: b != []
    ensures forall e <- r :: IsTrimmed(e.company) && IsTrimmed(e.title)
  {
    var blocks := Blocks(lines, IsExperienceHeading(h));
    ExperienceEntriesOfGoodBlocks(blocks, IsExperienceHeading(h));
    ExperienceEntries(blocks)
  }

  lemma ExperienceEntriesOfGoodBlocks(blocks: seq<Block>, isHead: string -> bool)
    requires forall b <- blocks :: GoodBlock(b, isHead)
    ensures forall e <- ExperienceEntries(blocks), x <- e.bullets :: x != []
    ensures forall e <- ExperienceEntries(blocks) :: IsTrimmed(e.company) && IsTrimmed(e.title)
  {
    var r := ExperienceEntries(blocks);
    forall e <- r ensures (forall x <- e.bullets :: x != []) && IsTrimmed(e.company) && IsTrimmed(e.title) {
      var i :| 0 <= i < |r| && r[i] == e;
      assert blocks[i] in blocks;
    }
  }

  /** The blank entry a bullet before any heading is filed under. */
  const BlankExperience := ExperienceEntry("", "", "", "", [])

  /** One line of the experience loop, as the fold takes it. */
  lemma ExperienceStep(acc: Accumulator, line: string, h: Heuristics)
    ensures var next := Step(acc, line, IsExperienceHeading(h));
      if IsNewExperienceHeading(line, h) then
        && ExperienceEntries(next.done) == ExperienceEntries(acc.done) + (if acc.current.Some? then [CurrentExperience(acc).value] else [])
        && CurrentExperience(next) == Some(ParseExperienceHeading(line))
      else
        && next.done == acc.done
        && CurrentExperience(next) ==
          if StripBullet(line) == "" then CurrentExperience(acc)
          else
            var c := CurrentExperience(acc).GetOr(BlankExperience);
            Some(c.(bullets := c.bullets + [StripBullet(line)]))
  {
    if IsNewExperienceHeading(line, h) {
      ExperienceStepHeading(acc, line, h);
    } else {
      ExperienceStepBullet(acc, line, h);
    }
  }

  /** A heading closes the current entry and opens a new one with no bullets. */
  lemma ExperienceStepHeading(acc: Accumulator, line: string, h: Heuristics)
    requires IsNewExperienceHeading(line, h)
    ensures var next := Step(acc, line, IsExperienceHeading(h));
      && ExperienceEntries(next.done) == ExperienceEntries(acc.done) + (if acc.current.Some? then [CurrentExperience(acc).value] else [])
      && CurrentExperience(next) == Some(ParseExperienceHeading(line))
  {
    var next := Step(acc, line, IsExperienceHeading(h));
    assert next.current == Some(Block(Some(line), []));
    assert ExperienceEntries(next.done) == ExperienceEntries(acc.done) + (if acc.current.Some? then [CurrentExperience(acc).value] else []) by {
      if acc.current.Some? {
        ExperienceEntriesSnoc(acc.done, acc.current.value);
      } else {
        assert acc.done + [] == acc.done;
      }
    }
  }

  /** Any other line adds its stripped text, when not empty, to the current entry, opening a blank one if there is none. */
  lemma ExperienceStepBullet(acc: Accumulator, line: string, h: Heuristics)
    requires !IsNewExperienceHeading(line, h)
    ensures var next := Step(acc, line, IsExperienceHeading(h));
      && next.done == acc.done
      && CurrentExperience(next) ==
        if StripBullet(line) == "" then CurrentExperience(acc)
        else
          var c := CurrentExperience(acc).GetOr(BlankExperience);
          Some(c.(bullets := c.bullets + [StripBullet(line)]))
  {
    if StripBullet(line) != "" {
      ExperienceOfAddBullet(acc, StripBullet(line));
    }
  }

  lemma ExperienceOfAddBullet(acc: Accumulator, bullet: string)
    ensures var next := AddBullet(acc, bullet);
      && next.done == acc.done
      && CurrentExperience(next) ==
        var c := CurrentExperience(acc).GetOr(BlankExperience);
        Some(c.(bullets := c.bullets + [bullet]))
  {
  }

  /** `entries.flatMap((e) => e.bullets)` */
  function ExperienceBullets(entries: seq<ExperienceEntry>): seq<string>
  {
    Flatten(seq(|entries|, i requires 0 <= i < |entries| => entries[i].bullets))
  }

  /** The bullets of all experience entries are the stripped non-heading lines, in source order. */
  lemma ExperienceKeepsBullets(lines: seq<string>, h: Heuristics)
    ensures ExperienceBullets(ExperienceOf(lines, h)) == BulletLines(lines, IsExperienceHeading(h))
  {
    var blocks := Blocks(lines, IsExperienceHeading(h));
    var entries := ExperienceOf(lines, h);
    SameBullets(seq(|entries|, i requires 0 <= i < |entries| => entries[i].bullets), blocks);
    BlocksKeepBullets(lines, IsExperienceHeading(h));
  }

  /** `extractExperience` */
  method ExtractExperience(experienceLines: Option<seq<string>>, h: Heuristics) returns (entries: seq<ExperienceEntry>)
    ensures entries == ExperienceOf(experienceLines.GetOr([]), h)
    ensures experienceLines.None? || experienceLines == Some([]) ==> entries == []
  {
    if experienceLines.None? || experienceLines.value == [] {
      ExperienceOfFold([], h);
      return [];
    }
    var lines := experienceLines.value;
    ghost var isHead := IsExperienceHeading(h);
    ghost var acc := Accumulator([], None);
    entries := [];
    var current: Option<ExperienceEntry> := None;
    for i := 0 to |lines|
      invariant acc == Fold(lines[..i], isHead)
      invariant entries == ExperienceEntries(acc.done)
      invariant current == CurrentExperience(acc)
    {
      var line := lines[i];
      FoldSnoc(lines, i, isHead);
      ExperienceStep(acc, line, h);
      acc := Step(acc, line, isHead);
      if IsNewExperienceHeading(line, h) {
        if current.Some? {
          entries := entries + [current.value];
        }
        current := Some(ParseExperienceHeading(line));
        continue;
      }
      var bullet := StripBullet(line);
      if bullet != "" {
        if current.None? {
          current := Some(BlankExperience);
        }
        current := Some(current.value.(bullets := current.value.bullets + [bullet]));
      }
    }
    if current.Some? {
      entries := entries + [current.value];
    }
    assert lines[..|lines|] == lines;
    ExperienceOfFold(lines, h);
    if acc.current.Some? {
      ExperienceEntriesSnoc(acc.done, acc.current.value);
    }
  }

  lemma ExperienceOfFold(lines: seq<string>, h: Heuristics)
    ensures var acc := Fold(lines, IsExperienceHeading(h));
      ExperienceOf(lines, h) == ExperienceEntries(acc.done) + if acc.current.Some? then [ToExperience(acc.current.value)] else []
  {
    var acc := Fold(lines, IsExperienceHeading(h));
    if acc.current.Some? {
      ExperienceEntriesSnoc(acc.done, acc.current.value);
    } else {
      assert acc.done + [] == acc.done;
    }
  }

  /*
   * extractEducation
   */

  /** The words of `/(b\.?s\.?|m\.?s\.?|ph\.?d\.?|bachelor|master|diploma|degree)/i`; the optional trailing dots do not change whether it matches. */
  const DegreeWords: seq<string> := ["bs", "b.s", "ms", "m.s", "phd", "ph.d", "bachelor", "master", "diploma", "degree"]

  /** The degree test: one of the words occurs anywhere in the line, in any case, inside another word too. */
  predicate IsDegreeLine(line: string)
  {
    exists w <- DegreeWords :: Contains(Lower(line), w)
  }

  /** The degree test is a case-insensitive search: some slice of the line, lower-cased, is a degree word. */
  lemma DegreeLineIgnoringCase(line: string)
    ensures IsDegreeLine(line) <==> exists w <- DegreeWords, i: nat :: OccursAtIgnoringCase(line, w, i)
  {
    forall w <- DegreeWords
      ensures Contains(Lower(line), w) <==> exists i: nat :: OccursAtIgnoringCase(line, w, i)
    {
      ContainsIgnoringCase(line, w);
    }
  }

  /** The lower-case word `w` occurs at position `i` of `line` once `line` is lower-cased. */
  predicate OccursAtIgnoringCase(line: string, w: string, i: nat)
  {
    i + |w| <= |line| && Lower(line[i..i + |w|]) == w
  }

  lemma ContainsIgnoringCase(line: string, w: string)
    ensures Contains(Lower(line), w) <==> exists i: nat :: OccursAtIgnoringCase(line, w, i)
  {
    var lowered := Lower(line);
    if Contains(lowered, w) {
      var i := IndexOf(lowered, w).value;
      assert lowered[i..i + |w|] == Lower(line[i..i + |w|]);
      assert OccursAtIgnoringCase(line, w, i);
    }
    if exists i: nat :: OccursAtIgnoringCase(line, w, i) {
      var i: nat :| OccursAtIgnoringCase(line, w, i);
      assert lowered[i..i + |w|] == Lower(line[i..i + |w|]);
      assert OccursAt(lowered, w, i);
    }
  }

  /** A degree word written in any case, anywhere in a line, even inside another word, makes it a degree line. */
  lemma DegreeLineOfWord(before: string, word: string, after: string)
    requires Lower(word) in DegreeWords
    ensures IsDegreeLine(before + word + after)
  {
    var line := before + word + after;
    assert line[|before|..|before| + |word|] == word;
    assert OccursAtIgnoringCase(line, Lower(word), |before|);
    DegreeLineIgnoringCase(line);
  }

  /** The education entry of an accumulated block: a degree line is both institution and degree. */
  function ToEducation(b: Block): (e: EducationEntry)
    ensures e.bullets == b.bullets
    ensures e.institution == e.degree && e.year == ExtractYear(e.degree)
  {
    match b.head
    case None => EducationEntry("", "", "", b.bullets)
    case Some(line) => EducationEntry(line, line, ExtractYear(line), b.bullets)
  }

  function EducationEntries(blocks: seq<Block>): seq<EducationEntry>
  {
    seq(|blocks|, i requires 0 <= i < |blocks| => ToEducation(blocks[i]))
  }

  lemma EducationEntriesSnoc(blocks: seq<Block>, b: Block)
    ensures EducationEntries(blocks + [b]) == EducationEntries(blocks) + [ToEducation(b)]
  {
  }

  function CurrentEducation(acc: Accumulator): Option<EducationEntry>
  {
    if acc.current.Some? then Some(ToEducation(acc.current.value)) else None
  }

  /** The education entries of the lines of the education section. */
  function EducationOf(lines: seq<string>): (r: seq<EducationEntry>)
    ensures |r| <= |lines|
    ensures forall e <- r, b <- e.bullets :: b != []
    ensures forall e <- r :: e.institution == e.degree && e.year == ExtractYear(e.degree)
    ensures forall i | 0 < i < |r| :: IsDegreeLine(r[i].degree)
  {
    var blocks := Blocks(lines, IsDegreeLine);
    EducationEntriesOfGoodBlocks(blocks);
    EducationEntries(blocks)
  }

  lemma EducationEntriesOfGoodBlocks(blocks: seq<Block>)
    requires forall b <- blocks :: GoodBlock(b, IsDegreeLine)
    requires forall i | 0 < i < |blocks| :: blocks[i].head.Some?
    ensures forall e <- EducationEntries(blocks), x <- e.bullets :: x != []
    ensures forall i | 0 < i < |blocks| :: IsDegreeLine(EducationEntries(blocks)[i].degree)
  {
    var r := EducationEntries(blocks);
    forall e <- r ensures forall x <- e.bullets :: x != [] {
      var i :| 0 <= i < |r| && r[i] == e;
      assert blocks[i] in blocks;
    }
    forall i | 0 < i < |blocks| ensures IsDegreeLine(r[i].degree) {
      assert blocks[i] in blocks;
    }
  }

  /** The blank entry a bullet before any degree line is filed under. */
  const BlankEducation := EducationEntry("", "", "", [])

  /** One line of the education loop, as the fold takes it. */
  lemma EducationStep(acc: Accumulator, line: string)
    ensures var next := Step(acc, line, IsDegreeLine);
      if IsDegreeLine(line) then
        && EducationEntries(next.done) == EducationEntries(acc.done) + (if acc.current.Some? then [CurrentEducation(acc).value] else [])
        && CurrentEducation(next) == Some(EducationEntry(line, line, ExtractYear(line), []))
      else
        && next.done == acc.done
        && CurrentEducation(next) ==
          if StripBullet(line) == "" then CurrentEducation(acc)
          else
            var c := CurrentEducation(acc).GetOr(BlankEducation);
            Some(c.(bullets := c.bullets + [StripBullet(line)]))
  {
    if IsDegreeLine(line) {
      EducationStepDegree(acc, line);
    } else if StripBullet(line) != "" {
      EducationOfAddBullet(acc, StripBullet(line));
    }
  }

  /** A degree line closes the current entry and opens a new one with no bullets. */
  lemma EducationStepDegree(acc: Accumulator, line: string)
    requires IsDegreeLine(line)
    ensures var next := Step(acc, line, IsDegreeLine);
      && EducationEntries(next.done) == EducationEntries(acc.done) + (if acc.current.Some? then [CurrentEducation(acc).value] else [])
      && CurrentEducation(next) == Some(EducationEntry(line, line, ExtractYear(line), []))
  {
    var next := Step(acc, line, IsDegreeLine);
    assert next.current == Some(Block(Some(line), []));
    assert EducationEntries(next.done) == EducationEntries(acc.done) + (if acc.current.Some? then [CurrentEducation(acc).value] else []) by {
      if acc.current.Some? {
        EducationEntriesSnoc(acc.done, acc.current.value);
      } else {
        assert acc.done + [] == acc.done;
      }
    }
  }

  lemma EducationOfAddBullet(acc: Accumulator, bullet: string)
    ensures var next := AddBullet(acc, bullet);
      && next.done == acc.done
      && CurrentEducation(next) ==
        var c := CurrentEducation(acc).GetOr(BlankEducation);
        Some(c.(bullets := c.bullets + [bullet]))
  {
  }

  lemma EducationOfFold(lines: seq<string>)
    ensures var acc := Fold(lines, IsDegreeLine);
      EducationOf(lines) == EducationEntries(acc.done) + if acc.current.Some? then [ToEducation(acc.current.value)] else []
  {
    var acc := Fold(lines, IsDegreeLine);
    if acc.current.Some? {
      EducationEntriesSnoc(acc.done, acc.current.value);
    } else {
      assert acc.done + [] == acc.done;
    }
  }

  /** `entries.flatMap((e) => e.bullets)` */
  function EducationBullets(entries: seq<EducationEntry>): seq<string>
  {
    Flatten(seq(|entries|, i requires 0 <= i < |entries| => entries[i].bullets))
  }

  /** The bullets of all education entries are the stripped non-degree lines, in source order. */
  lemma EducationKeepsBullets(lines: seq<string>)
    ensures EducationBullets(EducationOf(lines)) == BulletLines(lines, IsDegreeLine)
  {
    var blocks := Blocks(lines, IsDegreeLine);
    var entries := EducationOf(lines);
    SameBullets(seq(|entries|, i requires 0 <= i < |entries| => entries[i].bullets), blocks);
    BlocksKeepBullets(lines, IsDegreeLine);
  }

  /** `extractEducation` */
  method ExtractEducation(educationLines: Option<seq<string>>) returns (entries: seq<EducationEntry>)
    ensures entries == EducationOf(educationLines.GetOr([]))
    ensures educationLines.None? || educationLines == Some([]) ==> entries == []
  {
    if educationLines.None? || educationLines.value == [] {
      EducationOfFold([]);
      return [];
    }
    var lines := educationLines.value;
    ghost var isHead: string -> bool := IsDegreeLine;
    ghost var acc := Accumulator([], None);
    entries := [];
    var current: Option<EducationEntry> := None;
    for i := 0 to |lines|
      invariant acc == Fold(lines[..i], isHead)
      invariant entries == EducationEntries(acc.done)
      invariant current == CurrentEducation(acc)
    {
      var line := lines[i];
      FoldSnoc(lines, i, isHead);
      EducationStep(acc, line);
      acc := Step(acc, line, isHead);
      if IsDegreeLine(line) {
        if current.Some? {
          entries := entries + [current.value];
        }
        current := Some(EducationEntry(line, line, ExtractYear(line), []));
        continue;
      }
      var bullet := StripBullet(line);
      if bullet != "" {
        if current.None? {
          current := Some(BlankEducation);
        }
        current := Some(current.value.(bullets := current.value.bullets + [bullet]));
      }
    }
    if current.Some? {
      entries := entries + [current.value];
    }
    assert lines[..|lines|] == lines;
    EducationOfFold(lines);
    if acc.current.Some? {
      EducationEntriesSnoc(acc.done, acc.current.value);
    }
  }
}
