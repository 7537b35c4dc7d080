/**
 * The resume text parser (src/lib/parser.ts: parseResumeText, normaliseText,
 * extractSkills): text normalisation, line splitting, skill tokenising, and
 * the pipeline that assembles a `ResumeJson` from every stage.
 */
module Parser {
  import opened Wrappers
  import opened Strings
  import opened Seqs
  import opened Resume
  import opened Sections
  import opened Contact
  import opened Entries

  /*
   * normaliseText
   */

  predicate IsNewline(c: char) { c == '\n' }

  predicate NotNewline(c: char) { c != '\n' }

  /** `.replace(/\t/g, " ").replace(/\r/g, "\n")` on one character. */
  function UntabChar(c: char): char
  {
    if c == '\t' then ' ' else if c == '\r' then '\n' else c
  }

  /** Tabs become spaces and carriage returns become newlines. */
  function Untab(s: string): (r: string)
    ensures |r| == |s| && forall i | 0 <= i < |s| :: r[i] == UntabChar(s[i])
    ensures forall c <- r :: c != '\t' && c != '\r'
  {
    seq(|s|, i requires 0 <= i < |s| => UntabChar(s[i]))
  }

  /** No three newlines in a row. */
  predicate NoTripleNewline(s: string)
  {
    forall i | 0 <= i && i + 2 < |s| :: !(s[i] == '\n' && s[i + 1] == '\n' && s[i + 2] == '\n')
  }

  /** `.replace(/\n{3,}/g, "\n\n")`: every run of three or more newlines becomes a single blank line. */
  function CollapseNewlines(s: string): (r: string)
    ensures NoTripleNewline(r)
    ensures |r| <= |s|
    ensures r == [] <==> s == []
    ensures r != [] ==> r[0] == s[0]
    ensures forall c <- r :: c in s
    decreases |s|
  {
    if s == [] then []
    else if s[0] != '\n' then
      var rest := CollapseNewlines(s[1..]);
      assert forall c <- rest :: c in s;
      [s[0]] + rest
    else
      var n := LeadingRun(s, IsNewline);
      var run := if n >= 3 then "\n\n" else s[..n];
      var rest := CollapseNewlines(s[n..]);
      assert forall c <- rest :: c in s;
      assert forall c <- run :: c == '\n' && c in s by {
        assert s[0] in s;
      }
      NoTripleAfterRun(run, rest);
      run + rest
  }

  /** Collapsing only ever drops newlines: every other character survives, in order. */
  lemma {:induction false} CollapseKeepsText(s: string)
    ensures Filter(CollapseNewlines(s), NotNewline) == Filter(s, NotNewline)
    decreases |s|
  {
    if s != [] {
      if s[0] != '\n' {
        CollapseKeepsText(s[1..]);
        KeepsTextPlain(s);
      } else {
        var n := LeadingRun(s, IsNewline);
        CollapseKeepsText(s[n..]);
        KeepsTextRun(s);
      }
    }
  }

  lemma KeepsTextPlain(s: string)
    requires s != [] && s[0] != '\n'
    requires Filter(CollapseNewlines(s[1..]), NotNewline) == Filter(s[1..], NotNewline)
    ensures Filter(CollapseNewlines(s), NotNewline) == Filter(s, NotNewline)
  {
    CollapsePlain(s);
    assert s == [s[0]] + s[1..];
    FilterSameHead(s[0], CollapseNewlines(s[1..]), s[1..], NotNewline);
  }

  lemma KeepsTextRun(s: string)
    requires s != [] && s[0] == '\n'
    requires var n := LeadingRun(s, IsNewline);
      Filter(CollapseNewlines(s[n..]), NotNewline) == Filter(s[n..], NotNewline)
    ensures Filter(CollapseNewlines(s), NotNewline) == Filter(s, NotNewline)
  {
    var n := LeadingRun(s, IsNewline);
    var run := CollapseRun(s);
    DropBothRuns(s, n, run, CollapseNewlines(s[n..]), CollapseNewlines(s));
  }

  /** Replacing one leading run of newlines by another changes nothing once newlines are filtered out. */
  lemma DropBothRuns(s: string, n: nat, run: string, rest: string, r: string)
    requires n <= |s| && forall t | 0 <= t < n :: s[t] == '\n'
    requires forall c <- run :: c == '\n'
    requires r == run + rest && Filter(rest, NotNewline) == Filter(s[n..], NotNewline)
    ensures Filter(r, NotNewline) == Filter(s, NotNewline)
  {
    assert Filter(r, NotNewline) == Filter(rest, NotNewline) by {
      DropNewlineRun(run, rest);
    }
    FilterDropPrefix(s, n, NotNewline);
  }

  /** A leading run of newlines becomes a run of at most two. */
  lemma CollapseRun(s: string) returns (run: string)
    requires s != [] && s[0] == '\n'
    ensures forall c <- run :: c == '\n'
    ensures var n := LeadingRun(s, IsNewline); CollapseNewlines(s) == run + CollapseNewlines(s[n..])
  {
    var n := LeadingRun(s, IsNewline);
    run := if n >= 3 then "\n\n" else s[..n];
  }

  /** A leading run of newlines leaves nothing behind once newlines are filtered out. */
  lemma DropNewlineRun(run: string, rest: string)
    requires forall c <- run :: c == '\n'
    ensures Filter(run + rest, NotNewline) == Filter(rest, NotNewline)
  {
    FilterAppend(run, rest, NotNewline);
    FilterNone(run, NotNewline);
  }

  lemma NoTripleAfterRun(run: string, rest: string)
    requires |run| <= 2 && forall c <- run :: c == '\n'
    requires NoTripleNewline(rest) && (rest == [] || rest[0] != '\n')
    ensures NoTripleNewline(run + rest)
  {
    var s := run + rest;
    forall i | 0 <= i && i + 2 < |s|
      ensures !(s[i] == '\n' && s[i + 1] == '\n' && s[i + 2] == '\n')
    {
      if i < |run| {
        assert i + 2 >= |run|;
        if i + 1 < |run| {
          assert s[i + 2] == rest[0];
        } else {
          assert s[i + 1] == rest[0];
        }
      } else {
        assert s[i] == rest[i - |run|] && s[i + 1] == rest[i + 1 - |run|] && s[i + 2] == rest[i + 2 - |run|];
      }
    }
  }

  /** `normaliseText` (its first replacement maps U+2022 to itself and is left out). */
  function Normalise(value: string): (r: string)
    ensures IsTrimmed(r)
    ensures forall c <- r :: c != '\t' && c != '\r'
    ensures NoTripleNewline(r)
    ensures Filter(r, NotSpace) == Filter(value, NotSpace)
  {
    var untabbed := Untab(value);
    var collapsed := CollapseNewlines(untabbed);
    TrimKeepsNoTriple(collapsed);
    assert Filter(collapsed, NotSpace) == Filter(value, NotSpace) by {
      UntabKeepsText(value);
      CollapseKeepsText(untabbed);
      FilterOfFilter(collapsed, NotSpace, NotNewline);
      FilterOfFilter(untabbed, NotSpace, NotNewline);
    }
    TrimKeepsText(collapsed);
    Trim(collapsed)
  }

  /** Tabs and carriage returns are white space before and after: the rest of the text is unchanged. */
  lemma UntabKeepsText(s: string)
    ensures Filter(Untab(s), NotSpace) == Filter(s, NotSpace)
  {
    FilterPointwise(Untab(s), s, NotSpace);
  }

  /** Trimming removes white space only. */
  lemma TrimKeepsText(s: string)
    ensures Filter(Trim(s), NotSpace) == Filter(s, NotSpace)
  {
    var t := TrimStart(s);
    FilterDropPrefix(s, |s| - |t|, NotSpace);
    FilterDropSuffix(t, |TrimEnd(t)|, NotSpace);
  }

  lemma TrimKeepsNoTriple(s: string)
    requires NoTripleNewline(s)
    ensures NoTripleNewline(Trim(s))
  {
    var r := Trim(s);
    var a := TrimSlice(s);
    assert forall i | 0 <= i < |r| :: r[i] == s[a + i];
  }

  /** Text without three newlines in a row is left alone. */
  lemma {:induction false} CollapseOfCollapsed(s: string)
    requires NoTripleNewline(s)
    ensures CollapseNewlines(s) == s
    decreases |s|
  {
    if s != [] {
      if s[0] != '\n' {
        CollapseOfCollapsed(s[1..]);
        CollapsePlain(s);
        assert s == [s[0]] + s[1..];
      } else {
        var n := LeadingRun(s, IsNewline);
        if |s| >= 3 {
          assert !(s[0] == '\n' && s[1] == '\n' && s[2] == '\n');
        }
        assert n <= 2;
        assert NoTripleNewline(s[n..]) by {
          assert forall i | 0 <= i < |s| - n :: s[n..][i] == s[n + i];
        }
        CollapseOfCollapsed(s[n..]);
        CollapseShortRun(s);
        assert s == s[..n] + s[n..];
      }
    }
  }

  /** A character other than a newline is copied. */
  lemma CollapsePlain(s: string)
    requires s != [] && s[0] != '\n'
    ensures CollapseNewlines(s) == [s[0]] + CollapseNewlines(s[1..])
  {
  }

  /** A run of one or two newlines is copied. */
  lemma CollapseShortRun(s: string)
    requires s != [] && s[0] == '\n' && LeadingRun(s, IsNewline) < 3
    ensures var n := LeadingRun(s, IsNewline); CollapseNewlines(s) == s[..n] + CollapseNewlines(s[n..])
  {
  }

  /** `k` newlines in a row. */
  function Newlines(k: nat): string
  {
    seq(k, _ => '\n')
  }

  /** What a run of `k` newlines becomes: two newlines when `k` is three or more, the run itself otherwise. */
  function CollapsedRun(k: nat): (r: string)
    ensures r == Newlines(if k >= 3 then 2 else k)
  {
    if k >= 3 then "\n\n" else Newlines(k)
  }

  /** A text starting with a run of newlines: the collapsed run, then the rest collapsed. */
  lemma CollapseLeading(s: string, n: nat)
    requires s != [] && s[0] == '\n' && n == LeadingRun(s, IsNewline)
    ensures CollapseNewlines(s) == CollapsedRun(n) + CollapseNewlines(s[n..])
  {
    assert n < 3 ==> s[..n] == Newlines(n);
  }

  /** Text that does not end in a newline collapses independently of what follows it. */
  lemma {:induction false} CollapseAppend(u: string, w: string)
    requires u == [] || u[|u| - 1] != '\n'
    ensures CollapseNewlines(u + w) == CollapseNewlines(u) + CollapseNewlines(w)
    decreases |u|, 1
  {
    if u == [] {
      assert u + w == w;
    } else if u[0] != '\n' {
      CollapseAppendPlain(u, w);
    } else {
      CollapseAppendRun(u, w);
    }
  }

  lemma {:induction false} CollapseAppendPlain(u: string, w: string)
    requires u != [] && u[0] != '\n' && u[|u| - 1] != '\n'
    ensures CollapseNewlines(u + w) == CollapseNewlines(u) + CollapseNewlines(w)
    decreases |u|, 0
  {
    var s := u + w;
    assert s[0] == u[0] && s[1..] == u[1..] + w;
    CollapseAppend(u[1..], w);
    CollapsePlain(s);
    CollapsePlain(u);
  }

  lemma {:induction false} CollapseAppendRun(u: string, w: string)
    requires u != [] && u[0] == '\n' && u[|u| - 1] != '\n'
    ensures CollapseNewlines(u + w) == CollapseNewlines(u) + CollapseNewlines(w)
    decreases |u|, 0
  {
    var s := u + w;
    var n := LeadingRun(u, IsNewline);
    assert 0 < n < |u|;
    var t := u[n..];
    assert t[|t| - 1] == u[|u| - 1];
    assert s[n..] == t + w && s == u[..n] + (t + w);
    assert LeadingRun(s, IsNewline) == n by {
      RunOverGap(u[..n], t + w, IsNewline);
    }
    calc {
      CollapseNewlines(s);
      { CollapseLeading(s, n); }
      CollapsedRun(n) + CollapseNewlines(t + w);
      { CollapseAppend(t, w); }
      CollapsedRun(n) + (CollapseNewlines(t) + CollapseNewlines(w));
      { CollapseLeading(u, n); }
      CollapseNewlines(u) + CollapseNewlines(w);
    }
  }

  /** A leading run of `k` newlines becomes two newlines when `k` is three or more, and is kept otherwise. */
  lemma CollapseLeadingRun(k: nat, v: string)
    requires v == [] || v[0] != '\n'
    ensures CollapseNewlines(Newlines(k) + v) == CollapsedRun(k) + CollapseNewlines(v)
  {
    var s := Newlines(k) + v;
    if k == 0 {
      assert s == v;
    } else {
      assert s[0] == '\n';
      RunOverGap(Newlines(k), v, IsNewline);
      assert s[..k] == Newlines(k) && s[k..] == v;
    }
  }

  /**
   * `.replace(/\n{3,}/g, "\n\n")` on one run: between text that does not end
   * and text that does not start with a newline, a run of three or more
   * newlines becomes exactly two, a shorter run stays, and the text on either
   * side collapses on its own.
   */
  lemma CollapseRunBetween(u: string, k: nat, v: string)
    requires u == [] || u[|u| - 1] != '\n'
    requires v == [] || v[0] != '\n'
    ensures CollapseNewlines(u + Newlines(k) + v)
      == CollapseNewlines(u) + CollapsedRun(k) + CollapseNewlines(v)
  {
    var rest := Newlines(k) + v;
    calc {
      CollapseNewlines(u + Newlines(k) + v);
      { assert u + Newlines(k) + v == u + rest; }
      CollapseNewlines(u + rest);
      { CollapseAppend(u, rest); }
      CollapseNewlines(u) + CollapseNewlines(rest);
      { CollapseLeadingRun(k, v); }
      CollapseNewlines(u) + (CollapsedRun(k) + CollapseNewlines(v));
    }
  }

  lemma UntabOfUntabbed(s: string)
    requires forall c <- s :: c != '\t' && c != '\r'
    ensures Untab(s) == s
  {
    assert forall i | 0 <= i < |s| :: s[i] in s;
  }

  /** Normalising twice is normalising once. */
  lemma NormaliseIdempotent(value: string)
    ensures Normalise(Normalise(value)) == Normalise(value)
  {
    var r := Normalise(value);
    UntabOfUntabbed(r);
    CollapseOfCollapsed(r);
    TrimOfTrimmed(r);
  }

  /**
   * `text.split(/\r?\n/).map((line) => line.trim()).filter(Boolean)`. Splitting
   * at '\n' alone gives the same lines: a carriage return left at the end of
   * a piece is white space, which the trim removes.
   */
  function Lines(text: string): (r: seq<string>)
    ensures forall l <- r :: l != [] && IsTrimmed(l) && forall c <- l :: c != '\n' && c in text
  {
    var pieces := Split(text, IsNewline);
    var trimmed := TrimAll(pieces);
    assert forall i | 0 <= i < |trimmed| :: forall c <- trimmed[i] :: c in pieces[i];
    Filter(trimmed, NonEmpty)
  }

  /** Non-blank, trimmed lines joined with newlines split back into the same lines. */
  lemma LinesOfJoin(ls: seq<string>)
    requires forall l <- ls :: l != [] && IsTrimmed(l) && forall c <- l :: c != '\n'
    ensures Lines(Join(ls, "\n")) == ls
  {
    if ls == [] {
      assert Split([], IsNewline) == [[]];
      assert TrimAll([[]]) == [[]];
      assert Filter([[]], NonEmpty) == [] + Filter([], NonEmpty);
    } else {
      assert Split(Join(ls, "\n"), IsNewline) == ls by {
        SplitJoin(ls, '\n', IsNewline);
      }
      assert TrimAll(ls) == ls by {
        forall i | 0 <= i < |ls|
          ensures Trim(ls[i]) == ls[i]
        {
          TrimOfTrimmed(ls[i]);
        }
      }
      FilterAll(ls, NonEmpty);
    }
  }

  lemma LinesOfEmpty()
    ensures Lines([]) == []
  {
    assert Split([], IsNewline) == [[]];
    assert TrimAll([[]]) == [[]];
    assert Filter([[]], NonEmpty) == [] + Filter([], NonEmpty);
  }

  /** The lines on either side of a newline, end to end. */
  lemma LinesAppend(a: string, b: string)
    ensures Lines(a + "\n" + b) == Lines(a) + Lines(b)
  {
    var pa, pb := Split(a, IsNewline), Split(b, IsNewline);
    assert Split(a + "\n" + b, IsNewline) == pa + pb by {
      SplitAppendSep(a, '\n', b, IsNewline);
    }
    assert TrimAll(pa + pb) == TrimAll(pa) + TrimAll(pb);
    FilterAppend(TrimAll(pa), TrimAll(pb), NonEmpty);
  }

  /** A run of newlines between two texts only separates their lines: blank lines are dropped. */
  lemma LinesAroundNewlines(a: string, k: nat, b: string)
    requires k >= 1
    ensures Lines(a + Newlines(k) + b) == Lines(a) + Lines(b)
  {
    var rest := Newlines(k - 1) + b;
    calc {
      Lines(a + Newlines(k) + b);
      { assert Newlines(k) == "\n" + Newlines(k - 1);
        assert a + Newlines(k) + b == a + "\n" + rest; }
      Lines(a + "\n" + rest);
      { LinesAppend(a, rest); }
      Lines(a) + Lines(rest);
      { LinesAfterNewlines(k - 1, b); }
      Lines(a) + Lines(b);
    }
  }

  /** Newlines in front of a text add no line. */
  lemma {:induction false} LinesAfterNewlines(k: nat, b: string)
    ensures Lines(Newlines(k) + b) == Lines(b)
    decreases k
  {
    if k == 0 {
      assert Newlines(0) + b == b;
    } else {
      var rest := Newlines(k - 1) + b;
      calc {
        Lines(Newlines(k) + b);
        { assert Newlines(k) == "\n" + Newlines(k - 1);
          assert Newlines(k) + b == [] + "\n" + rest; }
        Lines([] + "\n" + rest);
        { LinesAppend([], rest); LinesOfEmpty(); }
        Lines(rest);
        { LinesAfterNewlines(k - 1, b); }
        Lines(b);
      }
    }
  }

  /** Text with a newline splits at its first run of newlines. */
  lemma FirstNewlines(x: string) returns (u: string, k: nat, v: string)
    requires LeadingRun(x, NotNewline) < |x|
    ensures x == u + Newlines(k) + v && k >= 1 && |v| < |x|
    ensures forall j | 0 <= j < |u| :: u[j] != '\n'
    ensures v == [] || v[0] != '\n'
  {
    var i := LeadingRun(x, NotNewline);
    var t := x[i..];
    assert t[0] == '\n' && x == x[..i] + t;
    k := LeadingRun(t, IsNewline);
    u, v := x[..i], t[k..];
    assert forall j | 0 <= j < |u| :: u[j] == x[j] && NotNewline(x[j]);
    assert k == |t| || !IsNewline(t[k]);
    assert t == Newlines(k) + v by {
      assert forall j | 0 <= j < k :: IsNewline(t[j]);
    }
  }

  /** Collapsing runs of newlines keeps the lines. */
  lemma {:induction false} LinesOfCollapse(x: string)
    ensures Lines(CollapseNewlines(x)) == Lines(x)
    decreases |x|
  {
    if LeadingRun(x, NotNewline) == |x| {
      CollapseOfCollapsed(x);
    } else {
      var u, k, v := FirstNewlines(x);
      var j := if k >= 3 then 2 else k;
      assert u == [] || u[|u| - 1] != '\n';
      calc {
        Lines(CollapseNewlines(x));
        { CollapseRunBetween(u, k, v); }
        Lines(CollapseNewlines(u) + Newlines(j) + CollapseNewlines(v));
        { CollapseOfCollapsed(u); }
        Lines(u + Newlines(j) + CollapseNewlines(v));
        { LinesAroundNewlines(u, j, CollapseNewlines(v)); }
        Lines(u) + Lines(CollapseNewlines(v));
        { LinesOfCollapse(v); }
        Lines(u) + Lines(v);
        { LinesAroundNewlines(u, k, v); }
        Lines(x);
      }
    }
  }

  /** The lines of a text from the pieces of its split. */
  lemma LinesOfSplit(text: string, pieces: seq<string>)
    requires pieces == Split(text, IsNewline)
    ensures Lines(text) == Filter(TrimAll(pieces), NonEmpty)
  {
  }

  /** Pieces that differ at most at position `k`, where they trim alike. */
  lemma TrimAllAlike(p: seq<string>, q: seq<string>, k: nat)
    requires |p| == |q| && k < |p| && Trim(p[k]) == Trim(q[k])
    requires p[..k] == q[..k] && p[k + 1..] == q[k + 1..]
    ensures TrimAll(p) == TrimAll(q)
  {
    forall i | 0 <= i < |p|
      ensures Trim(p[i]) == Trim(q[i])
    {
      if i < k {
        assert p[i] == p[..k][i] && q[i] == q[..k][i];
      } else if i > k {
        assert p[i] == p[k + 1..][i - k - 1] && q[i] == q[k + 1..][i - k - 1];
      }
    }
  }

  /** White space in front of the text changes no line. */
  lemma LinesConsSpace(c: char, z: string)
    requires IsSpace(c)
    ensures Lines([c] + z) == Lines(z)
  {
    if c == '\n' {
      assert [c] + z == [] + "\n" + z;
      LinesAppend([], z);
      LinesOfEmpty();
    } else {
      LinesConsBlank(c, z);
    }
  }

  lemma LinesConsBlank(c: char, z: string)
    requires IsSpace(c) && c != '\n'
    ensures Lines([c] + z) == Lines(z)
  {
    var p := Split(z, IsNewline);
    var q := Split([c] + z, IsNewline);
    assert |q| == |p| && q[0] == [c] + p[0] && q[1..] == p[1..] by {
      SplitCons(c, z, IsNewline);
    }
    assert Trim(q[0]) == Trim(p[0]) by {
      TrimConsSpace(c, p[0]);
    }
    LinesAlikeFirst([c] + z, z, q, p);
  }

  lemma LinesAlikeFirst(s: string, t: string, p: seq<string>, q: seq<string>)
    requires p == Split(s, IsNewline) && q == Split(t, IsNewline)
    requires |p| == |q| && 0 < |p| && Trim(p[0]) == Trim(q[0]) && p[1..] == q[1..]
    ensures Lines(s) == Lines(t)
  {
    assert p[..0] == [] == q[..0];
    LinesAlike(s, t, p, q, 0);
  }

  /** White space behind the text changes no line. */
  lemma LinesSnocSpace(z: string, c: char)
    requires IsSpace(c)
    ensures Lines(z + [c]) == Lines(z)
  {
    if c == '\n' {
      assert z + [c] == z + "\n" + [];
      LinesAppend(z, []);
      LinesOfEmpty();
    } else {
      LinesSnocBlank(z, c);
    }
  }

  lemma LinesSnocBlank(z: string, c: char)
    requires IsSpace(c) && c != '\n'
    ensures Lines(z + [c]) == Lines(z)
  {
    var p := Split(z, IsNewline);
    var n := |p|;
    var q := Split(z + [c], IsNewline);
    assert |q| == n && q[..n - 1] == p[..n - 1] && q[n - 1] == p[n - 1] + [c] by {
      SplitSnoc(z, c, IsNewline);
    }
    assert q[n..] == [] == p[n..];
    assert Trim(q[n - 1]) == Trim(p[n - 1]) by {
      TrimSnocSpace(p[n - 1], c);
    }
    LinesAlike(z + [c], z, q, p, n - 1);
  }

  /** Texts whose pieces differ at most at one position, where they trim alike, have the same lines. */
  lemma LinesAlike(s: string, t: string, p: seq<string>, q: seq<string>, k: nat)
    requires p == Split(s, IsNewline) && q == Split(t, IsNewline)
    requires |p| == |q| && k < |p| && Trim(p[k]) == Trim(q[k])
    requires p[..k] == q[..k] && p[k + 1..] == q[k + 1..]
    ensures Lines(s) == Lines(t)
  {
    TrimAllAlike(p, q, k);
    LinesOfSplit(s, p);
    LinesOfSplit(t, q);
  }

  lemma {:induction false} LinesOfTrimStart(s: string)
    ensures Lines(TrimStart(s)) == Lines(s)
    decreases |s|
  {
    if s != [] && IsSpace(s[0]) {
      var c, t := s[0], s[1..];
      assert s == [c] + t;
      LinesOfTrimStart(t);
      LinesConsSpace(c, t);
    }
  }

  lemma {:induction false} LinesOfTrimEnd(s: string)
    ensures Lines(TrimEnd(s)) == Lines(s)
    decreases |s|
  {
    if s != [] && IsSpace(s[|s| - 1]) {
      var t, c := s[..|s| - 1], s[|s| - 1];
      assert s == t + [c];
      LinesOfTrimEnd(t);
      LinesSnocSpace(t, c);
    }
  }

  /** Trimming the whole text keeps the lines: each line is trimmed anyway. */
  lemma LinesOfTrim(s: string)
    ensures Lines(Trim(s)) == Lines(s)
  {
    LinesOfTrimStart(s);
    LinesOfTrimEnd(TrimStart(s));
  }

  /**
   * Normalising keeps every line of the text (once tabs and carriage returns
   * are replaced): collapsing runs of newlines and trimming drop blank lines only.
   */
  lemma NormaliseKeepsLines(value: string)
    ensures Lines(Normalise(value)) == Lines(Untab(value))
  {
    var untabbed := Untab(value);
    LinesOfCollapse(untabbed);
    LinesOfTrim(CollapseNewlines(untabbed));
  }

  /** Two lines with `k` newlines between them normalise to the lines with at most one blank line between. */
  lemma NormaliseOfBlankLines(a: string, k: nat, b: string)
    requires a != [] && b != [] && IsTrimmed(a) && IsTrimmed(b)
    requires forall c <- a + b :: c != '\n' && c != '\t' && c != '\r'
    ensures Normalise(a + Newlines(k) + b) == a + CollapsedRun(k) + b
  {
    var x := a + Newlines(k) + b;
    var r := a + CollapsedRun(k) + b;
    assert forall i | 0 <= i < |a| :: a[i] != '\n' by {
      forall i | 0 <= i < |a| ensures a[i] != '\n' { assert a[i] in a + b; }
    }
    assert forall i | 0 <= i < |b| :: b[i] != '\n' by {
      forall i | 0 <= i < |b| ensures b[i] != '\n' { assert b[i] in a + b; }
    }
    assert Untab(x) == x by {
      forall c | c in x ensures c != '\t' && c != '\r' {
        assert c in a + b || c in Newlines(k);
      }
      UntabOfUntabbed(x);
    }
    assert r[0] == a[0] && r[|r| - 1] == b[|b| - 1];
    calc {
      Normalise(x);
      Trim(CollapseNewlines(Untab(x)));
      Trim(CollapseNewlines(x));
      { CollapseRunBetween(a, k, b); }
      Trim(CollapseNewlines(a) + CollapsedRun(k) + CollapseNewlines(b));
      { CollapseOfCollapsed(a); CollapseOfCollapsed(b); }
      Trim(r);
      { TrimOfTrimmed(r); }
      r;
    }
  }

  /*
   * extractSkills
   */

  /** The separators of `/[,;\n]/`. */
  predicate IsSkillSeparator(c: char) { c == ',' || c == ';' || c == '\n' }

  /** What `/[^a-z0-9.+# ]/gi` leaves in place; with the `i` flag upper-case letters stay too. */
  predicate IsSkillChar(c: char) { IsAsciiLetter(c) || IsDigit(c) || c == '.' || c == '+' || c == '#' || c == ' ' }

  /** The characters a returned skill is made of: `[a-z0-9.+# ]`. */
  predicate IsLowerSkillChar(c: char) { 'a' <= c <= 'z' || IsDigit(c) || c == '.' || c == '+' || c == '#' || c == ' ' }

  /** `token.trim().toLowerCase()` for each token. */
  function LowerTokens(pieces: seq<string>): (r: seq<string>)
    ensures |r| == |pieces| && forall i | 0 <= i < |r| :: r[i] == Lower(Trim(pieces[i]))
  {
    seq(|pieces|, i requires 0 <= i < |pieces| => Lower(Trim(pieces[i])))
  }

  predicate IsLongToken(t: string) { |t| > 1 }

  /** `token.replace(/[^a-z0-9.+# ]/gi, "")` for each token. */
  function CleanTokens(tokens: seq<string>): (r: seq<string>)
    ensures |r| == |tokens| && forall i | 0 <= i < |r| :: r[i] == Filter(tokens[i], IsSkillChar)
  {
    seq(|tokens|, i requires 0 <= i < |tokens| => Filter(tokens[i], IsSkillChar))
  }

  /** The tokens of the joined skill lines, trimmed and lower-cased: no upper-case letter is left. */
  function SkillTokens(skillLines: seq<string>): (r: seq<string>)
    ensures forall t <- r, c <- t :: !('A' <= c <= 'Z')
  {
    var tokens := LowerTokens(Split(Join(skillLines, " "), IsSkillSeparator));
    assert forall i | 0 <= i < |tokens| :: forall c <- tokens[i] :: !('A' <= c <= 'Z');
    tokens
  }

  /** Cleaning tokens without upper-case letters leaves only `[a-z0-9.+# ]`. */
  function CleanLowerTokens(tokens: seq<string>): (r: seq<string>)
    requires forall t <- tokens, c <- t :: !('A' <= c <= 'Z')
    ensures forall t <- r, c <- t :: IsLowerSkillChar(c)
  {
    var cleaned := CleanTokens(tokens);
    assert forall i | 0 <= i < |cleaned| :: tokens[i] in tokens && forall c <- cleaned[i] :: c in tokens[i] && IsSkillChar(c);
    cleaned
  }

  /** `extractSkills`: the skill lines joined, split at commas, semicolons and newlines, lower-cased and cleaned. */
  function ExtractSkills(skillLines: seq<string>): (r: seq<string>)
    ensures skillLines == [] ==> r == []
    ensures forall skill <- r :: skill != [] && forall c <- skill :: IsLowerSkillChar(c)
  {
    if skillLines == [] then []
    else
      var tokens := SkillTokens(skillLines);
      var long := Filter(tokens, IsLongToken);
      Filter(CleanLowerTokens(long), NonEmpty)
  }

  /** A skill as a user would write it in a list: two characters or more, trimmed, none of them stripped or a separator. */
  predicate IsListedSkill(skill: string)
  {
    |skill| > 1 && IsTrimmed(skill) && forall c <- skill :: IsSkillChar(c)
  }

  /** Each piece behind a space, as splitting `a, b, c` at the commas leaves all but the first. */
  function Pad(skills: seq<string>): (r: seq<string>)
    ensures |r| == |skills| && forall i | 0 <= i < |r| :: r[i] == [' '] + skills[i]
  {
    seq(|skills|, i requires 0 <= i < |skills| => [' '] + skills[i])
  }

  /**
   * A list of skills written `Python, Go, Rust` on one line is read back as
   * those skills, lower-cased and in order.
   */
  lemma SkillsOfList(skills: seq<string>)
    requires skills != [] && forall skill <- skills :: IsListedSkill(skill)
    ensures var r := ExtractSkills([Join(skills, ", ")]);
      |r| == |skills| && forall i | 0 <= i < |skills| :: r[i] == Lower(skills[i])
  {
    var line := Join(skills, ", ");
    var pieces := [skills[0]] + Pad(skills[1..]);
    var lowered := seq(|skills|, i requires 0 <= i < |skills| => Lower(skills[i]));
    assert SkillTokens([line]) == lowered by {
      assert Join([line], " ") == line;
      assert Split(line, IsSkillSeparator) == pieces by {
        ListPieces(skills);
        assert forall piece <- pieces, c <- piece :: !IsSkillSeparator(c) by {
          ListPiecesClean(skills, pieces);
        }
        SplitJoin(pieces, ',', IsSkillSeparator);
      }
      PiecesTrim(skills, pieces);
      ListTokens(skills, pieces, lowered);
    }
    LoweredSkills(skills, lowered);
    ExtractOfTokens([line], lowered);
  }

  /** Tokens that are long enough and hold nothing to strip are the extracted skills as they are. */
  lemma ExtractOfTokens(skillLines: seq<string>, tokens: seq<string>)
    requires skillLines != [] && SkillTokens(skillLines) == tokens
    requires forall t <- tokens :: |t| > 1 && forall c <- t :: IsSkillChar(c)
    ensures ExtractSkills(skillLines) == tokens
  {
    FilterAll(tokens, IsLongToken);
    assert CleanTokens(tokens) == tokens by {
      forall i | 0 <= i < |tokens|
        ensures Filter(tokens[i], IsSkillChar) == tokens[i]
      {
        assert tokens[i] in tokens;
        FilterAll(tokens[i], IsSkillChar);
      }
    }
    FilterAll(tokens, NonEmpty);
  }

  /** Joining with `, ` is joining the padded pieces with `,`. */
  lemma ListPieces(skills: seq<string>)
    requires skills != []
    ensures Join(skills, ", ") == Join([skills[0]] + Pad(skills[1..]), [','])
  {
    var pieces := [skills[0]] + Pad(skills[1..]);
    if |skills| > 1 {
      var rest := Join(skills[1..], ", ");
      assert Join(pieces, [',']) == skills[0] + [','] + ([' '] + rest) by {
        assert pieces[1..] == Pad(skills[1..]);
        JoinPad(skills[1..]);
      }
      assert Join(skills, ", ") == skills[0] + ", " + rest;
      CommaSpace(skills[0], rest);
    } else {
      assert pieces == [skills[0]];
    }
  }

  lemma CommaSpace(a: string, b: string)
    ensures a + ", " + b == a + [','] + ([' '] + b)
  {
  }

  lemma {:induction false} JoinPad(t: seq<string>)
    requires t != []
    ensures Join(Pad(t), [',']) == [' '] + Join(t, ", ")
  {
    if |t| > 1 {
      JoinPad(t[1..]);
      assert Pad(t)[1..] == Pad(t[1..]);
      assert Join(Pad(t), [',']) == ([' '] + t[0]) + [','] + Join(Pad(t[1..]), [',']);
    }
  }

  lemma ListPiecesClean(skills: seq<string>, pieces: seq<string>)
    requires skills != [] && forall skill <- skills :: IsListedSkill(skill)
    requires pieces == [skills[0]] + Pad(skills[1..])
    ensures forall piece <- pieces, c <- piece :: !IsSkillSeparator(c)
  {
    forall i | 0 <= i < |pieces|
      ensures forall c <- pieces[i] :: !IsSkillSeparator(c)
    {
      assert skills[i] in skills;
      if i > 0 {
        assert pieces[i] == [' '] + skills[i];
      }
    }
  }

  lemma ListTokens(skills: seq<string>, pieces: seq<string>, lowered: seq<string>)
    requires |pieces| == |skills| && forall i | 0 <= i < |skills| :: Trim(pieces[i]) == skills[i]
    requires |lowered| == |skills| && forall i | 0 <= i < |skills| :: lowered[i] == Lower(skills[i])
    ensures LowerTokens(pieces) == lowered
  {
  }

  lemma PiecesTrim(skills: seq<string>, pieces: seq<string>)
    requires skills != [] && forall skill <- skills :: IsListedSkill(skill)
    requires pieces == [skills[0]] + Pad(skills[1..])
    ensures |pieces| == |skills| && forall i | 0 <= i < |skills| :: Trim(pieces[i]) == skills[i]
  {
    forall i | 0 <= i < |skills|
      ensures Trim(pieces[i]) == skills[i]
    {
      assert skills[i] in skills;
      PieceTrim(skills[i], pieces[i], i == 0);
    }
  }

  /** A piece is its skill, behind a space unless it comes first. */
  lemma PieceTrim(skill: string, piece: string, first: bool)
    requires IsListedSkill(skill)
    requires piece == if first then skill else [' '] + skill
    ensures Trim(piece) == skill
  {
    if first {
      TrimOfTrimmed(skill);
    } else {
      TrimSpaceBefore(skill);
    }
  }

  lemma LoweredSkills(skills: seq<string>, lowered: seq<string>)
    requires forall skill <- skills :: IsListedSkill(skill)
    requires |lowered| == |skills| && forall i | 0 <= i < |skills| :: lowered[i] == Lower(skills[i])
    ensures forall t <- lowered :: |t| > 1 && forall c <- t :: IsSkillChar(c)
  {
    forall i | 0 <= i < |lowered|
      ensures |lowered[i]| > 1 && forall c <- lowered[i] :: IsSkillChar(c)
    {
      assert skills[i] in skills;
      assert forall k | 0 <= k < |skills[i]| :: skills[i][k] in skills[i];
    }
  }

  /*
   * parseResumeText
   */

  /** The trimmed, non-empty lines of the normalised text. */
  function ResumeLines(rawText: string): seq<string>
  {
    Lines(Normalise(rawText))
  }

  /** The section record of the text. */
  function ResumeSections(rawText: string): map<string, seq<string>>
  {
    SectionsOf(ResumeLines(rawText), DetectHeading)
  }

  /** `sections[key]`, `undefined` when the key is absent. */
  function Lookup(sections: map<string, seq<string>>, key: string): (r: Option<seq<string>>)
    ensures r.Some? <==> key in sections
  {
    if key in sections then Some(sections[key]) else None
  }

  /** `parseResumeText`: every stage in turn; it is total and always yields a record. */
  method ParseResumeText(rawText: string, h: Heuristics) returns (resume: ResumeJson)
    ensures resume.contact == ContactOf(Take(ResumeLines(rawText), HeaderLength), h)
    ensures resume.summary == match Lookup(ResumeSections(rawText), "summary")
      case Some(body) => Join(body, " ")
      case None => ""
    ensures resume.skills == ExtractSkills(Lookup(ResumeSections(rawText), "skills").GetOr([]))
    ensures resume.experience == ExperienceOf(Lookup(ResumeSections(rawText), "experience").GetOr([]), h)
    ensures resume.education == EducationOf(Lookup(ResumeSections(rawText), "education").GetOr([]))
    ensures forall key <- resume.extras ::
      && key !in ParsedKeys
      && resume.extras[key] != []
      && Lookup(ResumeSections(rawText), key) == Some(resume.extras[key])
    ensures forall key <- ResumeSections(rawText) :: key !in ParsedKeys && ResumeSections(rawText)[key] != [] ==> key in resume.extras
    ensures forall key <- resume.extras, l <- resume.extras[key] :: DetectHeading(l).None?
  {
    var text := Normalise(rawText);
    var lines := Lines(text);
    var contact := ExtractContact(lines, h);
    var sections := SplitIntoSections(lines);
    var summaryLines := Lookup(sections, "summary");
    var summary := if summaryLines.Some? then Join(summaryLines.value, " ") else "";
    var skills := ExtractSkills(Lookup(sections, "skills").GetOr([]));
    var experience := ExtractExperience(Lookup(sections, "experience"), h);
    var education := ExtractEducation(Lookup(sections, "education"));
    var extras := ExtractExtras(sections);
    resume := ResumeJson(contact, summary, skills, experience, education, extras);
  }
}
