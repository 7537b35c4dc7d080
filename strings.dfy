/** The JavaScript string operations the parser and matcher use, on `seq<char>`. */
module Strings {
  import opened Wrappers

  /** JavaScript white space: what `\s` matches and what `String.prototype.trim` removes. */
  predicate IsSpace(c: char)
  {
    || c == ' ' || c == '\t' || c == '\n' || c == '\r' || c == '\U{B}' || c == '\U{C}'
    || c == '\U{A0}' || c == '\U{1680}' || ('\U{2000}' <= c <= '\U{200A}')
    || c == '\U{2028}' || c == '\U{2029}' || c == '\U{202F}' || c == '\U{205F}'
    || c == '\U{3000}' || c == '\U{FEFF}'
  }

  predicate IsDigit(c: char) { '0' <= c <= '9' }

  predicate IsAsciiLetter(c: char) { 'a' <= c <= 'z' || 'A' <= c <= 'Z' }

  /** A character of the regular-expression class `\w`, which decides where `\b` holds. */
  predicate IsWordChar(c: char) { IsAsciiLetter(c) || IsDigit(c) || c == '_' }

  predicate IsTrimmed(s: string)
  {
    s == [] || (!IsSpace(s[0]) && !IsSpace(s[|s| - 1]))
  }

  function TrimStart(s: string): (r: string)
    ensures |r| <= |s| && r == s[|s| - |r|..]
    ensures r == [] || !IsSpace(r[0])
    ensures forall i | 0 <= i < |s| - |r| :: IsSpace(s[i])
  {
    if s != [] && IsSpace(s[0]) then TrimStart(s[1..]) else s
  }

  function TrimEnd(s: string): (r: string)
    ensures |r| <= |s| && r == s[..|r|]
    ensures r == [] || !IsSpace(r[|r| - 1])
    ensures forall i | |r| <= i < |s| :: IsSpace(s[i])
  {
    if s != [] && IsSpace(s[|s| - 1]) then TrimEnd(s[..|s| - 1]) else s
  }

  /** `s.trim()`: a substring of `s` with neither end white space, empty exactly when `s` is blank. */
  function Trim(s: string): (r: string)
    ensures IsTrimmed(r)
    ensures |r| <= |s|
    ensures forall c <- r :: c in s
    ensures r == [] <==> forall c <- s :: IsSpace(c)
  {
    var t := TrimStart(s);
    var r := TrimEnd(t);
    TrimEndsClean(t);
    assert forall c <- r :: c in t;
    assert r == [] ==> t == [];
    r
  }

  /** Trimming the end of a string whose start is trimmed leaves both ends trimmed. */
  lemma TrimEndsClean(t: string)
    requires t == [] || !IsSpace(t[0])
    ensures IsTrimmed(TrimEnd(t))
  {
    var r := TrimEnd(t);
    if r != [] {
      assert r[0] == t[0];
    }
  }

  /** A space after a trimmed, non-empty string is all that trimming removes. */
  lemma TrimSpaceAfter(x: string)
    requires x != [] && IsTrimmed(x)
    ensures Trim(x + [' ']) == x
  {
    var s := x + [' '];
    assert TrimStart(s) == s by {
      assert s[0] == x[0];
      TrimStartOfClean(s);
    }
    assert TrimEnd(s) == x by {
      TrimEndSpace(x);
      TrimEndOfClean(x);
    }
  }

  lemma TrimStartOfClean(s: string)
    requires s != [] && !IsSpace(s[0])
    ensures TrimStart(s) == s
  {
  }

  lemma TrimEndSpace(x: string)
    ensures TrimEnd(x + [' ']) == TrimEnd(x)
  {
    TrimEndSnocSpace(x, ' ');
  }

  lemma TrimEndSnocSpace(x: string, c: char)
    requires IsSpace(c)
    ensures TrimEnd(x + [c]) == TrimEnd(x)
  {
    assert (x + [c])[..|x|] == x;
  }

  /** White space in front of a string is trimmed away. */
  lemma TrimConsSpace(c: char, w: string)
    requires IsSpace(c)
    ensures Trim([c] + w) == Trim(w)
  {
    assert ([c] + w)[1..] == w;
  }

  /** White space behind a string is trimmed away. */
  lemma TrimSnocSpace(w: string, c: char)
    requires IsSpace(c)
    ensures Trim(w + [c]) == Trim(w)
  {
    if forall x <- w :: IsSpace(x) {
      assert forall x <- w + [c] :: IsSpace(x);
    } else {
      TrimStartSnoc(w, c);
      TrimEndSnocSpace(TrimStart(w), c);
    }
  }

  lemma {:induction false} TrimStartSnoc(w: string, c: char)
    requires exists x <- w :: !IsSpace(x)
    ensures TrimStart(w + [c]) == TrimStart(w) + [c]
    decreases |w|
  {
    var s := w + [c];
    assert s[0] == w[0] && s[1..] == w[1..] + [c];
    if IsSpace(w[0]) {
      assert exists x <- w[1..] :: !IsSpace(x) by {
        var x :| x in w && !IsSpace(x);
        var i :| 0 <= i < |w| && w[i] == x;
        assert i > 0 && w[1..][i - 1] == x;
      }
      TrimStartSnoc(w[1..], c);
    }
  }

  lemma TrimEndOfClean(x: string)
    requires x != [] && !IsSpace(x[|x| - 1])
    ensures TrimEnd(x) == x
  {
  }

  /** A space before a trimmed, non-empty string is all that trimming removes. */
  lemma TrimSpaceBefore(x: string)
    requires x != [] && IsTrimmed(x)
    ensures Trim([' '] + x) == x
  {
    var s := [' '] + x;
    assert TrimStart(s) == x by {
      assert s[1..] == x;
    }
    TrimOfTrimmed(x);
  }

  /** The trimmed string is a contiguous slice of the original. */
  lemma TrimSlice(s: string) returns (a: nat)
    ensures a + |Trim(s)| <= |s| && Trim(s) == s[a..a + |Trim(s)|]
  {
    var t := TrimStart(s);
    a := |s| - |t|;
    assert t == s[a..];
  }

  lemma TrimOfTrimmed(s: string)
    requires IsTrimmed(s)
    ensures Trim(s) == s
  {
  }

  lemma TrimIdempotent(s: string)
    ensures Trim(Trim(s)) == Trim(s)
  {
    TrimOfTrimmed(Trim(s));
  }

  /** The length of the longest prefix of `s` whose characters all satisfy `p` (a greedy `[…]*`). */
  function LeadingRun(s: string, p: char -> bool): (n: nat)
    ensures n <= |s|
    ensures forall t | 0 <= t < n :: p(s[t])
    ensures n == |s| || !p(s[n])
  {
    if s == [] || !p(s[0]) then 0 else 1 + LeadingRun(s[1..], p)
  }

  /** `pieces.map((p) => p.trim())` */
  function TrimAll(pieces: seq<string>): (r: seq<string>)
    ensures |r| == |pieces|
    ensures forall i | 0 <= i < |r| :: r[i] == Trim(pieces[i])
  {
    seq(|pieces|, i requires 0 <= i < |pieces| => Trim(pieces[i]))
  }

  predicate NonEmpty(s: string) { s != [] }

  /** ASCII lower case (`toLowerCase` on the characters A to Z). */
  function LowerChar(c: char): (r: char)
    ensures !('A' <= r <= 'Z')
    ensures !('A' <= c <= 'Z') ==> r == c
  {
    if 'A' <= c <= 'Z' then (c as int + 32) as char else c
  }

  function Lower(s: string): (r: string)
    ensures |r| == |s| && forall i | 0 <= i < |s| :: r[i] == LowerChar(s[i])
  {
    seq(|s|, i requires 0 <= i < |s| => LowerChar(s[i]))
  }

  lemma LowerOfLower(s: string)
    requires forall c <- s :: !('A' <= c <= 'Z')
    ensures Lower(s) == s
  {
    assert forall i | 0 <= i < |s| :: s[i] in s;
  }

  /** `s.split(re)` where `re` matches exactly one character, the ones `isSep` accepts. */
  function Split(s: string, isSep: char -> bool): (r: seq<string>)
    ensures |r| >= 1
    ensures forall piece <- r, c <- piece :: !isSep(c) && c in s
  {
    if s == [] then [[]]
    else
      var rest := Split(s[1..], isSep);
      if isSep(s[0]) then [[]] + rest else [[s[0]] + rest[0]] + rest[1..]
  }

  /** A separator between two strings splits them apart: the pieces of each, end to end. */
  lemma {:induction false} SplitAppendSep(a: string, sep: char, b: string, isSep: char -> bool)
    requires isSep(sep)
    ensures Split(a + [sep] + b, isSep) == Split(a, isSep) + Split(b, isSep)
    decreases |a|
  {
    var s := a + [sep] + b;
    if a == [] {
      assert s[0] == sep && s[1..] == b;
    } else {
      assert s[0] == a[0] && s[1..] == a[1..] + [sep] + b;
      SplitAppendSep(a[1..], sep, b, isSep);
      var ra, rb := Split(a[1..], isSep), Split(b, isSep);
      if !isSep(a[0]) {
        assert (ra + rb)[0] == ra[0] && (ra + rb)[1..] == ra[1..] + rb;
      }
    }
  }

  /** A character other than a separator in front joins the first piece. */
  lemma SplitCons(c: char, z: string, isSep: char -> bool)
    requires !isSep(c)
    ensures var q, p := Split([c] + z, isSep), Split(z, isSep);
      |q| == |p| && q[0] == [c] + p[0] && q[1..] == p[1..]
  {
    var s := [c] + z;
    assert s[0] == c && s[1..] == z;
  }

  /** A character other than a separator at the end joins the last piece. */
  lemma {:induction false} SplitSnoc(y: string, c: char, isSep: char -> bool)
    requires !isSep(c)
    ensures var r := Split(y, isSep); Split(y + [c], isSep) == r[..|r| - 1] + [r[|r| - 1] + [c]]
    decreases |y|
  {
    var s := y + [c];
    if y == [] {
      assert s == [c] && s[1..] == [];
      assert Split(s[1..], isSep) == [[]];
      assert [c] + [] == [c];
    } else {
      assert s[0] == y[0] && s[1..] == y[1..] + [c];
      SplitSnoc(y[1..], c, isSep);
      SnocStep(y[0], Split(y[1..], isSep), Split(s[1..], isSep), c, isSep);
    }
  }

  /** The step of `SplitSnoc`: one more character in front of both splits. */
  lemma SnocStep(head: char, r1: seq<string>, rest: seq<string>, c: char, isSep: char -> bool)
    requires |r1| >= 1 && rest == r1[..|r1| - 1] + [r1[|r1| - 1] + [c]]
    ensures var r := if isSep(head) then [[]] + r1 else [[head] + r1[0]] + r1[1..];
      (if isSep(head) then [[]] + rest else [[head] + rest[0]] + rest[1..]) == r[..|r| - 1] + [r[|r| - 1] + [c]]
  {
    var n := |r1|;
    if !isSep(head) {
      if n == 1 {
        assert rest == [r1[0] + [c]];
        assert [head] + (r1[0] + [c]) == ([head] + r1[0]) + [c];
      } else {
        assert rest[0] == r1[0] && rest[1..] == r1[1..n - 1] + [r1[n - 1] + [c]];
      }
    }
  }

  /** `pieces.join(sep)`. */
  function Join(pieces: seq<string>, sep: string): string
  {
    if pieces == [] then []
    else if |pieces| == 1 then pieces[0]
    else pieces[0] + sep + Join(pieces[1..], sep)
  }

  lemma {:induction false} SplitWithoutSeparator(p: string, t: string, isSep: char -> bool)
    requires forall c <- p :: !isSep(c)
    ensures Split(p + t, isSep) == [p + Split(t, isSep)[0]] + Split(t, isSep)[1..]
  {
    if p != [] {
      assert (p + t)[0] == p[0] && (p + t)[1..] == p[1..] + t;
      SplitWithoutSeparator(p[1..], t, isSep);
      assert [p[0]] + (p[1..] + Split(t, isSep)[0]) == p + Split(t, isSep)[0];
    } else {
      var r := Split(t, isSep);
      assert p + t == t && p + r[0] == r[0];
      assert r == [r[0]] + r[1..];
    }
  }

  /** Joining pieces that hold no separator with one separator character, then splitting, gives the pieces back. */
  lemma {:induction false} SplitJoin(pieces: seq<string>, sep: char, isSep: char -> bool)
    requires pieces != [] && isSep(sep)
    requires forall piece <- pieces, c <- piece :: !isSep(c)
    ensures Split(Join(pieces, [sep]), isSep) == pieces
  {
    if |pieces| == 1 {
      SplitWithoutSeparator(pieces[0], [], isSep);
      assert pieces[0] + [] == pieces[0];
    } else {
      var rest := Join(pieces[1..], [sep]);
      SplitJoin(pieces[1..], sep, isSep);
      assert Join(pieces, [sep]) == pieces[0] + ([sep] + rest);
      SplitWithoutSeparator(pieces[0], [sep] + rest, isSep);
      assert ([sep] + rest)[1..] == rest;
      assert pieces[0] + [] == pieces[0];
      assert pieces == [pieces[0]] + pieces[1..];
    }
  }

  /** Two separator-free pieces around one separator split back into those two pieces. */
  lemma SplitAround(a: string, sep: char, b: string, isSep: char -> bool)
    requires isSep(sep)
    requires (forall c <- a :: !isSep(c)) && (forall c <- b :: !isSep(c))
    ensures Split(a + [sep] + b, isSep) == [a, b]
  {
    var rest := [sep] + b;
    SplitWithoutSeparator(b, [], isSep);
    assert b + [] == b;
    assert Split(b, isSep) == [b];
    assert rest[1..] == b;
    assert Split(rest, isSep) == [[], b];
    SplitWithoutSeparator(a, rest, isSep);
    assert a + [sep] + b == a + rest;
    assert a + [] == a;
  }

  predicate OccursAt(s: string, pat: string, i: nat)
  {
    i + |pat| <= |s| && s[i..i + |pat|] == pat
  }

  /** `s.indexOf(pat)`, with `None` for -1. */
  function IndexOf(s: string, pat: string): (r: Option<nat>)
    ensures r.Some? ==> OccursAt(s, pat, r.value) && forall j | 0 <= j < r.value :: !OccursAt(s, pat, j)
    ensures r.None? ==> forall j: nat :: !OccursAt(s, pat, j)
  {
    if pat <= s then Some(0)
    else if s == [] then None
    else
      match IndexOf(s[1..], pat)
      case None =>
        assert forall j: nat | 0 < j :: !OccursAt(s, pat, j) by {
          forall j: nat | 0 < j { OccursAtTail(s, pat, j); }
        }
        None
      case Some(i) =>
        assert forall j: nat | 0 < j <= i :: !OccursAt(s, pat, j) by {
          forall j: nat | 0 < j <= i { OccursAtTail(s, pat, j); }
        }
        OccursAtTail(s, pat, i + 1);
        Some(i + 1)
  }

  /** An occurrence after the first character is an occurrence in the tail. */
  lemma OccursAtTail(s: string, pat: string, j: nat)
    requires s != [] && 0 < j
    ensures OccursAt(s, pat, j) <==> OccursAt(s[1..], pat, j - 1)
  {
    if j + |pat| <= |s| {
      assert s[j..j + |pat|] == s[1..][j - 1..j - 1 + |pat|];
    }
  }

  /** An occurrence with none before it is the one `indexOf` finds. */
  lemma FirstOccurrence(s: string, pat: string, p: nat)
    requires OccursAt(s, pat, p) && forall j: nat | j < p :: !OccursAt(s, pat, j)
    ensures IndexOf(s, pat) == Some(p)
  {
  }

  predicate Contains(s: string, pat: string)
  {
    IndexOf(s, pat).Some?
  }

  /** `s.replace(pat, rep)` with a string pattern: only the first occurrence is replaced. */
  function ReplaceFirst(s: string, pat: string, rep: string): string
  {
    match IndexOf(s, pat)
    case None => s
    case Some(i) => s[..i] + rep + s[i + |pat|..]
  }

  lemma ReplaceFirstEmpty(s: string)
    ensures ReplaceFirst(s, [], []) == s
  {
    assert [] <= s;
  }
}
