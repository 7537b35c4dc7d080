/** Generic sequence helpers: the `filter`, `find`, `flat` and `Set` idioms of the source. */
module Seqs {
  import opened Wrappers

  /** `s.filter(p)`: the elements satisfying `p`, in order (multiplicities: `FilterMultiset`). */
  function Filter<T>(s: seq<T>, p: T -> bool): (r: seq<T>)
    ensures |r| <= |s|
    ensures forall x <- r :: p(x) && x in s
    ensures forall x <- s :: p(x) ==> x in r
  {
    if s == [] then []
    else
      (if p(s[0]) then [s[0]] else []) + Filter(s[1..], p)
  }

  /** Filtering keeps every passing element as often as it occurs, and no other. */
  lemma {:induction false} FilterMultiset<T>(s: seq<T>, p: T -> bool)
    ensures forall x :: multiset(Filter(s, p))[x] == if p(x) then multiset(s)[x] else 0
  {
    if s != [] {
      FilterMultiset(s[1..], p);
      assert s == [s[0]] + s[1..];
      assert multiset(s) == multiset([s[0]]) + multiset(s[1..]);
      var head := if p(s[0]) then [s[0]] else [];
      assert Filter(s, p) == head + Filter(s[1..], p);
      assert multiset(Filter(s, p)) == multiset(head) + multiset(Filter(s[1..], p));
    }
  }

  lemma {:induction false} FilterAppend<T>(a: seq<T>, b: seq<T>, p: T -> bool)
    ensures Filter(a + b, p) == Filter(a, p) + Filter(b, p)
  {
    if a == [] {
      assert a + b == b;
    } else {
      assert (a + b)[0] == a[0];
      assert (a + b)[1..] == a[1..] + b;
      FilterAppend(a[1..], b, p);
    }
  }

  lemma FilterCons<T>(x: T, s: seq<T>, p: T -> bool)
    ensures Filter([x] + s, p) == Filter([x], p) + Filter(s, p)
  {
    assert ([x] + s)[1..] == s;
  }

  /** Filtering commutes with putting one more element in front. */
  lemma FilterConsStep<T>(head: T, tail: seq<T>, rest: seq<T>, extra: seq<T>, p: T -> bool)
    requires Filter(rest, p) == Filter(tail, p) + extra
    ensures Filter([head] + rest, p) == Filter([head] + tail, p) + extra
  {
    FilterCons(head, tail, p);
    FilterCons(head, rest, p);
    AppendAssoc(Filter([head], p), Filter(tail, p), extra);
  }

  /** Dropping a prefix no element of which passes leaves the filtered sequence alone. */
  lemma {:induction false} FilterDropPrefix<T>(s: seq<T>, n: nat, p: T -> bool)
    requires n <= |s| && forall t | 0 <= t < n :: !p(s[t])
    ensures Filter(s, p) == Filter(s[n..], p)
  {
    if n > 0 {
      assert Filter(s, p) == [] + Filter(s[1..], p);
      FilterDropPrefix(s[1..], n - 1, p);
      assert s[1..][n - 1..] == s[n..];
    }
  }

  /** Dropping a suffix no element of which passes leaves the filtered sequence alone. */
  lemma FilterDropSuffix<T>(s: seq<T>, n: nat, p: T -> bool)
    requires n <= |s| && forall t | n <= t < |s| :: !p(s[t])
    ensures Filter(s, p) == Filter(s[..n], p)
  {
    var back := s[n..];
    assert Filter(back, p) == [] by {
      assert forall t | 0 <= t < |back| :: back[t] == s[n + t];
      FilterNone(back, p);
    }
    assert s == s[..n] + back;
    FilterAppendNothing(s[..n], back, p);
  }

  lemma FilterAppendNothing<T>(a: seq<T>, b: seq<T>, p: T -> bool)
    requires Filter(b, p) == []
    ensures Filter(a + b, p) == Filter(a, p)
  {
    FilterAppend(a, b, p);
    assert Filter(a, p) + [] == Filter(a, p);
  }

  /** Sequences that agree, position by position, on what passes and on the passing elements filter alike. */
  lemma {:induction false} FilterPointwise<T>(a: seq<T>, b: seq<T>, p: T -> bool)
    requires |a| == |b|
    requires forall i | 0 <= i < |a| :: p(a[i]) == p(b[i]) && (p(a[i]) ==> a[i] == b[i])
    ensures Filter(a, p) == Filter(b, p)
  {
    if a != [] {
      FilterPointwise(a[1..], b[1..], p);
    }
  }

  /** Filtering by a weaker predicate first changes nothing. */
  lemma {:induction false} FilterOfFilter<T>(s: seq<T>, p: T -> bool, q: T -> bool)
    requires forall x :: p(x) ==> q(x)
    ensures Filter(Filter(s, q), p) == Filter(s, p)
  {
    if s != [] {
      FilterOfFilter(s[1..], p, q);
      var head := if q(s[0]) then [s[0]] else [];
      assert Filter(s, q) == head + Filter(s[1..], q);
      FilterAppend(head, Filter(s[1..], q), p);
    }
  }

  /** The same first element in front of two sequences that filter alike. */
  lemma FilterSameHead<T>(x: T, a: seq<T>, b: seq<T>, p: T -> bool)
    requires Filter(a, p) == Filter(b, p)
    ensures Filter([x] + a, p) == Filter([x] + b, p)
  {
    FilterCons(x, a, p);
    FilterCons(x, b, p);
  }

  lemma AppendAssoc<T>(a: seq<T>, b: seq<T>, c: seq<T>)
    ensures a + (b + c) == (a + b) + c
  {
  }

  /** Filtering keeps a sequence whose every element passes. */
  lemma {:induction false} FilterAll<T>(s: seq<T>, p: T -> bool)
    requires forall x <- s :: p(x)
    ensures Filter(s, p) == s
  {
    if s != [] {
      FilterAll(s[1..], p);
    }
  }

  /** Filtering drops a sequence no element of which passes. */
  lemma {:induction false} FilterNone<T>(s: seq<T>, p: T -> bool)
    requires forall x <- s :: !p(x)
    ensures Filter(s, p) == []
  {
    if s != [] {
      assert s[0] in s;
      assert forall x <- s[1..] :: x in s;
      FilterNone(s[1..], p);
    }
  }

  /** `r` occurs in `s` in the same order, possibly with gaps. */
  predicate IsSubsequence<T(==)>(r: seq<T>, s: seq<T>)
  {
    r == [] || (s != [] && if r[0] == s[0] then IsSubsequence(r[1..], s[1..]) else IsSubsequence(r, s[1..]))
  }

  lemma {:induction false} FilterIsSubsequence<T>(s: seq<T>, p: T -> bool)
    ensures IsSubsequence(Filter(s, p), s)
  {
    if s != [] {
      FilterIsSubsequence(s[1..], p);
      var r := Filter(s, p);
      if p(s[0]) {
        assert r[0] == s[0] && r[1..] == Filter(s[1..], p);
      } else if r != [] {
        assert r == Filter(s[1..], p);
        assert p(r[0]) && r[0] != s[0];
      }
    }
  }

  /** `s.findIndex(p)`, with `None` for -1. */
  function FirstIndex<T>(s: seq<T>, p: T -> bool): (r: Option<nat>)
    ensures r.Some? ==> r.value < |s| && p(s[r.value]) && forall j | 0 <= j < r.value :: !p(s[j])
    ensures r.None? ==> forall j | 0 <= j < |s| :: !p(s[j])
  {
    if s == [] then None
    else if p(s[0]) then Some(0)
    else match FirstIndex(s[1..], p)
      case None => None
      case Some(i) => Some(i + 1)
  }

  /** `s.find(p) ?? default`. */
  function FindOr<T>(s: seq<T>, p: T -> bool, default: T): (r: T)
    ensures r == default || r in s
    ensures (forall x <- s :: !p(x)) ==> r == default
    ensures (exists x <- s :: p(x)) ==> p(r) && exists i | 0 <= i < |s| :: s[i] == r && forall j | 0 <= j < i :: !p(s[j])
  {
    match FirstIndex(s, p)
    case None => default
    case Some(i) => s[i]
  }

  /** The concatenation of a list of lists (`flat()`). */
  function Flatten<T>(ss: seq<seq<T>>): (r: seq<T>)
  {
    if ss == [] then [] else Flatten(ss[..|ss| - 1]) + ss[|ss| - 1]
  }

  lemma {:induction false} FlattenAppend<T>(a: seq<seq<T>>, b: seq<seq<T>>)
    ensures Flatten(a + b) == Flatten(a) + Flatten(b)
  {
    if b != [] {
      assert (a + b)[..|a + b| - 1] == a + b[..|b| - 1];
      FlattenAppend(a, b[..|b| - 1]);
    } else {
      assert a + b == a;
    }
  }

  predicate NoDuplicates<T(==)>(s: seq<T>)
  {
    forall i, j | 0 <= i < j < |s| :: s[i] != s[j]
  }

  /** `Array.from(new Set(s))`: first occurrences, in insertion order. */
  function Dedup<T(==)>(s: seq<T>): (r: seq<T>)
    ensures NoDuplicates(r)
    ensures forall x <- r :: x in s
    ensures forall x <- s :: x in r
  {
    if s == [] then []
    else
      var d := Dedup(s[..|s| - 1]);
      assert s == s[..|s| - 1] + [s[|s| - 1]];
      if s[|s| - 1] in d then d else d + [s[|s| - 1]]
  }

  /** Adding to an insertion-ordered set: a new element goes last, a known one changes nothing. */
  lemma DedupSnoc<T>(s: seq<T>, x: T)
    ensures Dedup(s + [x]) == if x in Dedup(s) then Dedup(s) else Dedup(s) + [x]
  {
    assert (s + [x])[..|s + [x]| - 1] == s;
  }

  /** `s.slice(0, n)`. */
  function Take<T>(s: seq<T>, n: nat): (r: seq<T>)
    ensures |r| == if n < |s| then n else |s|
    ensures r == s[..|r|]
  {
    if n < |s| then s[..n] else s
  }

  lemma TakeSubMultiset<T>(s: seq<T>, n: nat)
    ensures multiset(Take(s, n)) <= multiset(s)
  {
    var t := Take(s, n);
    assert s == t + s[|t|..];
  }

  /** Filtering a prefix gives a prefix of the filtered whole. */
  lemma FilterOfTake<T>(s: seq<T>, n: nat, p: T -> bool)
    ensures Filter(Take(s, n), p) <= Filter(s, p)
  {
    var t := Take(s, n);
    assert s == t + s[|t|..];
    FilterAppend(t, s[|t|..], p);
  }

  /** One more step of a left-to-right pass: the prefix grows by the next element. */
  lemma PrefixSnoc<T>(s: seq<T>, i: nat)
    requires i < |s|
    ensures s[..i + 1] == s[..i] + [s[i]]
  {
  }

  /** Indexing into a concatenation. */
  lemma AppendAt<T>(a: seq<T>, b: seq<T>, k: nat)
    requires k < |a| + |b|
    ensures (a + b)[k] == if k < |a| then a[k] else b[k - |a|]
  {
  }

  /** The part of a concatenation after its first operand is the second. */
  lemma SuffixOf<T>(a: seq<T>, b: seq<T>)
    ensures (a + b)[|a|..|a + b|] == b
  {
  }

  /** The part of a concatenation before its second operand is the first. */
  lemma PrefixOf<T>(a: seq<T>, b: seq<T>)
    ensures (a + b)[..|a|] == a
  {
  }

  /** A sequence of length two is the pair of its elements. */
  lemma PairOf<T>(r: seq<T>, x: T, y: T)
    requires |r| == 2 && r[0] == x && r[1] == y
    ensures r == [x, y]
  {
  }

  /** A non-empty sequence is its head followed by its tail. */
  lemma HeadTail<T>(s: seq<T>)
    requires s != []
    ensures s == [s[0]] + s[1..]
  {
  }

  /** A non-empty sequence is its front followed by its last element. */
  lemma FrontLast<T>(s: seq<T>)
    requires s != []
    ensures s == s[..|s| - 1] + [s[|s| - 1]]
  {
  }
}
