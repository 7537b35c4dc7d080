/**
 * The job matcher (src/lib/matcher.ts): it tokenises a job description,
 * scores every experience bullet of a resume by token overlap, ranks the
 * bullets and combines bullet and skill matches into a score from 0 to 100.
 */
module Matcher {
  import opened Wrappers
  import opened Strings
  import opened Seqs
  import opened Resume

  /*
   * tokenize
   */

  /** The characters `/[^a-z0-9+.# ]/g` leaves in place. */
  predicate IsTokenChar(c: char) { 'a' <= c <= 'z' || IsDigit(c) || c == '+' || c == '.' || c == '#' || c == ' ' }

  /** Every other character becomes a space. */
  function Blank(s: string): (r: string)
    ensures |r| == |s| && forall i | 0 <= i < |s| :: r[i] == if IsTokenChar(s[i]) then s[i] else ' '
    ensures forall c <- r :: IsTokenChar(c)
  {
    seq(|s|, i requires 0 <= i < |s| => if IsTokenChar(s[i]) then s[i] else ' ')
  }

  /**
   * `s.split(/\s+/)`: a run of white space separates once. That is the split
   * at single white-space characters without the empty pieces that sit
   * between two of them; an empty first or last piece stays.
   */
  function SplitRuns(s: string): (r: seq<string>)
    ensures forall piece <- r, c <- piece :: !IsSpace(c) && c in s
    ensures forall piece <- r :: piece in Split(s, IsSpace)
  {
    var pieces := Split(s, IsSpace);
    if |pieces| == 1 then pieces
    else
      var middle := pieces[1..|pieces| - 1];
      assert forall p <- middle :: p in pieces;
      [pieces[0]] + Filter(middle, NonEmpty) + [pieces[|pieces| - 1]]
  }

  predicate IsLongToken(t: string) { |t| > 1 }

  /** A token: at least two characters out of `[a-z0-9+.#]`. */
  predicate IsToken(t: string)
  {
    |t| >= 2 && forall c <- t :: IsTokenChar(c) && c != ' '
  }

  /** `tokenize`: lower-case, blank out other characters, split at white space, keep pieces longer than one character. */
  function Tokenize(text: string): (r: seq<string>)
    ensures forall t <- r :: IsToken(t)
  {
    var pieces := SplitRuns(Blank(Lower(text)));
    TrimAllUnspaced(pieces);
    Filter(TrimAll(pieces), IsLongToken)
  }

  /** Pieces of a split at white space have nothing to trim. */
  lemma TrimAllUnspaced(pieces: seq<string>)
    requires forall p <- pieces, c <- p :: !IsSpace(c)
    ensures TrimAll(pieces) == pieces
  {
    forall i | 0 <= i < |pieces| ensures Trim(pieces[i]) == pieces[i] {
      var p := pieces[i];
      assert p in pieces;
      if p != [] {
        assert p[0] in p && p[|p| - 1] in p;
      }
      TrimOfTrimmed(p);
    }
  }

  /** The tokens are the long pieces of the split. */
  lemma TokenizePieces(text: string)
    ensures Tokenize(text) == Filter(SplitRuns(Blank(Lower(text))), IsLongToken)
  {
    TrimAllUnspaced(SplitRuns(Blank(Lower(text))));
  }

  /** Text none of whose characters lower-cases into `[a-z0-9+.#]` has no token: empty, blank or all-punctuation text. */
  lemma TokenizeWithoutTokenChars(text: string)
    requires forall c <- text :: !IsTokenChar(LowerChar(c)) || LowerChar(c) == ' '
    ensures Tokenize(text) == []
  {
    var blanked := Blank(Lower(text));
    forall i | 0 <= i < |blanked| ensures blanked[i] == ' ' {
      assert text[i] in text;
    }
    SplitOfSpaces(blanked);
    var pieces := SplitRuns(blanked);
    assert forall p <- pieces :: !IsLongToken(p);
    FilterNone(pieces, IsLongToken);
    TokenizePieces(text);
  }

  /** Splitting white space alone gives only empty pieces. */
  lemma {:induction false} SplitOfSpaces(s: string)
    requires forall i | 0 <= i < |s| :: IsSpace(s[i])
    ensures forall p <- Split(s, IsSpace) :: p == []
  {
    if s != [] {
      SplitOfSpaces(s[1..]);
    }
  }

  /** Tokens joined with single spaces are read back as exactly those tokens. */
  lemma TokenizeJoin(tokens: seq<string>)
    requires forall t <- tokens :: IsToken(t)
    ensures Tokenize(Join(tokens, [' '])) == tokens
  {
    var text := Join(tokens, [' ']);
    if tokens == [] {
      TokenizeWithoutTokenChars(text);
      return;
    }
    JoinTokenChars(tokens);
    LowerOfLower(text);
    BlankOfTokenChars(text);
    TokenizePieces(text);
    assert SplitRuns(text) == tokens by {
      SplitRunsJoin(tokens);
    }
    FilterAll(tokens, IsLongToken);
  }

  lemma BlankOfTokenChars(text: string)
    requires forall c <- text :: IsTokenChar(c)
    ensures Blank(text) == text
  {
    assert forall i | 0 <= i < |text| :: text[i] in text;
  }

  lemma JoinTokenChars(tokens: seq<string>)
    requires forall t <- tokens :: IsToken(t)
    ensures forall c <- Join(tokens, [' ']) :: IsTokenChar(c) && !('A' <= c <= 'Z')
  {
    JoinChars(tokens, ' ');
  }

  lemma SplitRunsJoin(tokens: seq<string>)
    requires tokens != [] && forall t <- tokens :: IsToken(t)
    ensures SplitRuns(Join(tokens, [' '])) == tokens
  {
    SplitJoin(tokens, ' ', IsSpace);
    assert forall i | 0 <= i < |tokens| :: tokens[i] in tokens;
    SplitRunsWithoutEmpty(Join(tokens, [' ']));
  }

  /** Without empty pieces between two separators, the split at runs is the split at single characters. */
  lemma SplitRunsWithoutEmpty(s: string)
    requires forall i | 0 < i < |Split(s, IsSpace)| - 1 :: Split(s, IsSpace)[i] != []
    ensures SplitRuns(s) == Split(s, IsSpace)
  {
    var pieces := Split(s, IsSpace);
    if |pieces| > 1 {
      var middle := pieces[1..|pieces| - 1];
      assert Filter(middle, NonEmpty) == middle by {
        assert forall j | 0 <= j < |middle| :: middle[j] == pieces[j + 1];
        FilterAll(middle, NonEmpty);
      }
      assert SplitRuns(s) == [pieces[0]] + middle + [pieces[|pieces| - 1]];
      assert [pieces[0]] + middle + [pieces[|pieces| - 1]] == pieces;
    }
  }

  lemma {:induction false} JoinChars(pieces: seq<string>, sep: char)
    ensures forall c <- Join(pieces, [sep]) :: c == sep || exists p <- pieces :: c in p
  {
    if |pieces| > 1 {
      JoinChars(pieces[1..], sep);
      assert forall p <- pieces[1..] :: p in pieces;
    }
  }

  /*
   * collectBullets
   */

  /** `RankedBullet["source"]`; `collectBullets` always fills in company and title. */
  datatype Source = Source(section: string, company: string, title: string)

  /** `TokensPayload` */
  datatype Payload = Payload(tokens: seq<string>, source: Source, original: string)

  datatype RankedBullet = RankedBullet(text: string, score: real, source: Source)

  datatype MatchResult = MatchResult(rankedBullets: seq<RankedBullet>, skillMatches: seq<string>, matchScore: int)

  /** The payload of one bullet of `entry`. */
  function PayloadOf(entry: ExperienceEntry, bullet: string): (r: Payload)
    ensures r.original == bullet && r.tokens == Tokenize(r.original)
    ensures r.source == Source("experience", entry.company, entry.title)
  {
    Payload(Tokenize(bullet), Source("experience", entry.company, entry.title), bullet)
  }

  /** The payloads of one entry's bullets: each keeps its bullet text and tokens and is tagged with the entry. */
  function EntryPayloads(entry: ExperienceEntry): (r: seq<Payload>)
    ensures |r| == |entry.bullets|
    ensures forall j | 0 <= j < |r| ::
      && r[j].original == entry.bullets[j]
      && r[j].tokens == Tokenize(entry.bullets[j])
      && r[j].source == Source("experience", entry.company, entry.title)
  {
    seq(|entry.bullets|, j requires 0 <= j < |entry.bullets| => PayloadOf(entry, entry.bullets[j]))
  }

  /** The payloads of every entry, one list per entry. */
  function EntryLists(experience: seq<ExperienceEntry>): (r: seq<seq<Payload>>)
    ensures |r| == |experience|
    ensures forall k | 0 <= k < |r| :: r[k] == EntryPayloads(experience[k])
  {
    seq(|experience|, k requires 0 <= k < |experience| => EntryPayloads(experience[k]))
  }

  /** The payloads of every bullet of every entry, entry by entry. */
  function Collected(experience: seq<ExperienceEntry>): seq<Payload>
  {
    Flatten(EntryLists(experience))
  }

  /** The number of bullets of all entries. */
  function BulletCount(experience: seq<ExperienceEntry>): nat
  {
    if experience == [] then 0
    else BulletCount(experience[..|experience| - 1]) + |experience[|experience| - 1].bullets|
  }

  /** Collecting one more entry appends its payloads. */
  lemma CollectedSnoc(experience: seq<ExperienceEntry>, i: nat)
    requires i < |experience|
    ensures Collected(experience[..i + 1]) == Collected(experience[..i]) + EntryPayloads(experience[i])
  {
    var ss := EntryLists(experience[..i + 1]);
    assert ss[..i] == EntryLists(experience[..i]);
  }

  /** One payload per bullet. */
  lemma {:induction false} CollectedCount(experience: seq<ExperienceEntry>)
    ensures |Collected(experience)| == BulletCount(experience)
  {
    if experience != [] {
      var n := |experience| - 1;
      CollectedCount(experience[..n]);
      CollectedSnoc(experience, n);
      assert experience[..n + 1] == experience;
    }
  }

  /** `collectBullets` */
  method CollectBullets(experience: seq<ExperienceEntry>) returns (payload: seq<Payload>)
    ensures payload == Collected(experience)
  {
    payload := [];
    for i := 0 to |experience|
      invariant payload == Collected(experience[..i])
    {
      payload := PushBullets(payload, experience[i]);
      CollectedSnoc(experience, i);
    }
    assert experience[..|experience|] == experience;
  }

  /** `entry.bullets.forEach((bullet) => payload.push(…))` */
  method PushBullets(payload: seq<Payload>, entry: ExperienceEntry) returns (r: seq<Payload>)
    ensures r == payload + EntryPayloads(entry)
  {
    r := payload;
    for j := 0 to |entry.bullets|
      invariant r == payload + EntryPayloads(entry)[..j]
    {
      PrefixSnoc(EntryPayloads(entry), j);
      r := r + [PayloadOf(entry, entry.bullets[j])];
    }
    assert EntryPayloads(entry)[..|entry.bullets|] == EntryPayloads(entry);
  }

  /*
   * matchSkills
   */

  function InTokens(jdTokens: seq<string>): string -> bool
  {
    skill => Lower(skill) in jdTokens
  }

  /** `matchSkills`: the resume skills whose lower-case form is a job-description token, in resume order. */
  function MatchSkills(resumeSkills: seq<string>, jdTokens: seq<string>): (r: seq<string>)
    ensures IsSubsequence(r, resumeSkills)
    ensures forall skill <- r :: Lower(skill) in jdTokens
    ensures forall skill <- resumeSkills :: Lower(skill) in jdTokens ==> skill in r
    ensures forall skill :: multiset(r)[skill] == if Lower(skill) in jdTokens then multiset(resumeSkills)[skill] else 0
  {
    FilterIsSubsequence(resumeSkills, InTokens(jdTokens));
    FilterMultiset(resumeSkills, InTokens(jdTokens));
    Filter(resumeSkills, InTokens(jdTokens))
  }

  /*
   * computeOverlap
   */

  /** How many tokens of `tokensB`, duplicates included, occur in `tokensA`. */
  function Hits(tokensA: seq<string>, tokensB: seq<string>): (n: nat)
    ensures n <= |tokensB|
    ensures n > 0 <==> exists t <- tokensB :: t in tokensA
  {
    if tokensB == [] then 0
    else
      var front := tokensB[..|tokensB| - 1];
      assert forall t <- tokensB :: t in front || t == tokensB[|tokensB| - 1];
      assert forall t <- front :: t in tokensB;
      Hits(tokensA, front) + if tokensB[|tokensB| - 1] in tokensA then 1 else 0
  }

  function MaxLength(a: nat, b: nat): nat { if a < b then b else a }

  /** The overlap score: hits over the longer length, 0 when either list is empty. */
  function Overlap(tokensA: seq<string>, tokensB: seq<string>): (r: real)
    ensures 0.0 <= r <= 1.0
    ensures tokensA == [] || tokensB == [] ==> r == 0.0
    ensures r > 0.0 <==> exists t <- tokensB :: t in tokensA
  {
    if tokensA == [] || tokensB == [] then 0.0
    else
      RatioBounds(Hits(tokensA, tokensB), MaxLength(|tokensA|, |tokensB|));
      (Hits(tokensA, tokensB) as real) / (MaxLength(|tokensA|, |tokensB|) as real)
  }

  /** A count over a larger positive count is a fraction in [0, 1], positive when the count is. */
  lemma RatioBounds(n: nat, m: nat)
    requires 0 < m && n <= m
    ensures 0.0 <= (n as real) / (m as real) <= 1.0
    ensures (n as real) / (m as real) > 0.0 <==> n > 0
  {
    var q := (n as real) / (m as real);
    assert q * (m as real) == n as real;
  }

  /** `computeOverlap`: counts the tokens of `tokensB` that are in the set of `tokensA`. */
  method ComputeOverlap(tokensA: seq<string>, tokensB: seq<string>) returns (score: real)
    ensures score == Overlap(tokensA, tokensB)
  {
    if tokensA == [] || tokensB == [] {
      return 0.0;
    }
    var setA := set t <- tokensA;
    var overlap := 0;
    for k := 0 to |tokensB|
      invariant overlap == Hits(tokensA, tokensB[..k])
    {
      PrefixSnoc(tokensB, k);
      assert tokensB[..k + 1][..k] == tokensB[..k];
      if tokensB[k] in setA {
        overlap := overlap + 1;
      }
    }
    assert tokensB[..|tokensB|] == tokensB;
    score := (overlap as real) / (MaxLength(|tokensA|, |tokensB|) as real);
  }

  /** The score is not symmetric: a repeated token counts each time in the second list, once in the first. */
  lemma OverlapIsNotSymmetric(t: string)
    ensures Overlap([t], [t, t]) == 1.0
    ensures Overlap([t, t], [t]) == 0.5
  {
    assert Hits([t], [t, t]) == 2 by {
      assert [t, t][..1] == [t];
      assert [t][..0] == [];
    }
    assert Hits([t, t], [t]) == 1 by {
      assert [t][..0] == [];
    }
  }

  /*
   * Ranking: score, keep positive scores, stable sort by descending score, keep twelve
   */

  /** `RankedBullet` of one payload against the job-description tokens. */
  function ScoreOf(p: Payload, jdTokens: seq<string>): (r: RankedBullet)
    ensures r.text == p.original && r.source == p.source
    ensures r.score == Overlap(p.tokens, jdTokens) && 0.0 <= r.score <= 1.0
    ensures r.score > 0.0 <==> exists t <- jdTokens :: t in p.tokens
  {
    RankedBullet(p.original, Overlap(p.tokens, jdTokens), p.source)
  }

  function Scored(payload: seq<Payload>, jdTokens: seq<string>): (r: seq<RankedBullet>)
    ensures |r| == |payload|
    ensures forall k | 0 <= k < |r| ::
      && r[k].text == payload[k].original
      && r[k].source == payload[k].source
      && r[k].score == Overlap(payload[k].tokens, jdTokens)
    ensures forall k | 0 <= k < |r| ::
      && 0.0 <= r[k].score <= 1.0
      && (r[k].score > 0.0 <==> exists t <- jdTokens :: t in payload[k].tokens)
  {
    seq(|payload|, k requires 0 <= k < |payload| => ScoreOf(payload[k], jdTokens))
  }

  /** `bulletPayload.map(…)`, with one `computeOverlap` call per bullet. */
  method ScoreBullets(payload: seq<Payload>, jdTokens: seq<string>) returns (scored: seq<RankedBullet>)
    ensures scored == Scored(payload, jdTokens)
  {
    scored := [];
    for k := 0 to |payload|
      invariant |scored| == k
      invariant forall m | 0 <= m < k :: scored[m] == ScoreOf(payload[m], jdTokens)
    {
      var score := ComputeOverlap(payload[k].tokens, jdTokens);
      scored := scored + [RankedBullet(payload[k].original, score, payload[k].source)];
    }
  }

  predicate IsPositive(b: RankedBullet) { b.score > 0.0 }

  function HasScore(v: real): RankedBullet -> bool
  {
    (b: RankedBullet) => b.score == v
  }

  /** Non-increasing scores. */
  predicate Sorted(s: seq<RankedBullet>)
  {
    forall i, j | 0 <= i < j < |s| :: s[i].score >= s[j].score
  }

  /** Puts `x` after every leading element scored at least as high, before the first lower one. */
  function Insert(sorted: seq<RankedBullet>, x: RankedBullet): seq<RankedBullet>
  {
    if sorted == [] then [x]
    else if sorted[0].score >= x.score then [sorted[0]] + Insert(sorted[1..], x)
    else [x] + sorted
  }

  /** Inserting adds exactly `x`. */
  lemma {:induction false} InsertPermutes(sorted: seq<RankedBullet>, x: RankedBullet)
    ensures multiset(Insert(sorted, x)) == multiset(sorted) + multiset{x}
  {
    if sorted != [] {
      HeadTail(sorted);
      if sorted[0].score >= x.score {
        InsertPermutes(sorted[1..], x);
      }
    }
  }

  /** Inserting into a sorted list keeps it sorted. */
  lemma {:induction false} InsertSorted(sorted: seq<RankedBullet>, x: RankedBullet)
    requires Sorted(sorted)
    ensures Sorted(Insert(sorted, x))
  {
    if sorted != [] {
      var head, tail := sorted[0], sorted[1..];
      HeadTail(sorted);
      if head.score >= x.score {
        var rest := Insert(tail, x);
        InsertSorted(tail, x);
        InsertPermutes(tail, x);
        forall y <- rest ensures y.score <= head.score {
          assert y in multiset(rest);
        }
        SortedCons(head, rest);
      } else {
        SortedCons(x, sorted);
      }
    }
  }

  /** A sorted list stays sorted under a head that scores at least as high as all of it. */
  lemma SortedCons(head: RankedBullet, tail: seq<RankedBullet>)
    requires Sorted(tail) && forall y <- tail :: y.score <= head.score
    ensures Sorted([head] + tail)
  {
    var s := [head] + tail;
    forall i, j | 0 <= i < j < |s| ensures s[i].score >= s[j].score {
      assert s[j] == tail[j - 1];
      if i > 0 {
        assert s[i] == tail[i - 1];
      }
    }
  }

  /**
   * `.sort((a, b) => b.score - a.score)`: `Array.prototype.sort` is stable, so
   * the result is the insertion sort that never moves an element ahead of an
   * earlier one with the same score.
   */
  function SortByScore(s: seq<RankedBullet>): (r: seq<RankedBullet>)
    ensures multiset(r) == multiset(s)
  {
    if s == [] then []
    else
      var front, last := s[..|s| - 1], s[|s| - 1];
      var sorted := SortByScore(front);
      InsertPermutes(sorted, last);
      FrontLast(s);
      Insert(sorted, last)
  }

  /** The sort yields non-increasing scores and a permutation of its input. */
  lemma {:induction false} SortByScoreSorts(s: seq<RankedBullet>)
    ensures Sorted(SortByScore(s))
    ensures multiset(SortByScore(s)) == multiset(s)
  {
    if s != [] {
      var front, last := s[..|s| - 1], s[|s| - 1];
      SortByScoreSorts(front);
      InsertSorted(SortByScore(front), last);
      InsertPermutes(SortByScore(front), last);
      FrontLast(s);
    }
  }

  /** Inserting keeps the order among equal scores and puts `x` after its equals. */
  lemma {:induction false} InsertStable(sorted: seq<RankedBullet>, x: RankedBullet, v: real)
    requires Sorted(sorted)
    ensures Filter(Insert(sorted, x), HasScore(v)) == Filter(sorted, HasScore(v)) + if x.score == v then [x] else []
  {
    if sorted == [] {
      assert Filter([x], HasScore(v)) == if x.score == v then [x] else [];
    } else if sorted[0].score >= x.score {
      InsertStable(sorted[1..], x, v);
      InsertBehind(sorted, x, v);
    } else {
      InsertInFront(sorted, x, v);
    }
  }

  /** The step of `InsertStable` where `x` goes behind the head. */
  lemma InsertBehind(sorted: seq<RankedBullet>, x: RankedBullet, v: real)
    requires sorted != [] && sorted[0].score >= x.score
    requires Filter(Insert(sorted[1..], x), HasScore(v)) == Filter(sorted[1..], HasScore(v)) + if x.score == v then [x] else []
    ensures Filter(Insert(sorted, x), HasScore(v)) == Filter(sorted, HasScore(v)) + if x.score == v then [x] else []
  {
    HeadTail(sorted);
    FilterConsStep(sorted[0], sorted[1..], Insert(sorted[1..], x), if x.score == v then [x] else [], HasScore(v));
  }

  /** The step of `InsertStable` where `x` outscores the head and goes first. */
  lemma InsertInFront(sorted: seq<RankedBullet>, x: RankedBullet, v: real)
    requires Sorted(sorted) && sorted != [] && sorted[0].score < x.score
    ensures Filter(Insert(sorted, x), HasScore(v)) == Filter(sorted, HasScore(v)) + if x.score == v then [x] else []
  {
    var p := HasScore(v);
    assert Insert(sorted, x) == [x] + sorted;
    FilterCons(x, sorted, p);
    if x.score == v {
      assert forall y <- sorted :: y.score <= sorted[0].score by {
        forall y <- sorted ensures y.score <= sorted[0].score {
          var i :| 0 <= i < |sorted| && sorted[i] == y;
        }
      }
      FilterNone(sorted, p);
      assert Filter([x], p) == [x];
    } else {
      assert Filter([x], p) == [];
    }
  }

  /** The sort is stable: the bullets of any one score keep their relative order. */
  lemma {:induction false} SortStable(s: seq<RankedBullet>, v: real)
    ensures Filter(SortByScore(s), HasScore(v)) == Filter(s, HasScore(v))
  {
    if s != [] {
      var front, last := s[..|s| - 1], s[|s| - 1];
      var p := HasScore(v);
      var extra := if last.score == v then [last] else [];
      SortStable(front, v);
      assert Filter(SortByScore(s), p) == Filter(SortByScore(front), p) + extra by {
        SortByScoreSorts(front);
        InsertStable(SortByScore(front), last, v);
      }
      assert Filter(s, p) == Filter(front, p) + extra by {
        FrontLast(s);
        FilterAppend(front, [last], p);
      }
    }
  }

  const MaxRanked := 12

  /** The ranked bullets: the positive scores, stably sorted by descending score, the first twelve. */
  function Ranking(payload: seq<Payload>, jdTokens: seq<string>): (r: seq<RankedBullet>)
    ensures var positive := Filter(Scored(payload, jdTokens), IsPositive);
      |r| == if |positive| < MaxRanked then |positive| else MaxRanked
  {
    var sorted := SortByScore(Filter(Scored(payload, jdTokens), IsPositive));
    assert |sorted| == |multiset(sorted)|;
    Take(sorted, MaxRanked)
  }

  /** At most twelve bullets, in non-increasing score. */
  lemma RankingSorted(payload: seq<Payload>, jdTokens: seq<string>)
    ensures |Ranking(payload, jdTokens)| <= MaxRanked
    ensures Sorted(Ranking(payload, jdTokens))
  {
    SortByScoreSorts(Filter(Scored(payload, jdTokens), IsPositive));
  }

  /** Each ranked bullet is a scored bullet with a positive score, and none is ranked more often than it was scored. */
  lemma RankingMembers(payload: seq<Payload>, jdTokens: seq<string>)
    ensures var ranked := Ranking(payload, jdTokens);
      && multiset(ranked) <= multiset(Filter(Scored(payload, jdTokens), IsPositive))
      && forall b <- ranked :: 0.0 < b.score <= 1.0 && b in Scored(payload, jdTokens)
  {
    var scored := Scored(payload, jdTokens);
    var positive := Filter(scored, IsPositive);
    var sorted := SortByScore(positive);
    var ranked := Take(sorted, MaxRanked);
    SortByScoreSorts(positive);
    TakeSubMultiset(sorted, MaxRanked);
    forall b <- ranked ensures 0.0 < b.score <= 1.0 && b in scored {
      assert b in multiset(ranked);
      assert b in multiset(positive);
      assert b in positive;
      assert IsPositive(b) && b in scored;
      var k :| 0 <= k < |scored| && scored[k] == b;
      assert b == ScoreOf(payload[k], jdTokens);
    }
  }

  /** Bullets of equal score are ranked in collection order: the ranked ones of any score are a prefix of all of that score. */
  lemma RankingStable(payload: seq<Payload>, jdTokens: seq<string>, v: real)
    ensures Filter(Ranking(payload, jdTokens), HasScore(v)) <= Filter(Filter(Scored(payload, jdTokens), IsPositive), HasScore(v))
  {
    var positive := Filter(Scored(payload, jdTokens), IsPositive);
    SortStable(positive, v);
    FilterOfTake(SortByScore(positive), MaxRanked, HasScore(v));
  }

  /** No positive bullet left out of the ranking scores higher than one in it. */
  lemma RankingTop(payload: seq<Payload>, jdTokens: seq<string>)
    ensures var ranked := Ranking(payload, jdTokens);
      forall b <- Filter(Scored(payload, jdTokens), IsPositive) | b !in ranked :: forall c <- ranked :: c.score >= b.score
  {
    var positive := Filter(Scored(payload, jdTokens), IsPositive);
    var sorted := SortByScore(positive);
    var ranked := Take(sorted, MaxRanked);
    SortByScoreSorts(positive);
    forall b <- positive | b !in ranked ensures forall c <- ranked :: c.score >= b.score {
      assert b in multiset(sorted);
      var j :| 0 <= j < |sorted| && sorted[j] == b;
      assert j >= |ranked|;
      forall c <- ranked ensures c.score >= b.score {
        var i :| 0 <= i < |ranked| && ranked[i] == c;
        assert sorted[i] == c;
      }
    }
  }

  /*
   * computeMatchScore
   */

  function Sum(bullets: seq<RankedBullet>): (r: real)
    ensures (forall b <- bullets :: 0.0 <= b.score) ==> 0.0 <= r
    ensures (forall b <- bullets :: b.score <= 1.0) ==> r <= |bullets| as real
  {
    if bullets == [] then 0.0
    else
      var front := bullets[..|bullets| - 1];
      assert forall b <- front :: b in bullets;
      Sum(front) + bullets[|bullets| - 1].score
  }

  /** `Math.round`: the nearest integer, halves rounded up. */
  function Round(x: real): (r: int)
    ensures x - 0.5 < r as real <= x + 0.5
  {
    (x + 0.5).Floor
  }

  const BulletWeight := 0.7
  const SkillWeight := 0.3

  /** `computeMatchScore`: 70% mean bullet score and 30% skill coverage, as a rounded percentage capped at 100. */
  function ComputeMatchScore(bullets: seq<RankedBullet>, skillMatches: seq<string>, totalSkillCount: nat): (r: int)
    ensures r <= 100
    ensures bullets == [] && skillMatches == [] ==> r == 0
  {
    if bullets == [] && skillMatches == [] then 0
    else
      var bulletScore := Sum(bullets) / (MaxLength(|bullets|, 1) as real);
      var skillScore := (|skillMatches| as real) / (MaxLength(totalSkillCount, 1) as real);
      var combined := (bulletScore * BulletWeight + skillScore * SkillWeight) * 100.0;
      var rounded := Round(combined);
      if rounded < 100 then rounded else 100
  }

  /** With no negative bullet score the score is at least 0. */
  lemma MatchScoreNonNegative(bullets: seq<RankedBullet>, skillMatches: seq<string>, totalSkillCount: nat)
    requires forall b <- bullets :: 0.0 <= b.score
    ensures 0 <= ComputeMatchScore(bullets, skillMatches, totalSkillCount)
  {
    if !(bullets == [] && skillMatches == []) {
      var sum := Sum(bullets);
      var m := MaxLength(|bullets|, 1) as real;
      assert 0.0 <= sum / m by {
        assert 0.0 <= sum && 1.0 <= m;
      }
      var k := MaxLength(totalSkillCount, 1) as real;
      assert 0.0 <= (|skillMatches| as real) / k by {
        assert 1.0 <= k;
      }
      assert 0.0 <= ((sum / m) * BulletWeight + ((|skillMatches| as real) / k) * SkillWeight) * 100.0;
    }
  }

  /** Every kept bullet a full match and every skill matched gives 100. */
  lemma PerfectMatchScore(bullets: seq<RankedBullet>, skillMatches: seq<string>)
    requires bullets != [] && forall b <- bullets :: b.score == 1.0
    requires skillMatches != []
    ensures ComputeMatchScore(bullets, skillMatches, |skillMatches|) == 100
  {
    var bulletScore := Sum(bullets) / (MaxLength(|bullets|, 1) as real);
    var skillScore := (|skillMatches| as real) / (MaxLength(|skillMatches|, 1) as real);
    assert bulletScore == 1.0 by {
      SumOfOnes(bullets);
      assert MaxLength(|bullets|, 1) == |bullets|;
    }
    assert skillScore == 1.0 by {
      assert MaxLength(|skillMatches|, 1) == |skillMatches|;
    }
    FullScore(bulletScore, skillScore);
  }

  lemma FullScore(bulletScore: real, skillScore: real)
    requires bulletScore == 1.0 && skillScore == 1.0
    ensures Round((bulletScore * BulletWeight + skillScore * SkillWeight) * 100.0) == 100
  {
    assert (bulletScore * BulletWeight + skillScore * SkillWeight) * 100.0 == 100.0;
  }

  lemma {:induction false} SumOfOnes(bullets: seq<RankedBullet>)
    requires forall b <- bullets :: b.score == 1.0
    ensures Sum(bullets) == |bullets| as real
  {
    if bullets != [] {
      var front := bullets[..|bullets| - 1];
      assert forall b <- front :: b in bullets;
      assert bullets[|bullets| - 1] in bullets;
      SumOfOnes(front);
    }
  }

  /*
   * matchJobDescription
   */

  /** `matchJobDescription` */
  method MatchJobDescription(jobDescription: string, resume: ResumeJson) returns (result: MatchResult)
    ensures var jdTokens := Tokenize(jobDescription);
      && result.rankedBullets == Ranking(Collected(resume.experience), jdTokens)
      && result.skillMatches == MatchSkills(resume.skills, jdTokens)
      && result.matchScore == ComputeMatchScore(result.rankedBullets, result.skillMatches, |resume.skills|)
    ensures |result.rankedBullets| <= MaxRanked && Sorted(result.rankedBullets)
    ensures forall b <- result.rankedBullets :: 0.0 < b.score <= 1.0
    ensures 0 <= result.matchScore <= 100
    ensures Tokenize(jobDescription) == [] ==> result == MatchResult([], [], 0)
  {
    var jdTokens := Tokenize(jobDescription);
    var bulletPayload := CollectBullets(resume.experience);
    var skillMatches := MatchSkills(resume.skills, jdTokens);
    var scored := ScoreBullets(bulletPayload, jdTokens);
    var rankedBullets := Take(SortByScore(Filter(scored, IsPositive)), MaxRanked);
    RankingSorted(bulletPayload, jdTokens);
    RankingMembers(bulletPayload, jdTokens);
    var matchScore := ComputeMatchScore(rankedBullets, skillMatches, |resume.skills|);
    MatchScoreNonNegative(rankedBullets, skillMatches, |resume.skills|);
    if jdTokens == [] {
      assert forall b <- scored :: !IsPositive(b);
      FilterNone(scored, IsPositive);
      FilterNone(resume.skills, InTokens(jdTokens));
    }
    result := MatchResult(rankedBullets, skillMatches, matchScore);
  }
}
