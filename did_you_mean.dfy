/**
  `DidYouMean`: suggestions for a mistyped word. A weighted edit distance
  ranks the known words against the input; the closest few are offered,
  formatted as a short message.
 */
module DidYouMean {

  /** The costs of `editDistance`, from the input string to the desired one. */
  const SwapCost := 0
  const SubstituteCost := 2
  const AddCost := 1
  const DeleteCost := 3
  const SwitchCaseCost := 0
  /** The initial value of every cell filled by the recurrence. */
  const Infinity := 100000000

  /** `getMatch` keeps scores below this ... */
  const SimilarityThreshold := 7
  /** ... and returns at most this many words. */
  const NumMatchesThreshold := 10

  /** `tolower` in the C locale: only `A`..`Z` change. */
  function Lower(c: char): char {
    if 'A' <= c <= 'Z' then (c as int + 32) as char else c
  }

  function Min(x: int, y: int): int {
    if x <= y then x else y
  }

  /**
    One cell of the recurrence from its neighbours: the same or
    case-equal characters cost nothing, other characters a substitution;
    then a swap of two neighbours, an addition and a deletion are tried, in
    that order. `twoBack` is read only when a swap is possible.
   */
  function Combine(a: string, b: string, i: nat, j: nat, diagonal: int, twoBack: int, left: int, up: int): (r: int)
    requires 0 < i <= |a| && 0 < j <= |b|
    ensures diagonal >= 0 && twoBack >= 0 && left >= 0 && up >= 0 ==> r >= 0
  {
    var step := if a[i - 1] == b[j - 1] then diagonal
                else if Lower(a[i - 1]) == Lower(b[j - 1]) then diagonal + SwitchCaseCost
                else diagonal + SubstituteCost;
    var c1 := Min(Infinity, step);
    var c2 := if i >= 2 && j >= 2 && a[i - 1] == b[j - 2] && a[i - 2] == b[j - 1]
              then Min(c1, twoBack + SwapCost) else c1;
    var c3 := Min(c2, left + AddCost);
    Min(c3, up + DeleteCost)
  }

  /**
    The cost of turning the first `i` characters of `a` into the first `j`
    characters of `b`: a weighted, restricted Damerau-Levenshtein distance
    where a change of case and a swap of adjacent characters are free, an
    addition costs 1, a substitution 2 and a deletion 3.
   */
  function Dist(a: string, b: string, i: nat, j: nat): (r: nat)
    requires i <= |a| && j <= |b|
    decreases i + j
  {
    if i == 0 then j * AddCost
    else if j == 0 then i * DeleteCost
    else Combine(a, b, i, j, Dist(a, b, i - 1, j - 1),
                 if i >= 2 && j >= 2 then Dist(a, b, i - 2, j - 2) else 0,
                 Dist(a, b, i, j - 1), Dist(a, b, i - 1, j))
  }

  /** The distance between the whole strings. */
  function Distance(a: string, b: string): (r: nat) {
    Dist(a, b, |a|, |b|)
  }

  /** Row `i` of the recurrence is stored in row `r` of `C`. */
  ghost predicate RowHolds(C: array2<int>, r: nat, a: string, b: string, i: nat)
    reads C
    requires r < C.Length0 && C.Length1 == |b| + 1 && i <= |a|
  {
    forall k | 0 <= k <= |b| :: C[r, k] == Dist(a, b, i, k)
  }

  /**
    `editDistance`: the recurrence computed row by row in a table of three
    rows, row `i` in `C[i % 3]`, reading row `i - 1` from `C[(i + 2) % 3]`
    and row `i - 2` from `C[(i + 1) % 3]`.
   */
  method EditDistance(a: string, b: string) returns (d: int)
    ensures d == Distance(a, b)
  {
    var len1 := |a|;
    var len2 := |b|;
    var C := new int[3, len2 + 1];
    for j := 0 to len2 + 1
      invariant forall k | 0 <= k < j :: C[0, k] == Dist(a, b, 0, k)
    {
      C[0, j] := j * AddCost;
    }
    for i := 1 to len1 + 1
      invariant RowHolds(C, (i + 2) % 3, a, b, i - 1)
      invariant i >= 2 ==> RowHolds(C, (i + 1) % 3, a, b, i - 2)
    {
      FillRow(C, a, b, i);
      assert (i + 1 + 2) % 3 == i % 3 && (i + 1 + 1) % 3 == (i + 2) % 3;
    }
    assert (len1 + 1 + 2) % 3 == len1 % 3;
    d := C[len1 % 3, len2];
  }

  /** The body of the outer loop of `editDistance`: row `i` into `C[i % 3]`. */
  method FillRow(C: array2<int>, a: string, b: string, i: nat)
    requires 0 < i <= |a| && C.Length0 == 3 && C.Length1 == |b| + 1
    requires RowHolds(C, (i + 2) % 3, a, b, i - 1)
    requires i >= 2 ==> RowHolds(C, (i + 1) % 3, a, b, i - 2)
    modifies C
    ensures RowHolds(C, i % 3, a, b, i)
    ensures RowHolds(C, (i + 2) % 3, a, b, i - 1)
    ensures i >= 2 ==> RowHolds(C, (i + 1) % 3, a, b, i - 2)
  {
    var len2 := |b|;
    var cur := i % 3;
    var prv := (i + 2) % 3;
    var pr2 := (i + 1) % 3;
    assert cur != prv && cur != pr2;
    C[cur, 0] := i * DeleteCost;
    for j := 1 to len2 + 1
      invariant forall k | 0 <= k < j :: C[cur, k] == Dist(a, b, i, k)
      invariant RowHolds(C, prv, a, b, i - 1)
      invariant i >= 2 ==> RowHolds(C, pr2, a, b, i - 2)
    {
      var cost := CellCost(a, b, i, j, C[prv, j - 1], if i >= 2 && j >= 2 then C[pr2, j - 2] else 0,
                           C[cur, j - 1], C[prv, j]);
      C[cur, j] := cost;
    }
  }

  /**
    The body of the inner loop of `editDistance`: start from `Infinity`
    and lower the cell by each way of reaching it from its neighbours.
   */
  method CellCost(a: string, b: string, i: nat, j: nat, diagonal: int, twoBack: int, left: int, up: int)
    returns (cost: int)
    requires 0 < i <= |a| && 0 < j <= |b|
    ensures cost == Combine(a, b, i, j, diagonal, twoBack, left, up)
  {
    cost := Infinity;
    if a[i - 1] == b[j - 1] {
      cost := Min(cost, diagonal);
    } else if Lower(a[i - 1]) == Lower(b[j - 1]) {
      cost := Min(cost, diagonal + SwitchCaseCost);
    } else {
      cost := Min(cost, diagonal + SubstituteCost);
    }
    if i >= 2 && j >= 2 && a[i - 1] == b[j - 2] && a[i - 2] == b[j - 1] {
      cost := Min(cost, twoBack + SwapCost);
    }
    cost := Min(cost, left + AddCost);
    cost := Min(cost, up + DeleteCost);
  }

  /** From or to the empty string only additions or only deletions are possible. */
  lemma DistanceFromEmpty(b: string)
    ensures Distance("", b) == |b|
  {
  }

  lemma DistanceToEmpty(a: string)
    ensures Distance(a, "") == 3 * |a|
  {
  }

  /** The first row and the first column: only additions, or only deletions. */
  lemma DistBase(a: string, b: string, i: nat, j: nat)
    requires i <= |a| && j <= |b|
    ensures Dist(a, b, 0, j) == j
    ensures i > 0 ==> Dist(a, b, i, 0) == 3 * i
  {
  }

  /** Each way of reaching a cell bounds it from above. */
  lemma CombineAtMost(a: string, b: string, i: nat, j: nat, diagonal: int, twoBack: int, left: int, up: int)
    requires 0 < i <= |a| && 0 < j <= |b|
    ensures var c := Combine(a, b, i, j, diagonal, twoBack, left, up);
      && c <= Infinity
      && c <= diagonal + (if Lower(a[i - 1]) == Lower(b[j - 1]) then 0 else SubstituteCost)
      && (i >= 2 && j >= 2 && a[i - 1] == b[j - 2] && a[i - 2] == b[j - 1] ==> c <= twoBack)
      && c <= left + AddCost
      && c <= up + DeleteCost
  {
  }

  /** Deleting all of `a` and adding all of `b` is always possible. */
  lemma {:induction false} DistUpperBound(a: string, b: string, i: nat, j: nat)
    requires i <= |a| && j <= |b|
    ensures Dist(a, b, i, j) <= 3 * i + j
    decreases j
  {
    DistBase(a, b, i, j);
    if i > 0 && j > 0 {
      var twoBack := if i >= 2 && j >= 2 then Dist(a, b, i - 2, j - 2) else 0;
      CombineAtMost(a, b, i, j, Dist(a, b, i - 1, j - 1), twoBack, Dist(a, b, i, j - 1), Dist(a, b, i - 1, j));
      DistUpperBound(a, b, i, j - 1);
    }
  }

  /** `0 <= editDistance(a, b) <= 3|a| + |b|` */
  lemma DistanceBounds(a: string, b: string)
    ensures 0 <= Distance(a, b) <= 3 * |a| + |b|
  {
    DistUpperBound(a, b, |a|, |b|);
  }

  /** Strings of one length that agree up to ASCII case. */
  predicate SameUpToCase(a: string, b: string) {
    |a| == |b| && forall k | 0 <= k < |a| :: Lower(a[k]) == Lower(b[k])
  }

  lemma {:induction false} DistCaseOnly(a: string, b: string, i: nat)
    requires i <= |a| && i <= |b|
    requires forall k | 0 <= k < i :: Lower(a[k]) == Lower(b[k])
    ensures Dist(a, b, i, i) == 0
  {
    if i > 0 {
      var twoBack := if i >= 2 then Dist(a, b, i - 2, i - 2) else 0;
      CombineAtMost(a, b, i, i, Dist(a, b, i - 1, i - 1), twoBack, Dist(a, b, i, i - 1), Dist(a, b, i - 1, i));
      DistCaseOnly(a, b, i - 1);
    }
  }

  /** A change of case costs nothing: equal strings, or strings equal up to case, are at distance 0. */
  lemma DistanceUpToCase(a: string, b: string)
    requires SameUpToCase(a, b)
    ensures Distance(a, b) == 0
  {
    DistCaseOnly(a, b, |a|);
  }

  lemma DistanceToSelf(a: string)
    ensures Distance(a, a) == 0
  {
    DistanceUpToCase(a, a);
  }

  /** The distance is not symmetric: adding costs 1 and deleting 3; swapping neighbours is free. */
  lemma DistanceExamples()
    ensures Distance("", "ab") == 2 && Distance("ab", "") == 6
    ensures Distance("ab", "ba") == 0
    ensures Distance("Ab", "aB") == 0
  {
    DistanceToSelf("");
    DistanceUpToCase("Ab", "aB");
    CombineAtMost("ab", "ba", 2, 2, Dist("ab", "ba", 1, 1), Dist("ab", "ba", 0, 0), Dist("ab", "ba", 2, 1), Dist("ab", "ba", 1, 2));
  }

  /* ---------------------------------------------------------------- getMatch */

  /** A word's score against the input: 0 for a word the input is a prefix of, otherwise one more than the distance. */
  function Score(input: string, w: string): (r: nat) {
    if input <= w then 0 else Distance(input, w) + 1
  }

  /** The lexicographic order of `std::string`, on character codes; a proper prefix comes first. */
  predicate StrLess(x: string, y: string) {
    if |x| == 0 then |y| > 0
    else if |y| == 0 then false
    else x[0] < y[0] || (x[0] == y[0] && StrLess(x[1..], y[1..]))
  }

  /** A (score, word) pair, the element type of the ordered set `scores`. */
  type Scored = (int, string)

  /** The order of `std::pair`: by score, then by word. */
  predicate Less(p: Scored, q: Scored) {
    p.0 < q.0 || (p.0 == q.0 && StrLess(p.1, q.1))
  }

  predicate StrictlySorted(ps: seq<Scored>) {
    forall k, l | 0 <= k < l < |ps| :: Less(ps[k], ps[l])
  }

  lemma {:induction false} StrLessIrreflexive(x: string)
    ensures !StrLess(x, x)
    decreases |x|
  {
    if |x| > 0 {
      StrLessIrreflexive(x[1..]);
    }
  }

  lemma {:induction false} StrLessTransitive(x: string, y: string, z: string)
    requires StrLess(x, y) && StrLess(y, z)
    ensures StrLess(x, z)
    decreases |x|
  {
    if |x| > 0 && x[0] == y[0] && y[0] == z[0] {
      StrLessTransitive(x[1..], y[1..], z[1..]);
    }
  }

  lemma {:induction false} StrLessTotal(x: string, y: string)
    requires x != y
    ensures StrLess(x, y) || StrLess(y, x)
    decreases |x|
  {
    if |x| > 0 && |y| > 0 && x[0] == y[0] {
      assert x == [x[0]] + x[1..] && y == [y[0]] + y[1..];
      StrLessTotal(x[1..], y[1..]);
    }
  }

  /** `Less` is a strict total order, as `std::set` requires. */
  lemma LessStrictTotal(p: Scored, q: Scored, r: Scored)
    ensures !Less(p, p)
    ensures Less(p, q) && Less(q, r) ==> Less(p, r)
    ensures p != q ==> Less(p, q) || Less(q, p)
  {
    StrLessIrreflexive(p.1);
    if Less(p, q) && Less(q, r) && p.0 == q.0 && q.0 == r.0 {
      StrLessTransitive(p.1, q.1, r.1);
    }
    if p != q && p.0 == q.0 {
      StrLessTotal(p.1, q.1);
    }
  }

  /** `scores.insert(p)` on the ordered set kept as a strictly sorted sequence. */
  function Insert(ps: seq<Scored>, p: Scored): (r: seq<Scored>)
    ensures forall q :: q in r <==> q in ps || q == p
  {
    if |ps| == 0 then [p]
    else if ps[0] == p then ps
    else if Less(p, ps[0]) then [p] + ps
    else [ps[0]] + Insert(ps[1..], p)
  }

  lemma {:induction false} InsertSorted(ps: seq<Scored>, p: Scored)
    requires StrictlySorted(ps)
    ensures StrictlySorted(Insert(ps, p))
  {
    if |ps| > 0 && ps[0] != p {
      if Less(p, ps[0]) {
        forall l | 0 < l < |ps| ensures Less(p, ps[l]) {
          LessStrictTotal(p, ps[0], ps[l]);
        }
      } else {
        var rest := Insert(ps[1..], p);
        InsertSorted(ps[1..], p);
        LessStrictTotal(ps[0], p, p);
        assert Less(ps[0], p);
        forall l | 0 <= l < |rest| ensures Less(ps[0], rest[l]) {
          assert rest[l] in ps[1..] || rest[l] == p;
        }
      }
    }
  }

  /** The second loop's test: a score below the threshold and at most one above the best. */
  predicate Close(p: Scored, minScore: int) {
    p.0 < SimilarityThreshold && p.0 <= minScore + 1
  }

  /** The pairs the second loop keeps, in the order it visits them. */
  function Kept(ps: seq<Scored>, minScore: int): (r: seq<Scored>)
    ensures forall q :: q in r <==> q in ps && Close(q, minScore)
  {
    if |ps| == 0 then []
    else Kept(ps[..|ps| - 1], minScore) + (if Close(ps[|ps| - 1], minScore) then [ps[|ps| - 1]] else [])
  }

  lemma {:induction false} KeptSorted(ps: seq<Scored>, minScore: int)
    requires StrictlySorted(ps)
    ensures StrictlySorted(Kept(ps, minScore))
  {
    if |ps| > 0 {
      var front := ps[..|ps| - 1];
      KeptSorted(front, minScore);
      var kf := Kept(front, minScore);
      forall k | 0 <= k < |kf| ensures Less(kf[k], ps[|ps| - 1]) {
        assert kf[k] in front;
      }
    }
  }

  /** The words of the pairs, in order. */
  function Names(ps: seq<Scored>): (r: seq<string>)
    ensures |r| == |ps| && forall k | 0 <= k < |ps| :: r[k] == ps[k].1
  {
    if |ps| == 0 then [] else Names(ps[..|ps| - 1]) + [ps[|ps| - 1].1]
  }

  /** `scores` holds exactly one pair per word of `ws`, that word's score with it. */
  predicate ScoresOf(scores: seq<Scored>, input: string, ws: set<string>) {
    && (forall k | 0 <= k < |scores| :: scores[k].1 in ws && scores[k].0 == Score(input, scores[k].1))
    && (forall w | w in ws :: (Score(input, w), w) in scores)
  }

  lemma ScoresOfInsert(scores: seq<Scored>, input: string, ws: set<string>, s: string)
    requires ScoresOf(scores, input, ws)
    ensures ScoresOf(Insert(scores, (Score(input, s), s)), input, ws + {s})
  {
    var r := Insert(scores, (Score(input, s), s));
    forall k | 0 <= k < |r| ensures r[k].1 in ws + {s} && r[k].0 == Score(input, r[k].1) {
      assert r[k] in scores || r[k] == (Score(input, s), s);
    }
  }

  /** A word `getMatch` may offer: its score is below the threshold and at most one above every word's score. */
  predicate Qualifies(input: string, words: set<string>, w: string) {
    Score(input, w) < SimilarityThreshold && forall v | v in words :: Score(input, w) <= Score(input, v) + 1
  }

  /**
    The first loop of `getMatch`: every word is scored and its pair inserted
    into the ordered set `scores`, unless the input itself is met.
   */
  method ScoreWords(words: set<string>, input: string) returns (found: bool, scores: seq<Scored>)
    ensures found <==> input in words
    ensures !found ==> StrictlySorted(scores) && ScoresOf(scores, input, words)
  {
    found := false;
    scores := [];
    var remaining := words;
    while remaining != {}
      invariant remaining <= words
      invariant !found
      invariant input !in words - remaining
      invariant StrictlySorted(scores) && ScoresOf(scores, input, words - remaining)
      decreases remaining
    {
      var s :| s in remaining;
      if s == input {
        found := true;
        return;
      }
      var score: int;
      if input <= s {
        score := 0;
      } else {
        var d := EditDistance(input, s);
        score := d + 1;
      }
      assert score == Score(input, s);
      InsertSorted(scores, (score, s));
      ScoresOfInsert(scores, input, words - remaining, s);
      scores := Insert(scores, (score, s));
      assert words - (remaining - {s}) == (words - remaining) + {s};
      remaining := remaining - {s};
    }
    assert words - remaining == words;
  }

  /** The second loop of `getMatch`: the words of the pairs close to the best score, in order. */
  method KeepClose(scores: seq<Scored>, minScore: int) returns (ret: seq<string>)
    ensures ret == Names(Kept(scores, minScore))
  {
    ret := [];
    for i := 0 to |scores|
      invariant ret == Names(Kept(scores[..i], minScore))
    {
      assert scores[..i + 1][..i] == scores[..i];
      if Close(scores[i], minScore) {
        ret := ret + [scores[i].1];
      }
    }
    assert scores[..|scores|] == scores;
  }

  /**
    `getMatch`: the input itself when it is a known word; otherwise the
    qualifying words in increasing order of (score, word), at most ten of
    them, and no qualifying word is left out unless ten that come before it
    are offered.
   */
  method GetMatch(words: set<string>, input: string) returns (ret: seq<string>)
    requires words != {}
    ensures input in words ==> ret == [input]
    ensures input !in words ==> |ret| <= NumMatchesThreshold
    ensures input !in words ==> forall w | w in ret :: w in words && Qualifies(input, words, w)
    ensures input !in words ==>
      forall k, l | 0 <= k < l < |ret| :: Less((Score(input, ret[k]), ret[k]), (Score(input, ret[l]), ret[l]))
    ensures input !in words ==>
      forall w | w in words && Qualifies(input, words, w) && w !in ret ::
        |ret| == NumMatchesThreshold && forall v | v in ret :: Less((Score(input, v), v), (Score(input, w), w))
    ensures input !in words ==> (ret == [] <==> forall w | w in words :: Score(input, w) >= SimilarityThreshold)
  {
    var found, scores := ScoreWords(words, input);
    if found {
      ret := [input];
      return;
    }
    var w0 :| w0 in words;
    assert (Score(input, w0), w0) in scores;
    var minScore := scores[0].0;
    ret := KeepClose(scores, minScore);
    if |ret| > NumMatchesThreshold {
      ret := ret[..NumMatchesThreshold];
    }
    MatchProperties(words, input, scores, ret);
  }

  /** The first pair of `scores` holds a word and the least score of all words. */
  lemma FirstIsBest(words: set<string>, input: string, scores: seq<Scored>)
    requires |scores| > 0 && StrictlySorted(scores) && ScoresOf(scores, input, words)
    ensures scores[0].1 in words && scores[0].0 == Score(input, scores[0].1)
    ensures forall v | v in words :: scores[0].0 <= Score(input, v)
  {
    forall v | v in words ensures scores[0].0 <= Score(input, v) {
      var t :| 0 <= t < |scores| && scores[t] == (Score(input, v), v);
    }
  }

  /** The pairs kept by the filter: each is a word's own pair, close to the best score. */
  lemma KeptFacts(words: set<string>, input: string, scores: seq<Scored>, kept: seq<Scored>, minScore: int)
    requires ScoresOf(scores, input, words)
    requires kept == Kept(scores, minScore)
    ensures forall k | 0 <= k < |kept| ::
      kept[k].1 in words && kept[k].0 == Score(input, kept[k].1) && Close(kept[k], minScore)
    ensures forall w | w in words && Close((Score(input, w), w), minScore) :: (Score(input, w), w) in kept
  {
    forall k | 0 <= k < |kept|
      ensures kept[k].1 in words && kept[k].0 == Score(input, kept[k].1) && Close(kept[k], minScore)
    {
      assert kept[k] in scores;
    }
  }

  /** The words offered, the first ten of the kept ones, are each qualifying and in order. */
  lemma OfferedQualify(words: set<string>, input: string, kept: seq<Scored>, minScore: int, ret: seq<string>)
    requires forall v | v in words :: minScore <= Score(input, v)
    requires StrictlySorted(kept)
    requires forall k | 0 <= k < |kept| ::
      kept[k].1 in words && kept[k].0 == Score(input, kept[k].1) && Close(kept[k], minScore)
    requires |ret| <= |kept| && forall k | 0 <= k < |ret| :: ret[k] == kept[k].1
    ensures forall w | w in ret :: w in words && Qualifies(input, words, w)
    ensures forall k, l | 0 <= k < l < |ret| :: Less((Score(input, ret[k]), ret[k]), (Score(input, ret[l]), ret[l]))
  {
    forall w | w in ret ensures w in words && Qualifies(input, words, w) {
      var k :| 0 <= k < |ret| && ret[k] == w;
    }
  }

  /** A qualifying word missing from the offer comes after ten offered words. */
  lemma NoneMissed(words: set<string>, input: string, kept: seq<Scored>, minScore: int, ret: seq<string>)
    requires exists w0 | w0 in words :: Score(input, w0) == minScore
    requires StrictlySorted(kept)
    requires forall k | 0 <= k < |kept| :: kept[k].0 == Score(input, kept[k].1)
    requires forall w | w in words && Close((Score(input, w), w), minScore) :: (Score(input, w), w) in kept
    requires ret == if |kept| > NumMatchesThreshold then Names(kept)[..NumMatchesThreshold] else Names(kept)
    ensures forall w | w in words && Qualifies(input, words, w) && w !in ret ::
      |ret| == NumMatchesThreshold && forall v | v in ret :: Less((Score(input, v), v), (Score(input, w), w))
  {
    forall w | w in words && Qualifies(input, words, w) && w !in ret
      ensures |ret| == NumMatchesThreshold && forall v | v in ret :: Less((Score(input, v), v), (Score(input, w), w))
    {
      var w0 :| w0 in words && Score(input, w0) == minScore;
      assert (Score(input, w), w) in kept;
      var t :| 0 <= t < |kept| && kept[t] == (Score(input, w), w);
      assert t >= |ret|;
      forall v | v in ret ensures Less((Score(input, v), v), (Score(input, w), w)) {
        var k :| 0 <= k < |ret| && ret[k] == v;
        assert kept[k].1 == v;
      }
    }
  }

  /** What the filter and the truncation of `getMatch` make of the sorted scores. */
  lemma MatchProperties(words: set<string>, input: string, scores: seq<Scored>, ret: seq<string>)
    requires input !in words
    requires |scores| > 0 && StrictlySorted(scores) && ScoresOf(scores, input, words)
    requires var names := Names(Kept(scores, scores[0].0));
      ret == if |names| > NumMatchesThreshold then names[..NumMatchesThreshold] else names
    ensures |ret| <= NumMatchesThreshold
    ensures forall w | w in ret :: w in words && Qualifies(input, words, w)
    ensures forall k, l | 0 <= k < l < |ret| :: Less((Score(input, ret[k]), ret[k]), (Score(input, ret[l]), ret[l]))
    ensures forall w | w in words && Qualifies(input, words, w) && w !in ret ::
      |ret| == NumMatchesThreshold && forall v | v in ret :: Less((Score(input, v), v), (Score(input, w), w))
    ensures ret == [] <==> forall w | w in words :: Score(input, w) >= SimilarityThreshold
  {
    var minScore := scores[0].0;
    var kept := Kept(scores, minScore);
    KeptSorted(scores, minScore);
    FirstIsBest(words, input, scores);
    KeptFacts(words, input, scores, kept, minScore);
    OfferedQualify(words, input, kept, minScore, ret);
    NoneMissed(words, input, kept, minScore, ret);
    var w0 := scores[0].1;
    if ret == [] {
      assert w0 !in ret;
    }
  }

  /* ------------------------------------------------------- getMatchAsString */

  /** `n` line ends; none for a count that is not positive. */
  function Newlines(n: int): (r: string)
    ensures |r| == if n > 0 then n else 0
    ensures forall k | 0 <= k < |r| :: r[k] == '\n'
    decreases if n > 0 then n else 0
  {
    if n <= 0 then "" else Newlines(n - 1) + "\n"
  }

  /** Each match on a line of its own, indented by eight spaces. */
  function Listing(matches: seq<string>): string {
    if |matches| == 0 then "" else Listing(matches[..|matches| - 1]) + "\n        " + matches[|matches| - 1]
  }

  /** The message of `getMatchAsString` for the given matches: nothing at all when there are none. */
  function Message(matches: seq<string>, prefixNewLines: int, suffixNewLines: int): (r: string) {
    if |matches| == 0 then ""
    else
      Newlines(prefixNewLines)
      + (if |matches| == 1 then "Did you mean this?" else "Did you mean any of these?")
      + Listing(matches)
      + Newlines(suffixNewLines)
  }

  /** The message is empty exactly when there is nothing to suggest. */
  lemma MessageEmpty(matches: seq<string>, prefixNewLines: int, suffixNewLines: int)
    ensures Message(matches, prefixNewLines, suffixNewLines) == "" <==> matches == []
  {
    if matches != [] {
      var header := if |matches| == 1 then "Did you mean this?" else "Did you mean any of these?";
      assert |Message(matches, prefixNewLines, suffixNewLines)| >= |header| > 0;
    }
  }

  /** `w` is listed at position `i` of `text`: a line end, eight spaces, then `w`. */
  predicate ListedAt(text: string, i: int, w: string) {
    0 <= i && i + 9 + |w| <= |text| && text[i..i + 9 + |w|] == "\n        " + w
  }

  /** Every match is listed, on its own indented line. */
  lemma {:induction false} ListingShowsEach(matches: seq<string>, k: nat)
    requires k < |matches|
    ensures exists i :: ListedAt(Listing(matches), i, matches[k])
  {
    var front := matches[..|matches| - 1];
    var line := "\n        " + matches[|matches| - 1];
    assert Listing(matches) == Listing(front) + line;
    if k == |matches| - 1 {
      assert ListedAt(Listing(matches), |Listing(front)|, matches[k]);
    } else {
      ListingShowsEach(front, k);
      var i :| ListedAt(Listing(front), i, front[k]);
      assert Listing(matches)[i..i + 9 + |matches[k]|] == Listing(front)[i..i + 9 + |front[k]|];
      assert ListedAt(Listing(matches), i, matches[k]);
    }
  }

  /** `while (n-- > 0) oss << endl;` */
  method AppendNewlines(s: string, n: int) returns (t: string)
    ensures t == s + Newlines(n)
  {
    t := s;
    var p := n;
    while p > 0
      invariant p <= n && (p >= 0 || p == n)
      invariant t == s + Newlines(n - p)
    {
      t := t + "\n";
      p := p - 1;
    }
  }

  /** The loop of `getMatchAsString` that writes one line per match. */
  method AppendListing(s: string, matches: seq<string>) returns (t: string)
    ensures t == s + Listing(matches)
  {
    t := s;
    for i := 0 to |matches|
      invariant t == s + Listing(matches[..i])
    {
      assert matches[..i + 1][..i] == matches[..i];
      t := t + "\n        " + matches[i];
    }
    assert matches[..|matches|] == matches;
  }

  /**
    The formatting part of `getMatchAsString`: the newlines before, the
    question, one line per match and the newlines after, all only when
    there is a match.
   */
  method FormatMatches(matches: seq<string>, prefixNewLines: int, suffixNewLines: int) returns (s: string)
    ensures s == Message(matches, prefixNewLines, suffixNewLines)
  {
    s := "";
    if |matches| > 0 {
      s := AppendNewlines(s, prefixNewLines);
      if |matches| == 1 {
        s := s + "Did you mean this?";
      } else {
        s := s + "Did you mean any of these?";
      }
      s := AppendListing(s, matches);
      s := AppendNewlines(s, suffixNewLines);
    }
  }

  /**
    `getMatchAsString`: the message for the matches of `getMatch` (returned
    as the ghost `matches`, with all of `getMatch`'s guarantees); the known
    input itself when it is a word, and nothing when no word scores below
    the threshold.
   */
  method GetMatchAsString(words: set<string>, input: string, prefixNewLines: int, suffixNewLines: int)
    returns (s: string, ghost matches: seq<string>)
    requires words != {}
    ensures s == Message(matches, prefixNewLines, suffixNewLines)
    ensures input in words ==> matches == [input]
    ensures input !in words ==> |matches| <= NumMatchesThreshold
    ensures input !in words ==> forall w | w in matches :: w in words && Qualifies(input, words, w)
    ensures input !in words ==>
      forall k, l | 0 <= k < l < |matches| ::
        Less((Score(input, matches[k]), matches[k]), (Score(input, matches[l]), matches[l]))
    ensures input !in words ==>
      forall w | w in words && Qualifies(input, words, w) && w !in matches ::
        |matches| == NumMatchesThreshold
        && forall v | v in matches :: Less((Score(input, v), v), (Score(input, w), w))
    ensures input !in words ==> (s == "" <==> forall w | w in words :: Score(input, w) >= SimilarityThreshold)
  {
    var found := GetMatch(words, input);
    matches := found;
    s := FormatMatches(found, prefixNewLines, suffixNewLines);
    MessageEmpty(found, prefixNewLines, suffixNewLines);
  }
}
