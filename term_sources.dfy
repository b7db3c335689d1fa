/**
  Where the enumerator's candidate terms come from, and in which order it
  tries them.

  `TermTupleEnumeratorBasic::prepareTerms` walks the solver's ground terms of
  a type and keeps the first eligible term of every equivalence class;
  `runLearning` orders a variable's candidates by descending predicted score,
  keeping database order among equal scores.
 */
module TermSources {
  import opened Wrappers
  import opened Terms

  /**
    What `prepareTerms` asks the solver: the ground terms of each type in
    database order (`getNumTypeGroundTerms` / `getTypeGroundTerm`), the
    representative of each term's equivalence class (`getRepresentative`),
    the terms that contain instantiation constants (`hasInstConstAttr`) and
    whether counterexample-guided instantiation is on (`options::cegqi()`).
    A type with no entry has no ground terms, and a term with no entry in
    `representatives` is its own representative, as for a term the
    equality engine does not know.
   */
  datatype GroundTermDatabase = GroundTermDatabase(
    groundTerms: map<TypeNode, seq<Term>>,
    representatives: map<Term, Term>,
    instConstTerms: set<Term>,
    cegqi: bool)

  function GroundTerms(db: GroundTermDatabase, ty: TypeNode): seq<Term> {
    if ty in db.groundTerms then db.groundTerms[ty] else []
  }

  function Representative(db: GroundTermDatabase, t: Term): Term {
    if t in db.representatives then db.representatives[t] else t
  }

  /** A ground term may be used unless cegqi is on and it holds instantiation constants. */
  predicate Eligible(db: GroundTermDatabase, t: Term) {
    !db.cegqi || t !in db.instConstTerms
  }

  /** Some eligible term among the first `i` has representative `r`. */
  predicate RepBefore(db: GroundTermDatabase, gts: seq<Term>, r: Term, i: nat)
    requires i <= |gts|
  {
    i > 0 && (RepBefore(db, gts, r, i - 1) || (Eligible(db, gts[i - 1]) && Representative(db, gts[i - 1]) == r))
  }

  lemma {:induction false} RepBeforeIff(db: GroundTermDatabase, gts: seq<Term>, r: Term, i: nat)
    requires i <= |gts|
    ensures RepBefore(db, gts, r, i) <==> exists k | 0 <= k < i :: Eligible(db, gts[k]) && Representative(db, gts[k]) == r
  {
    if i > 0 {
      RepBeforeIff(db, gts, r, i - 1);
      if RepBefore(db, gts, r, i - 1) {
        var k :| 0 <= k < i - 1 && Eligible(db, gts[k]) && Representative(db, gts[k]) == r;
        assert 0 <= k < i;
      }
    }
  }

  /** `gts[j]` is eligible and no eligible term before it has the same representative. */
  predicate FirstOfRep(db: GroundTermDatabase, gts: seq<Term>, j: nat)
    requires j < |gts|
  {
    Eligible(db, gts[j]) && !RepBefore(db, gts, Representative(db, gts[j]), j)
  }

  lemma FirstOfRepIff(db: GroundTermDatabase, gts: seq<Term>, j: nat)
    requires j < |gts|
    ensures FirstOfRep(db, gts, j) <==>
            && Eligible(db, gts[j])
            && forall i | 0 <= i < j :: Eligible(db, gts[i]) ==> Representative(db, gts[i]) != Representative(db, gts[j])
  {
    RepBeforeIff(db, gts, Representative(db, gts[j]), j);
  }

  /** The representatives of the eligible terms among the first `k`: the keys of `reps_found`. */
  function RepsSeen(db: GroundTermDatabase, gts: seq<Term>, k: nat): set<Term>
    requires k <= |gts|
  {
    set i | 0 <= i < k && Eligible(db, gts[i]) :: Representative(db, gts[i])
  }

  /** The candidate list for the first `k` ground terms: the first of each representative, in order. */
  function KeptTerms(db: GroundTermDatabase, gts: seq<Term>, k: nat): (r: seq<Term>)
    requires k <= |gts|
  {
    if k == 0 then []
    else KeptTerms(db, gts, k - 1) + (if FirstOfRep(db, gts, k - 1) then [gts[k - 1]] else [])
  }

  /**
    The candidate list the scan of `prepareTerms` ends with, once it has
    kept `kept` from the first `j` ground terms: the same list as
    `KeptTerms`, built front to back.
   */
  function KeptFrom(db: GroundTermDatabase, gts: seq<Term>, j: nat, kept: seq<Term>): seq<Term>
    requires j <= |gts|
    decreases |gts| - j
  {
    if j == |gts| then kept
    else KeptFrom(db, gts, j + 1, kept + (if FirstOfRep(db, gts, j) then [gts[j]] else []))
  }

  /** Scanning on from the list kept so far ends with the whole candidate list. */
  lemma {:induction false} KeptFromKeptTerms(db: GroundTermDatabase, gts: seq<Term>, j: nat)
    requires j <= |gts|
    ensures KeptFrom(db, gts, j, KeptTerms(db, gts, j)) == KeptTerms(db, gts, |gts|)
    decreases |gts| - j
  {
    if j < |gts| {
      KeptFromKeptTerms(db, gts, j + 1);
    }
  }

  /** Checking `reps_found` is the first-of-representative test. */
  lemma RepsSeenStep(db: GroundTermDatabase, gts: seq<Term>, k: nat)
    requires k < |gts|
    ensures FirstOfRep(db, gts, k) <==> Eligible(db, gts[k]) && Representative(db, gts[k]) !in RepsSeen(db, gts, k)
    ensures RepsSeen(db, gts, k + 1)
            == RepsSeen(db, gts, k) + (if Eligible(db, gts[k]) then {Representative(db, gts[k])} else {})
  {
    FirstOfRepIff(db, gts, k);
    if Eligible(db, gts[k]) && Representative(db, gts[k]) in RepsSeen(db, gts, k) {
      var i :| 0 <= i < k && Eligible(db, gts[i]) && Representative(db, gts[i]) == Representative(db, gts[k]);
    }
  }

  /** The candidate list holds only eligible terms of the database, at most one per ground term. */
  lemma {:induction false} KeptTermsEligible(db: GroundTermDatabase, gts: seq<Term>, k: nat)
    requires k <= |gts|
    ensures var r := KeptTerms(db, gts, k);
      && |r| <= k
      && forall a | 0 <= a < |r| :: Eligible(db, r[a]) && r[a] in gts[..k]
  {
    if k > 0 {
      KeptTermsEligible(db, gts, k - 1);
      assert gts[..k - 1] == gts[..k][..k - 1];
      assert gts[k - 1] == gts[..k][k - 1];
    }
  }

  /** No two terms of `r` share a representative. */
  ghost predicate DistinctReps(db: GroundTermDatabase, r: seq<Term>) {
    forall a, b | 0 <= a < b < |r| :: Representative(db, r[a]) != Representative(db, r[b])
  }

  /** No two candidates of a type share a representative. */
  lemma {:induction false} KeptTermsDistinctReps(db: GroundTermDatabase, gts: seq<Term>, k: nat)
    requires k <= |gts|
    ensures DistinctReps(db, KeptTerms(db, gts, k))
  {
    if k > 0 {
      KeptTermsDistinctReps(db, gts, k - 1);
      var prev := KeptTerms(db, gts, k - 1);
      if FirstOfRep(db, gts, k - 1) {
        FirstOfRepIff(db, gts, k - 1);
        KeptTermsEligible(db, gts, k - 1);
        forall a | 0 <= a < |prev|
          ensures Representative(db, prev[a]) != Representative(db, gts[k - 1])
        {
          var i :| 0 <= i < k - 1 && gts[..k - 1][i] == prev[a];
          assert gts[i] == prev[a] && Eligible(db, gts[i]);
        }
        var r := KeptTerms(db, gts, k);
        assert r == prev + [gts[k - 1]];
        forall a, b | 0 <= a < b < |r| ensures Representative(db, r[a]) != Representative(db, r[b]) {
          if b < |prev| {
            assert r[a] == prev[a] && r[b] == prev[b];
          }
        }
      } else {
        assert KeptTerms(db, gts, k) == prev;
      }
    }
  }

  /** Every eligible ground term is represented by some candidate. */
  lemma {:induction false} KeptTermsCover(db: GroundTermDatabase, gts: seq<Term>, k: nat)
    requires k <= |gts|
    ensures var r := KeptTerms(db, gts, k);
      forall j | 0 <= j < k && Eligible(db, gts[j]) ::
        exists a | 0 <= a < |r| :: Representative(db, r[a]) == Representative(db, gts[j])
  {
    if k > 0 {
      KeptTermsCover(db, gts, k - 1);
      var prev := KeptTerms(db, gts, k - 1);
      var r := KeptTerms(db, gts, k);
      forall j | 0 <= j < k && Eligible(db, gts[j])
        ensures exists a | 0 <= a < |r| :: Representative(db, r[a]) == Representative(db, gts[j])
      {
        var j' := j;
        if j == k - 1 && !FirstOfRep(db, gts, k - 1) {
          FirstOfRepIff(db, gts, k - 1);
          j' :| 0 <= j' < k - 1 && Eligible(db, gts[j'])
                && Representative(db, gts[j']) == Representative(db, gts[k - 1]);
        }
        if j' < k - 1 {
          var a :| 0 <= a < |prev| && Representative(db, prev[a]) == Representative(db, gts[j']);
          assert r[a] == prev[a];
        } else {
          assert r[|prev|] == gts[k - 1];
        }
      }
      assert r == KeptTerms(db, gts, k);
    }
  }

  /** The identity permutation `0 .. n-1` (`std::iota`). */
  function Identity(n: nat): (r: seq<nat>)
    ensures |r| == n && forall i | 0 <= i < n :: r[i] == i
  {
    seq(n, i => i)
  }

  /**
    `a` precedes `b` in `runLearning`'s order: a strictly higher score, or an
    equal score and an earlier original position (the sort is stable).
   */
  predicate Before(scores: seq<int>, a: nat, b: nat)
    requires a < |scores| && b < |scores|
  {
    scores[a] > scores[b] || (scores[a] == scores[b] && a < b)
  }

  ghost predicate Ordered(r: seq<nat>, scores: seq<int>) {
    && (forall i | 0 <= i < |r| :: r[i] < |scores|)
    && forall i, j | 0 <= i < j < |r| :: Before(scores, r[i], r[j])
  }

  /** Insert `x` after every element scoring at least as high. */
  function Insert(x: nat, r: seq<nat>, scores: seq<int>): (s: seq<nat>)
    requires x < |scores| && forall i | 0 <= i < |r| :: r[i] < |scores|
    ensures |s| == |r| + 1
    ensures forall i | 0 <= i < |s| :: s[i] < |scores|
  {
    if r == [] then [x]
    else if scores[r[0]] < scores[x] then [x] + r
    else
      assert r == [r[0]] + r[1..];
      [r[0]] + Insert(x, r[1..], scores)
  }

  /** Insertion sort by descending score, stable: the effect of `std::stable_sort` on the permutation. */
  function SortDesc(s: seq<nat>, scores: seq<int>): (r: seq<nat>)
    requires forall i | 0 <= i < |s| :: s[i] < |scores|
    ensures |r| == |s|
    ensures forall i | 0 <= i < |r| :: r[i] < |scores|
  {
    if s == [] then []
    else
      assert s == s[..|s| - 1] + [s[|s| - 1]];
      Insert(s[|s| - 1], SortDesc(s[..|s| - 1], scores), scores)
  }

  /** Inserting adds exactly `x`. */
  lemma {:induction false} InsertPermutes(x: nat, r: seq<nat>, scores: seq<int>)
    requires x < |scores| && forall i | 0 <= i < |r| :: r[i] < |scores|
    ensures multiset(Insert(x, r, scores)) == multiset(r) + multiset{x}
  {
    if r != [] && scores[r[0]] >= scores[x] {
      InsertPermutes(x, r[1..], scores);
      assert r == [r[0]] + r[1..];
    }
  }

  /** The sort is a permutation. */
  lemma {:induction false} SortDescPermutes(s: seq<nat>, scores: seq<int>)
    requires forall i | 0 <= i < |s| :: s[i] < |scores|
    ensures multiset(SortDesc(s, scores)) == multiset(s)
  {
    if s != [] {
      var init := s[..|s| - 1];
      SortDescPermutes(init, scores);
      InsertPermutes(s[|s| - 1], SortDesc(init, scores), scores);
      assert s == init + [s[|s| - 1]];
    }
  }

  lemma {:induction false} InsertOrdered(x: nat, r: seq<nat>, scores: seq<int>)
    requires x < |scores| && Ordered(r, scores)
    requires forall i | 0 <= i < |r| :: r[i] < x
    ensures Ordered(Insert(x, r, scores), scores)
  {
    if r != [] {
      var s := Insert(x, r, scores);
      if scores[r[0]] >= scores[x] {
        var rest := Insert(x, r[1..], scores);
        InsertOrdered(x, r[1..], scores);
        InsertPermutes(x, r[1..], scores);
        forall j | 0 <= j < |rest| ensures Before(scores, r[0], rest[j]) {
          assert rest[j] in multiset(rest);
          if rest[j] != x {
            assert rest[j] in r[1..];
          }
        }
        assert forall j | 1 <= j < |s| :: s[j] == rest[j - 1];
      }
    }
  }

  lemma {:induction false} SortDescOrdered(s: seq<nat>, scores: seq<int>)
    requires forall i | 0 <= i < |s| :: s[i] < |scores|
    requires forall i, j | 0 <= i < j < |s| :: s[i] < s[j]
    ensures Ordered(SortDesc(s, scores), scores)
  {
    if s != [] {
      var init := s[..|s| - 1];
      var x := s[|s| - 1];
      SortDescOrdered(init, scores);
      var sorted := SortDesc(init, scores);
      SortDescPermutes(init, scores);
      forall i | 0 <= i < |sorted| ensures sorted[i] < x {
        assert sorted[i] in multiset(init);
      }
      InsertOrdered(x, sorted, scores);
    }
  }

  /**
    Insert the indices `k .. |scores|-1` one by one into `acc`: the stable
    sort built front to back.
   */
  function SortedFrom(scores: seq<int>, k: nat, acc: seq<nat>): seq<nat>
    requires k <= |scores| && forall i | 0 <= i < |acc| :: acc[i] < |scores|
    decreases |scores| - k
  {
    if k == |scores| then acc else SortedFrom(scores, k + 1, Insert(k, acc, scores))
  }

  /** Inserting the remaining indices into the sorted prefix sorts all of them. */
  lemma {:induction false} SortedFromSortDesc(scores: seq<int>, k: nat)
    requires k <= |scores|
    ensures SortedFrom(scores, k, SortDesc(Identity(k), scores)) == SortDesc(Identity(|scores|), scores)
    decreases |scores| - k
  {
    if k < |scores| {
      assert Identity(k + 1)[..k] == Identity(k);
      SortedFromSortDesc(scores, k + 1);
    }
  }

  /**
    `d_termPermutations[variableIx]` after `runLearning`: the identity when
    there is no model or no term, else the candidates by descending score.
   */
  function LearnedOrder(n: nat, scores: Option<seq<int>>): (r: seq<nat>)
    requires scores.Some? ==> |scores.value| == n
  {
    if scores.None? || n == 0 then Identity(n) else SortedFrom(scores.value, 0, [])
  }

  /** With a model and some candidates, it is the stable sort of the identity. */
  lemma LearnedOrderSorts(n: nat, scores: seq<int>)
    requires |scores| == n > 0
    ensures LearnedOrder(n, Some(scores)) == SortDesc(Identity(n), scores)
  {
    SortedFromSortDesc(scores, 0);
  }

  /**
    The learned order is a permutation of `0 .. n-1`; with a model it ranks a
    higher score first and keeps original order among equal scores.
   */
  lemma LearnedOrderSpec(n: nat, scores: Option<seq<int>>)
    requires scores.Some? ==> |scores.value| == n
    ensures var r := LearnedOrder(n, scores);
      && |r| == n
      && multiset(r) == multiset(Identity(n))
      && (forall i | 0 <= i < n :: r[i] < n)
      && (scores.Some? ==> Ordered(r, scores.value))
  {
    var r := LearnedOrder(n, scores);
    if scores.Some? && n > 0 {
      LearnedOrderSorts(n, scores.value);
      SortDescPermutes(Identity(n), scores.value);
    }
    assert |r| == |multiset(r)| == |multiset(Identity(n))| == n;
    forall i | 0 <= i < n ensures r[i] < n {
      assert r[i] in multiset(Identity(n));
    }
    if scores.Some? {
      SortDescOrdered(Identity(n), scores.value);
    }
  }
}
