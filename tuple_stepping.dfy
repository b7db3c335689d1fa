/**
  The arithmetic of the enumeration cursor `d_termIndex` of
  `term_tuple_enumerator.cpp`, as functions of the cursor, the candidate
  counts `d_termsSizes` and the stage: what each of the four countdown loops
  (`nextCombinationMax`, `increaseStageMax`, `nextCombinationSum`,
  `increaseStageSum`) computes, and what that means for the order of the
  enumeration. The enumerator class runs the loops themselves and is proved
  to compute these functions.
 */
module TupleStepping {
  import opened Wrappers

  function Min(a: nat, b: nat): nat {
    if a <= b then a else b
  }

  function Max(a: nat, b: nat): nat {
    if a >= b then a else b
  }

  function Zeros(n: nat): (z: seq<nat>)
    ensures |z| == n && forall i | 0 <= i < n :: z[i] == 0
  {
    seq(n, _ => 0)
  }

  /** The digit sum, taken from the last digit as the countdown loops do. */
  function Sum(t: seq<nat>): nat {
    if t == [] then 0 else Sum(t[..|t| - 1]) + t[|t| - 1]
  }

  lemma {:induction false} SumAppend(a: seq<nat>, b: seq<nat>)
    ensures Sum(a + b) == Sum(a) + Sum(b)
    decreases |b|
  {
    if b == [] {
      assert a + b == a;
    } else {
      assert (a + b)[..|a + b| - 1] == a + b[..|b| - 1];
      SumAppend(a, b[..|b| - 1]);
    }
  }

  lemma SumSplit(t: seq<nat>, k: nat)
    requires k <= |t|
    ensures Sum(t) == Sum(t[..k]) + Sum(t[k..])
  {
    assert t == t[..k] + t[k..];
    SumAppend(t[..k], t[k..]);
  }

  lemma {:induction false} SumZeros(n: nat)
    ensures Sum(Zeros(n)) == 0
  {
    if n > 0 {
      assert Zeros(n)[..n - 1] == Zeros(n - 1);
      SumZeros(n - 1);
    }
  }

  /** `d_termsSizes[digit] ? d_termsSizes[digit] - 1 : 0`: the largest index a digit may hold. */
  function MaxValue(size: nat): nat {
    if size > 0 then size - 1 else 0
  }

  /** Every digit lies in [0, max(size - 1, 0)]: the cursor can always be dereferenced. */
  ghost predicate InSizeBox(t: seq<nat>, sizes: seq<nat>) {
    |t| == |sizes| && forall i | 0 <= i < |t| :: t[i] <= MaxValue(sizes[i])
  }

  /** `a` and `b` agree before `p` and `a` is smaller at `p`. */
  ghost predicate LexLessAt(a: seq<nat>, b: seq<nat>, p: nat) {
    && |a| == |b| && p < |a|
    && (forall i | 0 <= i < p :: a[i] == b[i])
    && a[p] < b[p]
  }

  /** Strict lexicographic order on tuples of one length, position 0 most significant. */
  ghost predicate LexLess(a: seq<nat>, b: seq<nat>) {
    exists p: nat :: LexLessAt(a, b, p)
  }

  /** Lexicographic order is asymmetric (hence irreflexive). */
  lemma LexLessAsymmetric(a: seq<nat>, b: seq<nat>)
    ensures !(LexLess(a, b) && LexLess(b, a))
  {
  }

  /** Digit `d` raised by one, the digits after it zeroed: the common move of both policies. */
  function Raised(t: seq<nat>, d: nat): (u: seq<nat>)
    requires d < |t|
    ensures |u| == |t| && LexLessAt(t, u, d)
    ensures forall i | 0 <= i < d :: u[i] == t[i]
    ensures u[d] == t[d] + 1
    ensures forall i | d < i < |u| :: u[i] == 0
  {
    t[..d] + [t[d] + 1] + Zeros(|t| - d - 1)
  }

  /** Two different tuples of one length are ordered one way or the other. */
  lemma LexTotal(a: seq<nat>, b: seq<nat>)
    requires |a| == |b| && a != b
    ensures LexLess(a, b) || LexLess(b, a)
  {
    var p := 0;
    while p < |a| && a[p] == b[p]
      invariant p <= |a| && forall i | 0 <= i < p :: a[i] == b[i]
    {
      p := p + 1;
    }
    if p < |a| && a[p] < b[p] {
      assert LexLessAt(a, b, p);
    } else if p < |a| {
      assert LexLessAt(b, a, p);
    }
  }

  // ---------------------------------------------------------------------------
  // The max-digit policy
  // ---------------------------------------------------------------------------

  /**
    `d_stageCount` as `init` computes it: 1, raised to every candidate count
    in turn.
   */
  function StageCount(sizes: seq<nat>): (c: nat)
    ensures c >= 1
    ensures forall i | 0 <= i < |sizes| :: sizes[i] <= c
    ensures c == 1 || exists i | 0 <= i < |sizes| :: sizes[i] == c
  {
    if sizes == [] then 1 else Max(StageCount(sizes[..|sizes| - 1]), sizes[|sizes| - 1])
  }

  /** The largest value digit `i` may hold at stage `stage` under the max policy. */
  function MaxBound(size: nat, stage: nat): nat {
    Min(MaxValue(size), stage)
  }

  /** The tuples of a stage: every digit at most the stage and below its size (0 for size 0). */
  ghost predicate InMaxBox(t: seq<nat>, sizes: seq<nat>, stage: nat) {
    |t| == |sizes| && forall i | 0 <= i < |t| :: t[i] <= MaxBound(sizes[i], stage)
  }

  lemma MaxBoxInSizeBox(t: seq<nat>, sizes: seq<nat>, stage: nat)
    requires InMaxBox(t, sizes, stage)
    ensures InSizeBox(t, sizes)
  {
  }

  /** The test `new_value < d_termsSizes[digit] && new_value <= d_stage` of `nextCombinationMax`. */
  predicate CanGrowMax(t: seq<nat>, sizes: seq<nat>, stage: nat, d: nat)
    requires d < |t| == |sizes|
  {
    t[d] + 1 < sizes[d] && t[d] + 1 <= stage
  }

  /** The digit `nextCombinationMax` increases: the last one that can grow, or -1. */
  function LastGrowableMax(t: seq<nat>, sizes: seq<nat>, stage: nat, k: nat): (d: int)
    requires k <= |t| == |sizes|
    ensures -1 <= d < k
    ensures d >= 0 ==> CanGrowMax(t, sizes, stage, d)
    ensures forall j | d < j < k :: !CanGrowMax(t, sizes, stage, j)
  {
    if k == 0 then -1
    else if CanGrowMax(t, sizes, stage, k - 1) then k - 1
    else LastGrowableMax(t, sizes, stage, k - 1)
  }

  /**
    `nextCombinationMax`: raise the last digit that can grow by one and zero
    every later digit; `None` (cursor unchanged) when no digit can grow.
   */
  function NextMax(t: seq<nat>, sizes: seq<nat>, stage: nat): (r: Option<seq<nat>>)
    requires |t| == |sizes|
  {
    var d := LastGrowableMax(t, sizes, stage, |t|);
    if d < 0 then None else Some(Raised(t, d))
  }

  lemma CanGrowMaxIff(t: seq<nat>, sizes: seq<nat>, stage: nat, d: nat)
    requires d < |t| == |sizes|
    ensures CanGrowMax(t, sizes, stage, d) <==> t[d] < MaxBound(sizes[d], stage)
  {
  }

  /**
    A successful step raises exactly one digit by one, keeps the earlier ones,
    zeroes the later ones, stays inside the stage (so a variable with no
    candidates stays at 0) and moves strictly up in lexicographic order.
   */
  lemma NextMaxStep(t: seq<nat>, sizes: seq<nat>, stage: nat)
    requires InMaxBox(t, sizes, stage)
    requires NextMax(t, sizes, stage).Some?
    ensures var u := NextMax(t, sizes, stage).value;
      && InMaxBox(u, sizes, stage)
      && LexLess(t, u)
      && exists d | 0 <= d < |t| ::
           && (forall i | 0 <= i < d :: u[i] == t[i])
           && u[d] == t[d] + 1
           && (forall i | d < i < |t| :: u[i] == 0)
  {
    var d := LastGrowableMax(t, sizes, stage, |t|);
    var u := NextMax(t, sizes, stage).value;
    assert LexLessAt(t, u, d);
    CanGrowMaxIff(t, sizes, stage, d);
  }

  /** A successful step lands on the least tuple of the stage above the cursor: nothing is skipped. */
  lemma NextMaxIsLeast(t: seq<nat>, sizes: seq<nat>, stage: nat, w: seq<nat>)
    requires InMaxBox(t, sizes, stage) && InMaxBox(w, sizes, stage)
    requires NextMax(t, sizes, stage).Some?
    requires LexLess(t, w)
    ensures !LexLess(w, NextMax(t, sizes, stage).value)
  {
    var d := LastGrowableMax(t, sizes, stage, |t|);
    var u := NextMax(t, sizes, stage).value;
    var p: nat :| LexLessAt(t, w, p);
    CanGrowMaxIff(t, sizes, stage, p);
    assert p <= d;
    if LexLess(w, u) {
      var q: nat :| LexLessAt(w, u, q);
      if p < d {
        assert LexLessAt(u, w, p);
        LexLessAsymmetric(u, w);
      }
    }
  }

  /** A failed step means the cursor is the last tuple of its stage. */
  lemma NextMaxNoneIsLast(t: seq<nat>, sizes: seq<nat>, stage: nat, w: seq<nat>)
    requires InMaxBox(t, sizes, stage) && InMaxBox(w, sizes, stage)
    requires NextMax(t, sizes, stage).None?
    ensures !LexLess(t, w)
  {
    if LexLess(t, w) {
      var p: nat :| LexLessAt(t, w, p);
      CanGrowMaxIff(t, sizes, stage, p);
    }
  }

  /** The last digit whose candidate count exceeds `stage`, or -1. */
  function LastDigitAbove(sizes: seq<nat>, stage: nat, k: nat): (d: int)
    requires k <= |sizes|
    ensures -1 <= d < k
    ensures d >= 0 ==> sizes[d] > stage
    ensures forall j | d < j < k :: sizes[j] <= stage
  {
    if k == 0 then -1
    else if sizes[k - 1] > stage then k - 1
    else LastDigitAbove(sizes, stage, k - 1)
  }

  /**
    `increaseStageMax`: returns (success, new cursor, new stage). The stage
    goes up by one; past the last stage the cursor is left alone; otherwise
    it is zeroed and the last digit that can hold the new stage is set to it.
   */
  function IncreaseStageMax(t: seq<nat>, sizes: seq<nat>, stage: nat, stageCount: nat): (bool, seq<nat>, nat)
    requires |t| == |sizes|
  {
    var s := stage + 1;
    if s >= stageCount then (false, t, s)
    else
      var d := LastDigitAbove(sizes, s, |sizes|);
      if d < 0 then (false, Zeros(|t|), s)
      else (true, Zeros(|t|)[d := s], s)
  }

  /**
    The tuple a stage starts with, all zeros but the last digit able to hold
    the stage, set to it: it lies in the stage, and no tuple of the stage
    that reaches the stage in some digit comes before it.
   */
  lemma StageStartIsLeast(sizes: seq<nat>, s: nat, d: nat)
    requires s > 0
    requires d < |sizes| && sizes[d] > s
    requires forall j | d < j < |sizes| :: sizes[j] <= s
    ensures InMaxBox(Zeros(|sizes|)[d := s], sizes, s)
    ensures forall w | InMaxBox(w, sizes, s) && (exists i | 0 <= i < |w| :: w[i] == s) ::
              !LexLess(w, Zeros(|sizes|)[d := s])
  {
    var u := Zeros(|sizes|)[d := s];
    forall w | InMaxBox(w, sizes, s) && (exists i | 0 <= i < |w| :: w[i] == s)
      ensures !LexLess(w, u)
    {
      var j :| 0 <= j < |w| && w[j] == s;
      assert j <= d;
    }
  }

  /**
    Below `d_stageCount = max(1, max sizes)` a digit able to hold the new stage
    always exists (the source's `Assert(found)`), and the new cursor is the
    least tuple of the new stage that reaches the stage in some digit.
   */
  lemma IncreaseStageMaxStart(t: seq<nat>, sizes: seq<nat>, stage: nat)
    requires |t| == |sizes|
    requires stage + 1 < StageCount(sizes)
    ensures var r := IncreaseStageMax(t, sizes, stage, StageCount(sizes));
      && r.0 && r.2 == stage + 1
      && InMaxBox(r.1, sizes, r.2)
      && (exists i | 0 <= i < |r.1| :: r.1[i] == r.2)
      && forall w | InMaxBox(w, sizes, r.2) && (exists i | 0 <= i < |w| :: w[i] == r.2) :: !LexLess(w, r.1)
  {
    var s := stage + 1;
    var i :| 0 <= i < |sizes| && sizes[i] == StageCount(sizes);
    var d := LastDigitAbove(sizes, s, |sizes|);
    StageStartIsLeast(sizes, s, d);
    assert Zeros(|t|)[d := s][d] == s;
  }

  /**
    One step of the max policy without pruning: `nextCombinationMax`, and
    `increaseStageMax` when it fails. Returns the new cursor and stage.
   */
  function AdvanceMax(t: seq<nat>, sizes: seq<nat>, stage: nat, stageCount: nat): Option<(seq<nat>, nat)>
    requires |t| == |sizes|
  {
    match NextMax(t, sizes, stage)
    case Some(u) => Some((u, stage))
    case None =>
      var (ok, u, s) := IncreaseStageMax(t, sizes, stage, stageCount);
      if ok then Some((u, s)) else None
  }

  /**
    Sizes [2, 3]: the max policy yields (0,0) | (0,1) (1,0) (1,1) |
    (0,2) (1,0) (1,1) (1,2) and then stops: stage 2 visits (1,0) and (1,1)
    again, eight tuples for six combinations.
   */
  lemma MaxPolicyExample()
    ensures AdvanceMax([0, 0], [2, 3], 0, 3) == Some(([0, 1], 1))
    ensures AdvanceMax([0, 1], [2, 3], 1, 3) == Some(([1, 0], 1))
    ensures AdvanceMax([1, 0], [2, 3], 1, 3) == Some(([1, 1], 1))
    ensures AdvanceMax([1, 1], [2, 3], 1, 3) == Some(([0, 2], 2))
    ensures AdvanceMax([0, 2], [2, 3], 2, 3) == Some(([1, 0], 2))
    ensures AdvanceMax([1, 0], [2, 3], 2, 3) == Some(([1, 1], 2))
    ensures AdvanceMax([1, 1], [2, 3], 2, 3) == Some(([1, 2], 2))
    ensures AdvanceMax([1, 2], [2, 3], 2, 3) == None
  {
    assert Raised([0, 0], 1) == [0, 1];
    assert Zeros(2)[1 := 1] == [0, 1];
    assert Raised([0, 1], 0) == [1, 0];
    assert Raised([1, 0], 1) == [1, 1];
    assert Zeros(2)[1 := 2] == [0, 2];
    assert Raised([0, 2], 0) == [1, 0];
    assert Raised([1, 1], 1) == [1, 2];
  }

  // ---------------------------------------------------------------------------
  // Termination measure for the max policy
  // ---------------------------------------------------------------------------

  function Pow(b: nat, e: nat): (r: nat)
    ensures b > 0 ==> r > 0
  {
    if e == 0 then 1 else b * Pow(b, e - 1)
  }

  /** The cursor read as a number in base `base`, position 0 most significant. */
  function Rank(t: seq<nat>, base: nat): nat {
    if t == [] then 0 else t[0] * Pow(base, |t| - 1) + Rank(t[1..], base)
  }

  lemma MulLe(a: nat, b: nat, c: nat)
    requires a <= b
    ensures a * c <= b * c
  {
  }

  lemma {:induction false} RankBelowPow(t: seq<nat>, base: nat)
    requires forall i | 0 <= i < |t| :: t[i] < base
    ensures Rank(t, base) < Pow(base, |t|)
  {
    if t != [] {
      RankBelowPow(t[1..], base);
      var p := Pow(base, |t| - 1);
      MulLe(t[0] + 1, base, p);
      assert t[0] * p + p == (t[0] + 1) * p;
    }
  }

  /** With digits below the base, a lexicographically larger tuple has a larger rank. */
  lemma {:induction false} RankLexMonotone(a: seq<nat>, b: seq<nat>, base: nat, p: nat)
    requires forall i | 0 <= i < |a| :: a[i] < base
    requires forall i | 0 <= i < |b| :: b[i] < base
    requires LexLessAt(a, b, p)
    ensures Rank(a, base) < Rank(b, base)
    decreases p
  {
    var w := Pow(base, |a| - 1);
    if p == 0 {
      RankBelowPow(a[1..], base);
      MulLe(a[0] + 1, b[0], w);
      assert a[0] * w + w == (a[0] + 1) * w;
    } else {
      assert LexLessAt(a[1..], b[1..], p - 1);
      RankLexMonotone(a[1..], b[1..], base, p - 1);
    }
  }

  /** The loop measure of the max policy: the stages left, then the tuples left in the stage. */
  lemma AdvanceMaxDecreases(t: seq<nat>, sizes: seq<nat>, stage: nat, stageCount: nat)
    requires InMaxBox(t, sizes, stage) && stage < stageCount
    requires AdvanceMax(t, sizes, stage, stageCount).Some?
    ensures var r := AdvanceMax(t, sizes, stage, stageCount).value;
      && InMaxBox(r.0, sizes, r.1) && r.1 < stageCount
      && (r.1 > stage || (r.1 == stage && Rank(t, stage + 1) < Rank(r.0, stage + 1)))
      && Rank(r.0, r.1 + 1) < Pow(r.1 + 1, |r.0|)
  {
    var r := AdvanceMax(t, sizes, stage, stageCount).value;
    if NextMax(t, sizes, stage).Some? {
      NextMaxStep(t, sizes, stage);
      var d := LastGrowableMax(t, sizes, stage, |t|);
      assert LexLessAt(t, r.0, d);
      RankLexMonotone(t, r.0, stage + 1, d);
    } else {
      var d := LastDigitAbove(sizes, stage + 1, |sizes|);
      StageStartIsLeast(sizes, stage + 1, d);
    }
    RankBelowPow(r.0, r.1 + 1);
  }

  // ---------------------------------------------------------------------------
  // The fixed-sum policy
  // ---------------------------------------------------------------------------

  /** The largest digit sum the sizes allow: every digit at its largest index. */
  function Capacity(sizes: seq<nat>): nat {
    if sizes == [] then 0 else Capacity(sizes[..|sizes| - 1]) + MaxValue(sizes[|sizes| - 1])
  }

  lemma {:induction false} SumBelowCapacity(t: seq<nat>, sizes: seq<nat>)
    requires InSizeBox(t, sizes)
    ensures Sum(t) <= Capacity(sizes)
    ensures (forall i | 0 <= i < |t| :: t[i] == MaxValue(sizes[i])) ==> Sum(t) == Capacity(sizes)
    decreases |t|
  {
    if t != [] {
      SumBelowCapacity(t[..|t| - 1], sizes[..|sizes| - 1]);
    }
  }

  lemma {:induction false} SumUpdate(t: seq<nat>, i: nat, v: nat)
    requires i < |t|
    ensures Sum(t[i := v]) + t[i] == Sum(t) + v
    decreases |t|
  {
    var n := |t|;
    if i == n - 1 {
      assert t[i := v][..n - 1] == t[..n - 1];
    } else {
      assert t[i := v][..n - 1] == t[..n - 1][i := v];
      SumUpdate(t[..n - 1], i, v);
    }
  }

  /** The sum of a prefix one longer adds the digit at its end. */
  lemma SumPrefixStep(t: seq<nat>, p: nat)
    requires p < |t|
    ensures Sum(t[..p + 1]) == Sum(t[..p]) + t[p]
  {
    assert t[..p + 1][..p] == t[..p];
  }

  /**
    Past the first difference `t` has nothing left while `w` is larger there:
    `w` has the larger digit sum.
   */
  lemma SumGrowsPastEmptyTail(t: seq<nat>, w: seq<nat>, p: nat)
    requires LexLessAt(t, w, p)
    requires Sum(t[p + 1..]) == 0
    ensures Sum(t) < Sum(w)
  {
    SumSplit(t, p + 1);
    SumSplit(w, p + 1);
    SumPrefixStep(t, p);
    SumPrefixStep(w, p);
    assert t[..p] == w[..p];
  }

  /** The digit sum around position `q`: before it, at it, after it. */
  lemma SumAround(t: seq<nat>, q: nat)
    requires q < |t|
    ensures Sum(t) == Sum(t[..q]) + t[q] + Sum(t[q + 1..])
  {
    SumSplit(t, q + 1);
    SumPrefixStep(t, q);
  }

  /** A suffix of digits below their sizes sums to at most the suffix's capacity. */
  lemma SuffixBelowCapacity(t: seq<nat>, sizes: seq<nat>, k: nat)
    requires InSizeBox(t, sizes) && k <= |t|
    ensures Sum(t[k..]) <= Capacity(sizes[k..])
    ensures (forall i | k <= i < |t| :: t[i] == MaxValue(sizes[i])) ==> Sum(t[k..]) == Capacity(sizes[k..])
  {
    assert forall i | 0 <= i < |t| - k :: t[k..][i] == t[k + i] && sizes[k..][i] == sizes[k + i];
    SumBelowCapacity(t[k..], sizes[k..]);
  }

  /** The test `suffixSum > 0 && newValue < d_termsSizes[increaseDigit]` of `nextCombinationSum`. */
  predicate CanGrowSum(t: seq<nat>, sizes: seq<nat>, d: nat)
    requires d < |t| == |sizes|
  {
    Sum(t[d + 1..]) > 0 && t[d] + 1 < sizes[d]
  }

  /** The suffix sum grows by the digit the scan of `nextCombinationSum` passes. */
  lemma SuffixSumHead(t: seq<nat>, i: nat)
    requires i < |t|
    ensures Sum(t[i..]) == t[i] + Sum(t[i + 1..])
  {
    assert t[i..] == [t[i]] + t[i + 1..];
    SumAppend([t[i]], t[i + 1..]);
  }

  /** A digit the scan of `nextCombinationSum` passes cannot grow; it is zeroed and added to the suffix sum. */
  lemma ScanPasses(t: seq<nat>, sizes: seq<nat>, i: nat, suffixSum: nat)
    requires i < |t| == |sizes| && suffixSum == Sum(t[i + 1..])
    requires !(suffixSum > 0 && t[i] + 1 < sizes[i])
    ensures !CanGrowSum(t, sizes, i)
    ensures suffixSum + t[i] == Sum(t[i..])
    ensures (t[..i + 1] + Zeros(|t| - i - 1))[i := 0] == t[..i] + Zeros(|t| - i)
  {
    SuffixSumHead(t, i);
  }

  /**
    Where the scan of `nextCombinationSum` stops is the digit the policy
    raises, and raising it in the half-zeroed cursor gives `Raised`.
   */
  lemma ScanStopsAt(t: seq<nat>, sizes: seq<nat>, d: nat)
    requires d < |t| == |sizes|
    requires Sum(t[d + 1..]) > 0 && t[d] + 1 < sizes[d]
    requires forall j | d < j < |t| :: !CanGrowSum(t, sizes, j)
    ensures CanGrowSum(t, sizes, d)
    ensures LastGrowableSum(t, sizes, |t|) == d
    ensures (t[..d + 1] + Zeros(|t| - d - 1))[d := t[d] + 1] == Raised(t, d)
  {
    assert CanGrowSum(t, sizes, d);
    var g := LastGrowableSum(t, sizes, |t|);
    assert g >= 0 ==> CanGrowSum(t, sizes, g);
    var u := (t[..d + 1] + Zeros(|t| - d - 1))[d := t[d] + 1];
    assert forall i | 0 <= i < |t| :: u[i] == Raised(t, d)[i];
  }

  /** The successor `nextCombinationSum` computes once it knows the digit to raise. */
  lemma NextSumAt(t: seq<nat>, sizes: seq<nat>, d: nat)
    requires d < |t| == |sizes| && LastGrowableSum(t, sizes, |t|) == d
    ensures NextSum(t, sizes) == (true, Refilled(t, sizes, d))
  {
  }

  /** A scan of `nextCombinationSum` that passes every digit ends the stage with all zeros. */
  lemma ScanExhausted(t: seq<nat>, sizes: seq<nat>)
    requires |t| == |sizes|
    requires forall j | 0 <= j < |t| :: !CanGrowSum(t, sizes, j)
    ensures LastGrowableSum(t, sizes, |t|) == -1
    ensures NextSum(t, sizes) == (false, Zeros(|t|))
    ensures t[..0] + Zeros(|t|) == Zeros(|t|)
  {
  }

  /** The digit `nextCombinationSum` increases: the last one that can grow with a non-zero tail, or -1. */
  function LastGrowableSum(t: seq<nat>, sizes: seq<nat>, k: nat): (d: int)
    requires k <= |t| == |sizes|
    ensures -1 <= d < k
    ensures d >= 0 ==> CanGrowSum(t, sizes, d)
    ensures forall j | d < j < k :: !CanGrowSum(t, sizes, j)
  {
    if k == 0 then -1
    else if CanGrowSum(t, sizes, k - 1) then k - 1
    else LastGrowableSum(t, sizes, k - 1)
  }

  /**
    The refill loop of `nextCombinationSum`: from the last digit down, while
    something is missing, set the digit to `min(missing, maxValue)`. Returns
    the cursor and what is still missing.
   */
  function Fill(t: seq<nat>, sizes: seq<nat>, k: nat, missing: nat): (r: (seq<nat>, nat))
    requires k <= |t| == |sizes|
    ensures |r.0| == |t|
    decreases k
  {
    if missing == 0 || k == 0 then (t, missing)
    else
      var v := Min(missing, MaxValue(sizes[k - 1]));
      Fill(t[k - 1 := v], sizes, k - 1, missing - v)
  }

  /**
    From `from` on, every digit after a non-zero one is at its largest index:
    the weight sits as far back as the sizes allow.
   */
  ghost predicate BackPacked(u: seq<nat>, sizes: seq<nat>, from: nat)
    requires |u| == |sizes|
  {
    forall j, i | from <= j < i < |u| && u[j] > 0 :: u[i] == MaxValue(sizes[i])
  }

  /**
    The refill adds exactly what is missing, keeps every digit below its size,
    leaves nothing missing (the source's `Assert(missing == 0)`) when the
    zeroed digits can hold it, and packs the weight towards the back.
   */
  lemma {:induction false} FillSpec(t: seq<nat>, sizes: seq<nat>, lo: nat, k: nat, missing: nat)
    requires lo <= k <= |t| == |sizes|
    requires forall i | lo <= i < k :: t[i] == 0
    requires forall i | k <= i < |t| :: t[i] <= MaxValue(sizes[i])
    requires missing > 0 ==> forall i | k <= i < |t| :: t[i] == MaxValue(sizes[i])
    requires BackPacked(t, sizes, lo)
    requires missing <= Capacity(sizes[lo..k])
    ensures var r := Fill(t, sizes, k, missing);
      && r.1 == 0
      && r.0[..lo] == t[..lo]
      && Sum(r.0) == Sum(t) + missing
      && (forall i | lo <= i < |t| :: r.0[i] <= MaxValue(sizes[i]))
      && BackPacked(r.0, sizes, lo)
    decreases k
  {
    if missing > 0 && k > lo {
      var v := Min(missing, MaxValue(sizes[k - 1]));
      var t' := t[k - 1 := v];
      assert sizes[lo..k][..k - 1 - lo] == sizes[lo..k - 1];
      SumUpdate(t, k - 1, v);
      FillSpec(t', sizes, lo, k - 1, missing - v);
      assert t'[..lo] == t[..lo];
    }
  }

  /**
    `nextCombinationSum`: returns (found, new cursor). It raises the last digit
    that can grow while some later digit is non-zero, zeroes the later digits
    and refills their sum minus one from the back. When nothing can grow the
    cursor is left all zeros.
   */
  function NextSum(t: seq<nat>, sizes: seq<nat>): (bool, seq<nat>)
    requires |t| == |sizes|
  {
    var d := LastGrowableSum(t, sizes, |t|);
    if d < 0 then (false, Zeros(|t|))
    else (true, Refilled(t, sizes, d))
  }

  /** Digit `d` raised and the zeroed tail refilled with its old sum minus one. */
  function Refilled(t: seq<nat>, sizes: seq<nat>, d: nat): (r: seq<nat>)
    requires d < |t| == |sizes| && CanGrowSum(t, sizes, d)
  {
    Fill(Raised(t, d), sizes, |t|, Sum(t[d + 1..]) - 1).0
  }

  /**
    Raising digit `d` and refilling the zeroed tail with its old sum minus one
    keeps the digit sum, keeps every digit below its size, leaves nothing
    missing, keeps the raised prefix and packs the tail to the back.
   */
  lemma RaiseAndFill(t: seq<nat>, sizes: seq<nat>, d: nat)
    requires InSizeBox(t, sizes) && d < |t|
    requires CanGrowSum(t, sizes, d)
    ensures var r := Fill(Raised(t, d), sizes, |t|, Sum(t[d + 1..]) - 1);
      && r.1 == 0
      && r.0[..d + 1] == Raised(t, d)[..d + 1]
      && InSizeBox(r.0, sizes) && Sum(r.0) == Sum(t)
      && BackPacked(r.0, sizes, d + 1)
  {
    var z := Raised(t, d);
    var m := Sum(t[d + 1..]) - 1;
    SuffixBelowCapacity(t, sizes, d + 1);
    assert sizes[d + 1..|t|] == sizes[d + 1..];
    FillSpec(z, sizes, d + 1, |t|, m);
    SumAround(t, d);
    SumAround(z, d);
    assert z[..d] == t[..d];
    assert z[d + 1..] == Zeros(|t| - d - 1);
    SumZeros(|t| - d - 1);
  }

  /** What the refill leaves: the raised prefix, the same digit sum, back-packed weight, a cursor above `t`. */
  lemma RefilledSpec(t: seq<nat>, sizes: seq<nat>, d: nat)
    requires InSizeBox(t, sizes) && d < |t|
    requires CanGrowSum(t, sizes, d)
    ensures var u := Refilled(t, sizes, d);
      && InSizeBox(u, sizes) && Sum(u) == Sum(t)
      && (forall i | 0 <= i <= d :: u[i] == Raised(t, d)[i])
      && LexLessAt(t, u, d)
      && BackPacked(u, sizes, d + 1)
  {
    var u := Refilled(t, sizes, d);
    RaiseAndFill(t, sizes, d);
    var z := Raised(t, d);
    assert forall i | 0 <= i <= d :: u[i] == u[..d + 1][i] == z[..d + 1][i] == z[i];
    assert LexLessAt(t, u, d);
  }

  /**
    A successful step keeps the digit sum and every digit below its size,
    moves strictly up in lexicographic order and leaves nothing missing.
   */
  lemma NextSumStep(t: seq<nat>, sizes: seq<nat>)
    requires InSizeBox(t, sizes)
    requires NextSum(t, sizes).0
    ensures var u := NextSum(t, sizes).1;
      && InSizeBox(u, sizes) && Sum(u) == Sum(t)
      && LexLessAt(t, u, LastGrowableSum(t, sizes, |t|))
      && LexLess(t, u)
      && BackPacked(u, sizes, LastGrowableSum(t, sizes, |t|) + 1)
  {
    var d := LastGrowableSum(t, sizes, |t|);
    RefilledSpec(t, sizes, d);
    assert NextSum(t, sizes).1 == Refilled(t, sizes, d);
  }

  /** A failed step means no tuple with the same digit sum comes after the cursor. */
  lemma NextSumNoneIsLast(t: seq<nat>, sizes: seq<nat>, w: seq<nat>)
    requires InSizeBox(t, sizes) && InSizeBox(w, sizes)
    requires !NextSum(t, sizes).0
    requires Sum(w) == Sum(t)
    ensures !LexLess(t, w)
  {
    if LexLess(t, w) {
      var p: nat :| LexLessAt(t, w, p);
      assert !CanGrowSum(t, sizes, p);
      SumGrowsPastEmptyTail(t, w, p);
    }
  }

  /**
    A back-packed tuple is the least of its digit sum among the tuples that
    share its digits before `from`.
   */
  lemma BackPackedIsLeast(u: seq<nat>, w: seq<nat>, sizes: seq<nat>, from: nat)
    requires InSizeBox(u, sizes) && InSizeBox(w, sizes)
    requires BackPacked(u, sizes, from)
    requires Sum(w) == Sum(u)
    requires forall i | 0 <= i < from && i < |u| :: w[i] == u[i]
    ensures !LexLess(w, u)
  {
    if LexLess(w, u) {
      var q: nat :| LexLessAt(w, u, q);
      assert w[..q] == u[..q];
      BackPackedTailFull(u, sizes, from, q);
      SuffixBelowCapacity(w, sizes, q + 1);
      SuffixBelowCapacity(u, sizes, q + 1);
      SumAround(w, q);
      SumAround(u, q);
    }
  }

  lemma BackPackedTailFull(u: seq<nat>, sizes: seq<nat>, from: nat, q: nat)
    requires |u| == |sizes| && BackPacked(u, sizes, from)
    requires from <= q < |u| && u[q] > 0
    ensures forall i | q < i < |u| :: u[i] == MaxValue(sizes[i])
  {
  }

  /**
    A successful step lands on the least tuple above the cursor with the same
    digit sum: within a sum nothing is skipped.
   */
  lemma NextSumIsLeast(t: seq<nat>, sizes: seq<nat>, w: seq<nat>)
    requires InSizeBox(t, sizes) && InSizeBox(w, sizes)
    requires NextSum(t, sizes).0
    requires Sum(w) == Sum(t)
    requires LexLess(t, w)
    ensures !LexLess(w, NextSum(t, sizes).1)
  {
    var d := LastGrowableSum(t, sizes, |t|);
    var p: nat :| LexLessAt(t, w, p);
    if p > d {
      assert !CanGrowSum(t, sizes, p);
      SumGrowsPastEmptyTail(t, w, p);
    } else {
      assert NextSum(t, sizes).1 == Refilled(t, sizes, d);
      NextSumLeastAt(t, sizes, w, d, p);
    }
  }

  lemma NextSumLeastAt(t: seq<nat>, sizes: seq<nat>, w: seq<nat>, d: nat, p: nat)
    requires InSizeBox(t, sizes) && InSizeBox(w, sizes)
    requires d < |t| && CanGrowSum(t, sizes, d)
    requires Sum(w) == Sum(t)
    requires LexLessAt(t, w, p) && p <= d
    ensures !LexLess(w, Refilled(t, sizes, d))
  {
    var u := Refilled(t, sizes, d);
    RefilledSpec(t, sizes, d);
    if forall i | 0 <= i <= d :: w[i] == u[i] {
      BackPackedIsLeast(u, w, sizes, d + 1);
    }
    LexBetween(t, u, w, d, p);
  }

  /**
    `u` is above `t` from position `d`, `w` is above `t` from `p <= d`, and
    where they meet at `d` the tail of `u` is least: `w` is not below `u`.
   */
  lemma LexBetween(t: seq<nat>, u: seq<nat>, w: seq<nat>, d: nat, p: nat)
    requires LexLessAt(t, u, d) && LexLessAt(t, w, p) && p <= d
    requires u[d] == t[d] + 1
    requires (forall i | 0 <= i <= d :: w[i] == u[i]) ==> !LexLess(w, u)
    ensures !LexLess(w, u)
  {
    if p < d || w[d] > u[d] {
      assert LexLessAt(u, w, p);
      LexLessAsymmetric(u, w);
    }
  }

  /**
    The spreading loop of `increaseStageSum` as written: `d_currentStage` is
    never raised inside the loop, so every digit is visited, from the last
    down, and set to `min(lowerBound - currentSum, maxValue)` while
    `currentSum` accumulates the digits. Returns the cursor and the new
    `d_currentSum`.
   */
  function Spread(t: seq<nat>, sizes: seq<nat>, k: nat, lowerBound: nat, currentSum: nat): (r: (seq<nat>, nat))
    requires k <= |t| == |sizes|
    requires currentSum <= lowerBound
    ensures |r.0| == |t| && currentSum <= r.1 <= lowerBound
    decreases k
  {
    if k == 0 then (t, currentSum)
    else
      var v := Min(lowerBound - currentSum, MaxValue(sizes[k - 1]));
      Spread(t[k - 1 := v], sizes, k - 1, lowerBound, currentSum + v)
  }

  /** `increaseStageSum`: returns (success, new cursor, new `d_currentSum`). */
  function IncreaseStageSum(t: seq<nat>, sizes: seq<nat>, currentSum: nat): (bool, seq<nat>, nat)
    requires |t| == |sizes|
  {
    var r := Spread(t, sizes, |t|, currentSum + 1, currentSum);
    (r.1 >= currentSum + 1, r.0, r.1)
  }

  /** Once the bound is reached the spreading loop zeroes the digits it visits. */
  lemma {:induction false} SpreadAtBound(t: seq<nat>, sizes: seq<nat>, k: nat, lowerBound: nat)
    requires k <= |t| == |sizes|
    ensures Spread(t, sizes, k, lowerBound, lowerBound) == (Zeros(k) + t[k..], lowerBound)
    decreases k
  {
    if k == 0 {
      assert Zeros(0) + t[0..] == t;
    } else {
      SpreadAtBound(t[k - 1 := 0], sizes, k - 1, lowerBound);
      assert Zeros(k - 1) + t[k - 1 := 0][k - 1..] == Zeros(k) + t[k..];
    }
  }

  /** All zeros but a 1 at `d`, or all zeros when `d` is -1. */
  function UnitAt(n: nat, d: int): (u: seq<nat>)
    requires -1 <= d < n
    ensures |u| == n
    ensures Sum(u) == if d >= 0 then 1 else 0
  {
    SumZeros(n);
    if d < 0 then Zeros(n)
    else
      SumUpdate(Zeros(n), d, 1);
      Zeros(n)[d := 1]
  }

  /**
    One short of the bound, the spreading loop puts a single 1 on the last
    visited digit whose size is at least 2 and zeroes the rest.
   */
  lemma {:induction false} SpreadOneShort(t: seq<nat>, sizes: seq<nat>, k: nat, lowerBound: nat)
    requires k <= |t| == |sizes| && lowerBound > 0
    ensures var d := LastDigitAbove(sizes, 1, k);
      Spread(t, sizes, k, lowerBound, lowerBound - 1)
        == (UnitAt(k, d) + t[k..], if d >= 0 then lowerBound else lowerBound - 1)
    decreases k
  {
    if k == 0 {
      assert UnitAt(0, -1) + t[0..] == t;
    } else if sizes[k - 1] > 1 {
      SpreadAtBound(t[k - 1 := 1], sizes, k - 1, lowerBound);
      assert Zeros(k - 1) + t[k - 1 := 1][k - 1..] == UnitAt(k, k - 1) + t[k..];
    } else {
      SpreadOneShort(t[k - 1 := 0], sizes, k - 1, lowerBound);
      var d := LastDigitAbove(sizes, 1, k - 1);
      assert UnitAt(k - 1, d) + t[k - 1 := 0][k - 1..] == UnitAt(k, d) + t[k..];
    }
  }

  /**
    What `increaseStageSum` computes, whatever the cursor and `d_currentSum`:
    success exactly when some variable has two or more candidates; then a
    single 1 on the last such digit and `d_currentSum` one higher. The new
    cursor's digit sum is 1, not the new `d_currentSum`, once that exceeds 1.
   */
  lemma IncreaseStageSumAsWritten(t: seq<nat>, sizes: seq<nat>, currentSum: nat)
    requires |t| == |sizes|
    ensures var d := LastDigitAbove(sizes, 1, |sizes|);
      var r := IncreaseStageSum(t, sizes, currentSum);
      && (r.0 <==> exists i | 0 <= i < |sizes| :: sizes[i] >= 2)
      && r.1 == UnitAt(|t|, d)
      && r.2 == (if r.0 then currentSum + 1 else currentSum)
      && Sum(r.1) == if r.0 then 1 else 0
  {
    SpreadOneShort(t, sizes, |t|, currentSum + 1);
    assert UnitAt(|t|, LastDigitAbove(sizes, 1, |sizes|)) + t[|t|..] == UnitAt(|t|, LastDigitAbove(sizes, 1, |sizes|));
  }

  /**
    One step of the sum policy without pruning: `nextCombinationSum`, and
    `increaseStageSum` on the zeroed cursor when it fails. Returns the new
    cursor and `d_currentSum`.
   */
  function AdvanceSum(t: seq<nat>, sizes: seq<nat>, currentSum: nat): Option<(seq<nat>, nat)>
    requires |t| == |sizes|
  {
    var (found, u) := NextSum(t, sizes);
    if found then Some((u, currentSum))
    else
      var (ok, u', s) := IncreaseStageSum(u, sizes, currentSum);
      if ok then Some((u', s)) else None
  }

  /**
    The sum policy never runs out once some variable has two candidates: the
    enumeration is bounded only by the pruning loop and the caller.
   */
  lemma SumPolicyNeverExhausts(t: seq<nat>, sizes: seq<nat>, currentSum: nat)
    requires |t| == |sizes|
    requires exists i | 0 <= i < |sizes| :: sizes[i] >= 2
    ensures AdvanceSum(t, sizes, currentSum).Some?
  {
    IncreaseStageSumAsWritten(Zeros(|t|), sizes, currentSum);
  }

  /**
    Sizes [2, 3] under the sum policy: (0,0) | (0,1) (1,0) | (0,1) (1,0) | ...
    `d_currentSum` counts up while the cursor stays on digit sum 1.
   */
  lemma SumPolicyExample()
    ensures AdvanceSum([0, 0], [2, 3], 0) == Some(([0, 1], 1))
    ensures AdvanceSum([0, 1], [2, 3], 1) == Some(([1, 0], 1))
    ensures AdvanceSum([1, 0], [2, 3], 1) == Some(([0, 1], 2))
    ensures AdvanceSum([0, 1], [2, 3], 2) == Some(([1, 0], 2))
  {
    assert LastGrowableSum([0, 0], [2, 3], 2) == -1 by {
      assert [0, 0][2..] == [] && [0, 0][1..] == [0];
    }
    IncreaseStageSumAsWritten(Zeros(2), [2, 3], 0);
    assert UnitAt(2, 1) == [0, 1];
    assert [0, 1][1..] == [1];
    assert LastGrowableSum([0, 1], [2, 3], 2) == 0;
    assert Raised([0, 1], 0) == [1, 0];
    assert Fill([1, 0], [2, 3], 2, 0) == ([1, 0], 0);
    assert LastGrowableSum([1, 0], [2, 3], 2) == -1 by {
      assert [1, 0][2..] == [] && [1, 0][1..] == [0];
    }
    IncreaseStageSumAsWritten(Zeros(2), [2, 3], 1);
    IncreaseStageSumAsWritten(Zeros(2), [2, 3], 2);
  }
}
