/**
  `TermTupleEnumeratorBase::nextCombination`: step the cursor with the active
  policy, and keep stepping while the disabled-combinations trie reports the
  new tuple. As functions of the trie, the cursor and the policy state; the
  enumerator's loop is proved to compute them.
 */
module NextCombination {
  import opened TupleStepping
  import opened IndexTrieNode
  import IndexTrie

  /**
    The skip loop under the max policy. Returns (found, cursor, stage); when
    the stages run out, found is false and the state is the one
    `increaseStageMax` leaves behind.
   */
  function PruneMax(root: Tree, t: seq<nat>, sizes: seq<nat>, stage: nat, stageCount: nat): (r: (bool, seq<nat>, nat))
    requires InMaxBox(t, sizes, stage) && stage < stageCount
    ensures |r.1| == |t| && r.2 >= stage
    ensures r.0 ==> !IndexTrie.FindRec(root, 0, r.1) && InMaxBox(r.1, sizes, r.2) && r.2 < stageCount
    ensures InSizeBox(r.1, sizes)
    decreases stageCount - stage, Pow(stage + 1, |t|) - Rank(t, stage + 1)
  {
    RankBelowPow(t, stage + 1);
    MaxBoxInSizeBox(t, sizes, stage);
    match NextMax(t, sizes, stage)
    case Some(u) =>
      AdvanceMaxDecreases(t, sizes, stage, stageCount);
      MaxBoxInSizeBox(u, sizes, stage);
      if !IndexTrie.FindRec(root, 0, u) then (true, u, stage)
      else PruneMax(root, u, sizes, stage, stageCount)
    case None =>
      var (ok, u, s) := TupleStepping.IncreaseStageMax(t, sizes, stage, stageCount);
      if !ok then (false, u, s)
      else
        AdvanceMaxDecreases(t, sizes, stage, stageCount);
        MaxBoxInSizeBox(u, sizes, s);
        if !IndexTrie.FindRec(root, 0, u) then (true, u, s)
        else PruneMax(root, u, sizes, s, stageCount)
  }

  /** How many more steps the max policy takes from `t` before it runs out of stages. */
  function MaxStepsLeft(t: seq<nat>, sizes: seq<nat>, stage: nat, stageCount: nat): nat
    requires InMaxBox(t, sizes, stage) && stage < stageCount
    decreases stageCount - stage, Pow(stage + 1, |t|) - Rank(t, stage + 1)
  {
    RankBelowPow(t, stage + 1);
    match AdvanceMax(t, sizes, stage, stageCount)
    case None => 0
    case Some(next) =>
      AdvanceMaxDecreases(t, sizes, stage, stageCount);
      1 + MaxStepsLeft(next.0, sizes, next.1, stageCount)
  }

  /** One turn of the max-policy skip loop, as `nextCombination` takes it. */
  lemma PruneMaxStep(root: Tree, t: seq<nat>, sizes: seq<nat>, stage: nat, stageCount: nat)
    requires InMaxBox(t, sizes, stage) && stage < stageCount
    ensures var a := NextMax(t, sizes, stage);
      var i := TupleStepping.IncreaseStageMax(t, sizes, stage, stageCount);
      var r := PruneMax(root, t, sizes, stage, stageCount);
      && (a.Some? && !IndexTrie.FindRec(root, 0, a.value) ==> r == (true, a.value, stage))
      && (a.None? && !i.0 ==> r == i)
      && (a.None? && i.0 && !IndexTrie.FindRec(root, 0, i.1) ==> r == i)
      && (a.Some? ==> InMaxBox(a.value, sizes, stage))
      && (a.None? && i.0 ==> InMaxBox(i.1, sizes, i.2) && i.2 < stageCount)
      && (a.Some? && IndexTrie.FindRec(root, 0, a.value) ==> r == PruneMax(root, a.value, sizes, stage, stageCount))
      && (a.None? && i.0 && IndexTrie.FindRec(root, 0, i.1) ==> r == PruneMax(root, i.1, sizes, i.2, stageCount))
      && (a.Some? ==> MaxStepsLeft(a.value, sizes, stage, stageCount) < MaxStepsLeft(t, sizes, stage, stageCount))
      && (a.None? && i.0 ==> MaxStepsLeft(i.1, sizes, i.2, stageCount) < MaxStepsLeft(t, sizes, stage, stageCount))
  {
    if NextMax(t, sizes, stage).Some? || TupleStepping.IncreaseStageMax(t, sizes, stage, stageCount).0 {
      AdvanceMaxDecreases(t, sizes, stage, stageCount);
    }
  }

  /** One turn of the sum-policy skip loop, as `nextCombination` takes it. */
  lemma PruneSumStep(root: Tree, t: seq<nat>, sizes: seq<nat>, currentSum: nat, fuel: nat)
    requires InSizeBox(t, sizes) && fuel > 0
    ensures var a := NextSum(t, sizes);
      var i := TupleStepping.IncreaseStageSum(a.1, sizes, currentSum);
      var r := PruneSum(root, t, sizes, currentSum, fuel);
      && (a.0 ==> InSizeBox(a.1, sizes))
      && (!a.0 ==> InSizeBox(i.1, sizes))
      && (a.0 && !IndexTrie.FindRec(root, 0, a.1) ==> r == (true, a.1, currentSum))
      && (a.0 && IndexTrie.FindRec(root, 0, a.1) ==> r == PruneSum(root, a.1, sizes, currentSum, fuel - 1))
      && (!a.0 && !i.0 ==> r == i)
      && (!a.0 && i.0 && !IndexTrie.FindRec(root, 0, i.1) ==> r == i)
      && (!a.0 && i.0 && IndexTrie.FindRec(root, 0, i.1) ==> r == PruneSum(root, i.1, sizes, i.2, fuel - 1))
  {
    if NextSum(t, sizes).0 {
      NextSumStep(t, sizes);
    } else {
      IncreaseStageSumAsWritten(NextSum(t, sizes).1, sizes, currentSum);
      UnitInSizeBox(sizes);
    }
  }

  /** With `d_stageCount` as `init` sets it, running out means the stage reached `d_stageCount`. */
  lemma {:induction false} PruneMaxExhausted(root: Tree, t: seq<nat>, sizes: seq<nat>, stage: nat)
    requires InMaxBox(t, sizes, stage) && stage < StageCount(sizes)
    ensures var r := PruneMax(root, t, sizes, stage, StageCount(sizes));
      !r.0 ==> r.2 == StageCount(sizes)
    decreases MaxStepsLeft(t, sizes, stage, StageCount(sizes))
  {
    var stageCount := StageCount(sizes);
    PruneMaxStep(root, t, sizes, stage, stageCount);
    var a := NextMax(t, sizes, stage);
    var i := TupleStepping.IncreaseStageMax(t, sizes, stage, stageCount);
    if a.Some? {
      if IndexTrie.FindRec(root, 0, a.value) {
        PruneMaxExhausted(root, a.value, sizes, stage);
      }
    } else if i.0 {
      if IndexTrie.FindRec(root, 0, i.1) {
        PruneMaxExhausted(root, i.1, sizes, i.2);
      }
    } else if stage + 1 < stageCount {
      IncreaseStageMaxStart(t, sizes, stage);
    }
  }

  /**
    Nothing enabled is skipped: every tuple of the current stage after the
    cursor and before the result (or after the cursor at all, once the
    search has left the stage) is reported by the trie.
   */
  lemma {:induction false} PruneMaxSkipsOnlyDisabled(root: Tree, t: seq<nat>, sizes: seq<nat>, stage: nat, stageCount: nat, w: seq<nat>)
    requires InMaxBox(t, sizes, stage) && stage < stageCount
    requires InMaxBox(w, sizes, stage) && LexLess(t, w)
    requires var r := PruneMax(root, t, sizes, stage, stageCount);
      r.2 != stage || LexLess(w, r.1)
    ensures IndexTrie.FindRec(root, 0, w)
    decreases MaxStepsLeft(t, sizes, stage, stageCount)
  {
    PruneMaxStep(root, t, sizes, stage, stageCount);
    if NextMax(t, sizes, stage).None? {
      NextMaxNoneIsLast(t, sizes, stage, w);
    } else {
      var u := NextMax(t, sizes, stage).value;
      NextMaxIsLeast(t, sizes, stage, w);
      if w != u {
        LexTotal(w, u);
        if IndexTrie.FindRec(root, 0, u) {
          PruneMaxSkipsOnlyDisabled(root, u, sizes, stage, stageCount, w);
        } else {
          LexLessAsymmetric(w, u);
        }
      } else if !IndexTrie.FindRec(root, 0, u) {
        LexLessAsymmetric(w, u);
      }
    }
  }

  /**
    The skip loop under the sum policy, cut after `fuel` steps (the source
    loop has no bound). Returns (found, cursor, `d_currentSum`).
   */
  function PruneSum(root: Tree, t: seq<nat>, sizes: seq<nat>, currentSum: nat, fuel: nat): (r: (bool, seq<nat>, nat))
    requires InSizeBox(t, sizes)
    ensures |r.1| == |t| && r.2 >= currentSum
    ensures InSizeBox(r.1, sizes)
    ensures r.0 ==> !IndexTrie.FindRec(root, 0, r.1)
    decreases fuel
  {
    if fuel == 0 then (false, t, currentSum)
    else
      var (found, u) := NextSum(t, sizes);
      if found then
        NextSumStep(t, sizes);
        if !IndexTrie.FindRec(root, 0, u) then (true, u, currentSum)
        else PruneSum(root, u, sizes, currentSum, fuel - 1)
      else
        var (ok, u', s) := TupleStepping.IncreaseStageSum(u, sizes, currentSum);
        IncreaseStageSumAsWritten(u, sizes, currentSum);
        UnitInSizeBox(sizes);
        if !ok then (false, u', s)
        else if !IndexTrie.FindRec(root, 0, u') then (true, u', s)
        else PruneSum(root, u', sizes, s, fuel - 1)
  }

  /** The cursor `increaseStageSum` produces is a valid cursor. */
  lemma UnitInSizeBox(sizes: seq<nat>)
    ensures InSizeBox(UnitAt(|sizes|, LastDigitAbove(sizes, 1, |sizes|)), sizes)
  {
  }

  /**
    Nothing enabled is skipped within a digit sum: every tuple with the
    cursor's digit sum after the cursor and before the result (or after the
    cursor at all, once `d_currentSum` has moved) is reported by the trie.
   */
  lemma {:induction false} PruneSumSkipsOnlyDisabled(root: Tree, t: seq<nat>, sizes: seq<nat>, currentSum: nat, fuel: nat, w: seq<nat>)
    requires InSizeBox(t, sizes) && InSizeBox(w, sizes)
    requires Sum(w) == Sum(t) && LexLess(t, w)
    requires var r := PruneSum(root, t, sizes, currentSum, fuel);
      r.2 != currentSum || LexLess(w, r.1)
    ensures IndexTrie.FindRec(root, 0, w)
    decreases fuel
  {
    if fuel == 0 {
      LexLessAsymmetric(t, w);
    } else if !NextSum(t, sizes).0 {
      NextSumNoneIsLast(t, sizes, w);
    } else {
      var u := NextSum(t, sizes).1;
      NextSumStep(t, sizes);
      NextSumIsLeast(t, sizes, w);
      if w != u {
        LexTotal(w, u);
        if IndexTrie.FindRec(root, 0, u) {
          PruneSumSkipsOnlyDisabled(root, u, sizes, currentSum, fuel - 1, w);
        } else {
          LexLessAsymmetric(w, u);
        }
      } else if !IndexTrie.FindRec(root, 0, u) {
        LexLessAsymmetric(w, u);
      }
    }
  }
}
