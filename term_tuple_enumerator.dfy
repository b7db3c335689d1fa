/**
  `TermTupleEnumeratorBase` with its two term sources (`Basic` over the
  ground-term database, `RD` over the relevant domain): the object that
  enumerates tuples of candidate terms for the variables of one quantifier.

  The cursor `termIndex` holds one index per variable. `hasNext` moves it
  with the active staging policy, skipping every tuple the
  disabled-combinations trie reports; `next` maps it to terms through the
  learned permutations; `failureReason` records a generalisation of the
  current tuple in the trie.
 */
module TermTupleEnumerator {
  import opened Wrappers
  import opened Terms
  import opened TupleStepping
  import opened TermSources
  import opened EnumeratorContext
  import opened IndexTrieNode
  import IndexTrie
  import opened NextCombination

  /** `d_stepCounter` is a `uint32_t`. */
  const StepCounterModulus: nat := 0x1_0000_0000

  /** The basic enumerator's candidate list for a type, as `prepareTerms` builds it. */
  function TypeCandidates(db: GroundTermDatabase, ty: TypeNode): seq<Term> {
    KeptFrom(db, GroundTerms(db, ty), 0, [])
  }

  /** It is the first eligible ground term of each representative, in database order. */
  lemma TypeCandidatesKept(db: GroundTermDatabase, ty: TypeNode)
    ensures TypeCandidates(db, ty) == KeptTerms(db, GroundTerms(db, ty), |GroundTerms(db, ty)|)
  {
    KeptFromKeptTerms(db, GroundTerms(db, ty), 0);
  }

  /** The predicted scores of candidates `0 .. n-1` of variable `v`, in index order. */
  function Scores(p: Predictor, q: Quantifier, v: nat, n: nat): (r: seq<int>)
    ensures |r| == n && forall i | 0 <= i < n :: r[i] == p.score(q, v, i)
  {
    if n == 0 then [] else Scores(p, q, v, n - 1) + [p.score(q, v, n - 1)]
  }

  /** What `resize(n)` makes of an empty vector of permutations: `n` empty ones. */
  function EmptyPermutations(n: nat): (r: seq<seq<nat>>)
    ensures |r| == n && forall i | 0 <= i < n :: r[i] == []
  {
    if n == 0 then [] else EmptyPermutations(n - 1) + [[]]
  }

  class Enumerator {
    const quantifier: Quantifier
    const fullEffort: bool
    /** `d_increaseSum`, which the model also takes for `options::fullSaturateSum()` */
    const increaseSum: bool
    /** true for `TermTupleEnumeratorRD`, false for `TermTupleEnumeratorBasic` */
    const isRd: bool
    const variableCount: nat
    const context: Context
    /** `d_disabledCombinations`, built to ignore fully specified tuples */
    const disabled: IndexTrie.IndexTrie

    var typeCache: seq<TypeNode>
    var termsSizes: seq<nat>
    var termIndex: seq<nat>
    var stepCounter: nat
    var currentSum: nat
    var stage: nat
    var stageCount: nat
    var hasNext: bool
    var termPermutations: seq<seq<nat>>
    /** `d_term_db_list` of the basic enumerator */
    var termDbList: map<TypeNode, seq<Term>>
    /** `init` has run (it may run only once) */
    ghost var initialized: bool

    /** The candidate terms of variable `v`, in source order. */
    function Candidates(v: nat): seq<Term>
      requires v < |quantifier.varTypes|
    {
      if isRd then context.RelevantDomain(quantifier, v)
      else TypeCandidates(context.db, quantifier.varTypes[v])
    }

    /** Every variable has at least one candidate. */
    ghost predicate AllHaveCandidates() {
      forall v | 0 <= v < |quantifier.varTypes| :: |Candidates(v)| > 0
    }

    /** The scores `runLearning` feeds to the sort for `n` candidates of `v`, when a model is loaded. */
    function ScoresFor(v: nat, n: nat): (r: Option<seq<int>>)
      ensures r.Some? ==> |r.value| == n
    {
      if context.ml.None? then None else Some(Scores(context.ml.value, quantifier, v, n))
    }

    /*
      The predicates below that describe `init`'s caches come in two forms:
      one over given values of the fields (suffix `In`), and one over the
      fields themselves. Stating the second through the first lets a proof
      carry them across calls that leave those fields alone.
     */

    /** Every cached candidate list is the one `prepareTerms` builds for its type. */
    ghost predicate CacheSoundIn(dbList: map<TypeNode, seq<Term>>) {
      forall ty | ty in dbList :: dbList[ty] == TypeCandidates(context.db, ty)
    }

    ghost predicate CacheSound()
      reads this`termDbList
    {
      CacheSoundIn(termDbList)
    }

    /** `getTermCore` can answer for variable `v`. */
    ghost predicate PreparedIn(cache: seq<TypeNode>, dbList: map<TypeNode, seq<Term>>, v: nat) {
      && v < |cache| && v < |quantifier.varTypes|
      && cache[v] == quantifier.varTypes[v]
      && CacheSoundIn(dbList)
      && (!isRd ==> cache[v] in dbList)
    }

    ghost predicate Prepared(v: nat)
      reads this`typeCache, this`termDbList
    {
      PreparedIn(typeCache, termDbList, v)
    }

    /** The types of the first `k` variables are cached and their candidate lists can be read. */
    ghost predicate TypesCachedIn(cache: seq<TypeNode>, dbList: map<TypeNode, seq<Term>>, k: nat) {
      && k <= |cache|
      && CacheSoundIn(dbList)
      && forall v | 0 <= v < k :: PreparedIn(cache, dbList, v)
    }

    ghost predicate TypesCached(k: nat)
      reads this`typeCache, this`termDbList
    {
      TypesCachedIn(typeCache, termDbList, k)
    }

    /**
      The first `k` sizes are the candidate counts, and the first `k`
      permutations the learned orders, as `init` computes them.
     */
    ghost predicate SizesKnownIn(sizes: seq<nat>, perms: seq<seq<nat>>, k: nat) {
      && k <= |sizes| && k <= |perms|
      && forall v | 0 <= v < k && v < |quantifier.varTypes| ::
           && sizes[v] == |Candidates(v)|
           && perms[v] == LearnedOrder(sizes[v], ScoresFor(v, sizes[v]))
    }

    ghost predicate SizesKnown(k: nat)
      reads this`termsSizes, this`termPermutations
    {
      SizesKnownIn(termsSizes, termPermutations, k)
    }

    /**
      Once `init` has sized every variable, what it computed is tied to the
      candidates. Kept apart from `Valid` because enumerating never changes
      the fields it reads.
     */
    ghost predicate Linked()
      reads this`initialized, this`typeCache, this`termDbList, this`termsSizes, this`termPermutations
    {
      initialized && |termsSizes| == variableCount ==> TypesCached(variableCount) && SizesKnown(variableCount)
    }

    /**
      The cursor indexes a candidate for every non-empty variable, and under
      the max policy a live cursor lies in its stage.
     */
    ghost predicate CursorValidIn(index: seq<nat>, sizes: seq<nat>, s: nat, count: nat, live: bool) {
      && InSizeBox(index, sizes)
      && count == StageCount(sizes)
      && s <= count
      && (live && !increaseSum ==> s < count && InMaxBox(index, sizes, s))
    }

    ghost predicate CursorValid()
      reads this`termIndex, this`termsSizes, this`stage, this`stageCount, this`hasNext
    {
      CursorValidIn(termIndex, termsSizes, stage, stageCount, hasNext)
    }

    /** `init` completed: every variable has a size and the cursor its length. */
    ghost predicate ReadyIn(done: bool, sizes: seq<nat>, index: seq<nat>) {
      && variableCount == |quantifier.varTypes|
      && done && |sizes| == variableCount && |index| == variableCount
    }

    ghost predicate Ready()
      reads this`initialized, this`termsSizes, this`termIndex
    {
      ReadyIn(initialized, termsSizes, termIndex)
    }

    /** What no step of the enumeration changes. */
    ghost predicate Settled()
      reads this`initialized, this`termPermutations, disabled, context
    {
      && variableCount == |quantifier.varTypes|
      && disabled.Valid() && disabled.ignoreFullySpecified
      && |termPermutations| == (if initialized then variableCount else 0)
    }

    ghost predicate Valid()
      reads this, disabled, context
    {
      && Settled()
      && stepCounter < StepCounterModulus
      && (hasNext ==> Ready())
      && (Ready() ==> CursorValid())
    }

    constructor (quantifier: Quantifier, fullEffort: bool, increaseSum: bool, isRd: bool, context: Context)
      ensures this.quantifier == quantifier && this.fullEffort == fullEffort
      ensures this.increaseSum == increaseSum && this.isRd == isRd && this.context == context
      ensures variableCount == |quantifier.varTypes|
      ensures fresh(disabled) && disabled.root == Empty
      ensures stepCounter == 0 && currentSum == 0 && !hasNext && !initialized
      ensures typeCache == [] && termsSizes == [] && termIndex == [] && termPermutations == []
      ensures termDbList == map[]
      ensures Valid()
    {
      this.quantifier := quantifier;
      this.fullEffort := fullEffort;
      this.increaseSum := increaseSum;
      this.isRd := isRd;
      this.variableCount := |quantifier.varTypes|;
      this.context := context;
      disabled := new IndexTrie.IndexTrie(true);
      typeCache := [];
      termsSizes := [];
      termIndex := [];
      stepCounter := 0;
      currentSum := 0;
      stage := 0;
      stageCount := 1;
      hasNext := false;
      termPermutations := [];
      termDbList := map[];
      initialized := false;
    }

    /** `getTermCore`: candidate `termIx` of variable `v`, read from the cache or the relevant domain. */
    function GetTermCore(v: nat, termIx: nat): (t: Term)
      reads this`typeCache, this`termDbList
      requires Prepared(v) && termIx < |Candidates(v)|
      ensures t == Candidates(v)[termIx]
    {
      if isRd then context.RelevantDomain(quantifier, v)[termIx]
      else termDbList[typeCache[v]][termIx]
    }

    /**
      `prepareTerms`: the number of candidates of variable `v`. The basic
      enumerator builds its type's list on first use, keeping the first
      eligible ground term of each representative in database order.
     */
    method PrepareTerms(v: nat) returns (size: nat)
      requires v < |typeCache| && v < |quantifier.varTypes| && typeCache[v] == quantifier.varTypes[v]
      requires CacheSound()
      modifies this`termDbList
      ensures CacheSound() && Prepared(v)
      ensures size == |Candidates(v)|
      ensures isRd ==> termDbList == old(termDbList)
      ensures !isRd ==> termDbList == old(termDbList)[typeCache[v] := TypeCandidates(context.db, typeCache[v])]
    {
      if isRd {
        return |context.RelevantDomain(quantifier, v)|;
      }
      var db := context.db;
      var ty := typeCache[v];
      if ty !in termDbList {
        var gts := GroundTerms(db, ty);
        var repsFound: map<Term, Term> := map[];
        var list: seq<Term> := [];
        for j := 0 to |gts|
          invariant list == KeptTerms(db, gts, j)
          invariant repsFound.Keys == RepsSeen(db, gts, j)
          invariant termDbList == old(termDbList)
        {
          var gt := gts[j];
          RepsSeenStep(db, gts, j);
          if !db.cegqi || gt !in db.instConstTerms {
            var rep := Representative(db, gt);
            if rep in repsFound {
              continue;
            }
            repsFound := repsFound[rep := gt];
            list := list + [gt];
          }
        }
        TypeCandidatesKept(db, ty);
        termDbList := termDbList[ty := list];
      } else {
        assert termDbList == termDbList[ty := TypeCandidates(db, ty)];
      }
      return |termDbList[ty]|;
    }

    /**
      `runLearning`: the identity permutation without a model or without
      candidates; otherwise the indices stably sorted by descending score.
     */
    method RunLearning(v: nat)
      requires v < |termsSizes| && v < |termPermutations|
      modifies this`termPermutations
      ensures termPermutations
              == old(termPermutations)[v := LearnedOrder(termsSizes[v], ScoresFor(v, termsSizes[v]))]
      ensures var p := termPermutations[v]; var n := termsSizes[v];
        && |p| == n && multiset(p) == multiset(Identity(n))
        && (context.ml.Some? ==> Ordered(p, ScoresFor(v, n).value))
    {
      var termCount := termsSizes[v];
      var permutation := Identity(termCount);
      LearnedOrderSpec(termCount, ScoresFor(v, termCount));
      if context.ml.None? || termCount == 0 {
        termPermutations := termPermutations[v := permutation];
        return;
      }
      var scores: seq<int> := [];
      for termIx := 0 to termCount
        invariant scores == Scores(context.ml.value, quantifier, v, termIx)
      {
        scores := scores + [context.ml.value.score(quantifier, v, termIx)];
      }
      permutation := SortDesc(permutation, scores);
      LearnedOrderSorts(termCount, scores);
      termPermutations := termPermutations[v := permutation];
    }

    /** The inner loop of `init`: offer every candidate of `v` to the context in `phase`. */
    method RecordCandidates(v: nat, termsSize: nat, phase: nat) returns (anyNew: bool)
      requires Prepared(v) && termsSize == |Candidates(v)|
      modifies context`qinfos
      ensures anyNew <==> |InfoOf(context.qinfos, quantifier).termInfos| > |InfoOf(old(context.qinfos), quantifier).termInfos|
      ensures forall i | 0 <= i < termsSize :: Candidates(v)[i] in InfoOf(context.qinfos, quantifier).termInfos
      ensures RecordsGrow(old(context.qinfos), context.qinfos, quantifier, phase)
      ensures InfoOf(context.qinfos, quantifier).currentPhase == InfoOf(old(context.qinfos), quantifier).currentPhase
    {
      anyNew := false;
      for termIx := 0 to termsSize
        invariant forall i | 0 <= i < termIx :: Candidates(v)[i] in InfoOf(context.qinfos, quantifier).termInfos
        invariant RecordsGrow(old(context.qinfos), context.qinfos, quantifier, phase)
        invariant anyNew <==> |InfoOf(context.qinfos, quantifier).termInfos| > |InfoOf(old(context.qinfos), quantifier).termInfos|
        invariant InfoOf(context.qinfos, quantifier).currentPhase == InfoOf(old(context.qinfos), quantifier).currentPhase
      {
        ghost var before := context.qinfos;
        var term := GetTermCore(v, termIx);
        var added := context.AddTerm(quantifier, term, phase);
        RecordsGrowTrans(old(context.qinfos), before, context.qinfos, quantifier, phase);
        anyNew := added || anyNew;
      }
    }

    /**
      `init`: gives up when the body is constant true, or when a variable
      has no candidate and effort is not full. Otherwise every variable's
      candidates are counted, recorded in the context with the current
      phase and ordered; `d_stageCount` becomes the largest count (at least
      1), the cursor all zeros, and the phase goes up when some term was new.
     */
    method Init()
      requires Valid() && !initialized
      requires typeCache == [] && termsSizes == [] && termIndex == [] && termPermutations == [] && termDbList == map[]
      modifies this`stage, this`hasNext, this`stageCount, this`termPermutations, this`initialized
      modifies this`typeCache, this`termDbList, this`termsSizes, this`termIndex, context`qinfos
      ensures Valid() && Linked() && initialized
      ensures hasNext <==> !quantifier.bodyIsTrue
                           && (fullEffort || AllHaveCandidates())
      ensures stage == 0
      ensures hasNext ==> Ready()
      ensures hasNext ==> termIndex == Zeros(variableCount)
      ensures hasNext ==> Recorded(InfoOf(context.qinfos, quantifier).termInfos, variableCount)
      ensures RecordsGrow(old(context.qinfos), context.qinfos, quantifier, InfoOf(old(context.qinfos), quantifier).currentPhase)
      ensures InfoOf(context.qinfos, quantifier).currentPhase
              == InfoOf(old(context.qinfos), quantifier).currentPhase
                 + (if hasNext && |InfoOf(context.qinfos, quantifier).termInfos| > |InfoOf(old(context.qinfos), quantifier).termInfos|
                    then 1 else 0)
    {
      Reset();
      if quantifier.bodyIsTrue {
        hasNext := false;
        return;
      }
      InitRest();
    }

    /**
      `init` past the constant-true check: prepare the variables and, when
      enumeration can start, put the cursor on the first tuple.
     */
    method InitRest()
      requires Settled() && stepCounter < StepCounterModulus && initialized && stage == 0 && hasNext && stageCount == 1
      requires !quantifier.bodyIsTrue
      requires typeCache == [] && termsSizes == [] && termIndex == [] && termDbList == map[]
      requires termPermutations == EmptyPermutations(variableCount)
      modifies this`typeCache, this`termDbList, this`termsSizes, this`stageCount, this`termPermutations
      modifies this`hasNext, this`termIndex, context`qinfos
      ensures Valid()
      ensures Linked()
      ensures hasNext <==> fullEffort || AllHaveCandidates()
      ensures stage == 0
      ensures hasNext ==> Ready()
      ensures hasNext ==> termIndex == Zeros(variableCount)
      ensures hasNext ==> Recorded(InfoOf(context.qinfos, quantifier).termInfos, variableCount)
      ensures RecordsGrow(old(context.qinfos), context.qinfos, quantifier, InfoOf(old(context.qinfos), quantifier).currentPhase)
      ensures InfoOf(context.qinfos, quantifier).currentPhase
              == InfoOf(old(context.qinfos), quantifier).currentPhase
                 + (if hasNext && |InfoOf(context.qinfos, quantifier).termInfos| > |InfoOf(old(context.qinfos), quantifier).termInfos|
                    then 1 else 0)
    {
      InitVariables();
      assert Settled() && stepCounter < StepCounterModulus;
      if hasNext {
        ResetCursor();
      }
    }

    /**
      The first lines of `init`: stage 0, `d_hasNext` set, one stage, and
      `d_termPermutations` resized to one empty permutation per variable.
     */
    method Reset()
      modifies this`stage, this`hasNext, this`stageCount, this`termPermutations, this`initialized
      ensures stage == 0 && hasNext && stageCount == 1 && initialized
      ensures termPermutations == EmptyPermutations(variableCount)
    {
      stage := 0;
      hasNext := true;
      stageCount := 1;
      termPermutations := EmptyPermutations(variableCount);
      initialized := true;
    }

    /**
      The variable loop of `init`: prepare every variable in the current
      phase, giving up (`d_hasNext` cleared) at the first without
      candidates unless effort is full; on success, when some candidate was
      new to the context, increase the phase.
     */
    method InitVariables()
      requires variableCount == |quantifier.varTypes|
      requires typeCache == [] && termsSizes == [] && termDbList == map[]
      requires |termPermutations| == variableCount && stageCount == 1 && hasNext
      modifies this`typeCache, this`termDbList, this`termsSizes, this`stageCount, this`termPermutations
      modifies this`hasNext, context`qinfos
      ensures hasNext <==> fullEffort || AllHaveCandidates()
      ensures |termPermutations| == variableCount && stageCount == StageCount(termsSizes)
      ensures hasNext ==> && |termsSizes| == variableCount
                          && TypesCached(variableCount) && SizesKnown(variableCount)
                          && Recorded(InfoOf(context.qinfos, quantifier).termInfos, variableCount)
      ensures !hasNext ==> |termsSizes| < variableCount
      ensures RecordsGrow(old(context.qinfos), context.qinfos, quantifier, InfoOf(old(context.qinfos), quantifier).currentPhase)
      ensures InfoOf(context.qinfos, quantifier).currentPhase
              == InfoOf(old(context.qinfos), quantifier).currentPhase
                 + (if hasNext && |InfoOf(context.qinfos, quantifier).termInfos| > |InfoOf(old(context.qinfos), quantifier).termInfos|
                    then 1 else 0)
    {
      var currentPhase := context.GetCurrentPhase(quantifier);
      var complete, anyTerms := PrepareVariables(currentPhase);
      if !complete {
        hasNext := false;
        return;
      }
      ghost var prepared := context.qinfos;
      AdvancePhase(anyTerms, currentPhase);
      RecordsGrowTrans(old(context.qinfos), prepared, context.qinfos, quantifier, currentPhase);
    }

    /** `d_termIndex.resize(d_variableCount, 0)` on the empty cursor: one zero per variable, the first tuple of stage 0. */
    method ResetCursor()
      requires initialized && variableCount == |quantifier.varTypes| && |termsSizes| == variableCount
      requires stage == 0 && stageCount == StageCount(termsSizes)
      modifies this`termIndex
      ensures termIndex == Zeros(variableCount) && Ready() && CursorValid()
    {
      termIndex := Zeros(variableCount);
    }

    /**
      The last lines of `init`: when some candidate was new to the context,
      increase the quantifier's phase. What is recorded stays as it was.
     */
    method AdvancePhase(anyTerms: bool, phase: nat)
      requires Recorded(InfoOf(context.qinfos, quantifier).termInfos, variableCount)
      modifies context`qinfos
      ensures Recorded(InfoOf(context.qinfos, quantifier).termInfos, variableCount)
      ensures InfoOf(context.qinfos, quantifier).termInfos == InfoOf(old(context.qinfos), quantifier).termInfos
      ensures RecordsGrow(old(context.qinfos), context.qinfos, quantifier, phase)
      ensures InfoOf(context.qinfos, quantifier).currentPhase == InfoOf(old(context.qinfos), quantifier).currentPhase + (if anyTerms then 1 else 0)
    {
      if anyTerms {
        var _ := context.IncreasePhase(quantifier);
      }
    }

    /**
      The loop of `init` over the variables: it stops at the first variable
      without candidates unless effort is full. Every variable it passes
      has its type cached, its size known, its candidates recorded in
      `phase` and its order learned.
     */
    method PrepareVariables(phase: nat) returns (complete: bool, anyTerms: bool)
      requires variableCount == |quantifier.varTypes|
      requires typeCache == [] && termsSizes == [] && termDbList == map[]
      requires |termPermutations| == variableCount && stageCount == 1
      modifies this`typeCache, this`termDbList, this`termsSizes, this`stageCount, this`termPermutations, context`qinfos
      ensures |termPermutations| == variableCount && stageCount == StageCount(termsSizes)
      ensures complete <==> fullEffort || AllHaveCandidates()
      ensures complete ==> && |termsSizes| == variableCount
                           && TypesCached(variableCount) && SizesKnown(variableCount)
                           && Recorded(InfoOf(context.qinfos, quantifier).termInfos, variableCount)
      ensures !complete ==> |termsSizes| < variableCount
      ensures RecordsGrow(old(context.qinfos), context.qinfos, quantifier, phase)
      ensures anyTerms <==> |InfoOf(context.qinfos, quantifier).termInfos| > |InfoOf(old(context.qinfos), quantifier).termInfos|
      ensures InfoOf(context.qinfos, quantifier).currentPhase == InfoOf(old(context.qinfos), quantifier).currentPhase
    {
      anyTerms := false;
      for variableIx := 0 to variableCount
        invariant Prefix(variableIx)
        invariant Recorded(InfoOf(context.qinfos, quantifier).termInfos, variableIx)
        invariant RecordsGrow(old(context.qinfos), context.qinfos, quantifier, phase)
        invariant anyTerms <==> |InfoOf(context.qinfos, quantifier).termInfos| > |InfoOf(old(context.qinfos), quantifier).termInfos|
        invariant InfoOf(context.qinfos, quantifier).currentPhase == InfoOf(old(context.qinfos), quantifier).currentPhase
      {
        ghost var before := context.qinfos;
        var stop, added := PrepareVariable(variableIx, phase);
        if stop {
          return false, anyTerms;
        }
        RecordsGrowTrans(old(context.qinfos), before, context.qinfos, quantifier, phase);
        anyTerms := added || anyTerms;
      }
      complete := true;
    }

    /** What `init`'s loop has built once it has passed the first `k` variables. */
    ghost predicate Prefix(k: nat)
      reads this`typeCache, this`termDbList, this`termsSizes, this`stageCount, this`termPermutations
    {
      TypesPrefix(k) && SizesPrefix(k)
    }

    /** The types of the first `k` variables are cached, with their candidate lists. */
    ghost predicate TypesPrefixIn(cache: seq<TypeNode>, dbList: map<TypeNode, seq<Term>>, k: nat) {
      && k <= variableCount == |quantifier.varTypes|
      && cache == quantifier.varTypes[..k] && TypesCachedIn(cache, dbList, k)
    }

    ghost predicate TypesPrefix(k: nat)
      reads this`typeCache, this`termDbList
    {
      TypesPrefixIn(typeCache, termDbList, k)
    }

    /**
      The first `k` variables have their sizes, all non-zero unless effort is
      full, and their learned orders; `d_stageCount` is the largest size.
     */
    ghost predicate SizesPrefixIn(sizes: seq<nat>, count: nat, perms: seq<seq<nat>>, k: nat) {
      && |sizes| == k && count == StageCount(sizes)
      && |perms| == variableCount && SizesKnownIn(sizes, perms, k)
      && forall v | 0 <= v < k :: fullEffort || sizes[v] > 0
    }

    ghost predicate SizesPrefix(k: nat)
      reads this`termsSizes, this`stageCount, this`termPermutations
    {
      SizesPrefixIn(termsSizes, stageCount, termPermutations, k)
    }

    /**
      One turn of `init`'s loop for variable `v`: cache its type and count
      its candidates; stop when there is none and effort is not full;
      otherwise record them, append the count and learn the order.
     */
    method PrepareVariable(v: nat, phase: nat) returns (stop: bool, added: bool)
      requires v < variableCount && Prefix(v) && Recorded(InfoOf(context.qinfos, quantifier).termInfos, v)
      modifies this`typeCache, this`termDbList, this`termsSizes, this`stageCount, this`termPermutations, context`qinfos
      ensures stop <==> !fullEffort && |Candidates(v)| == 0
      ensures stop ==> && termsSizes == old(termsSizes) && stageCount == old(stageCount)
                       && termPermutations == old(termPermutations) && context.qinfos == old(context.qinfos)
      ensures !stop ==> Prefix(v + 1) && Recorded(InfoOf(context.qinfos, quantifier).termInfos, v + 1)
      ensures RecordsGrow(old(context.qinfos), context.qinfos, quantifier, phase)
      ensures added <==> |InfoOf(context.qinfos, quantifier).termInfos| > |InfoOf(old(context.qinfos), quantifier).termInfos|
      ensures InfoOf(context.qinfos, quantifier).currentPhase == InfoOf(old(context.qinfos), quantifier).currentPhase
    {
      var termsSize := CacheVariable(v);
      if termsSize == 0 && !fullEffort {
        return true, false;
      }
      added := RecordVariable(v, termsSize, phase);
      SizeVariable(v, termsSize);
      stop := false;
    }

    /** Every candidate of the first `k` variables is among the terms of the quantifier's record. */
    ghost predicate Recorded(termInfos: map<Term, TermInfo>, k: nat) {
      forall v, i | 0 <= v < k && v < |quantifier.varTypes| && 0 <= i < |Candidates(v)| ::
        Candidates(v)[i] in termInfos
    }

    /** Records only grow, so recording the candidates of `k` extends what is recorded to `k + 1` variables. */
    lemma RecordedExtend(a: map<Quantifier, QuantifierInfo>, b: map<Quantifier, QuantifierInfo>, k: nat, phase: nat)
      requires Recorded(InfoOf(a, quantifier).termInfos, k) && RecordsGrow(a, b, quantifier, phase)
      requires k < |quantifier.varTypes| && forall i | 0 <= i < |Candidates(k)| :: Candidates(k)[i] in InfoOf(b, quantifier).termInfos
      ensures Recorded(InfoOf(b, quantifier).termInfos, k + 1)
    {
    }

    /** The start of a turn of `init`'s loop: cache the type of `v` and count its candidates. */
    method CacheVariable(v: nat) returns (termsSize: nat)
      requires v < variableCount && TypesPrefix(v)
      modifies this`typeCache, this`termDbList
      ensures TypesPrefix(v + 1)
      ensures termsSize == |Candidates(v)|
    {
      typeCache := typeCache + [quantifier.varTypes[v]];
      assert quantifier.varTypes[..v + 1] == quantifier.varTypes[..v] + [quantifier.varTypes[v]];
      termsSize := PrepareTerms(v);
      forall u | 0 <= u < v ensures PreparedIn(typeCache, termDbList, u) {
        assert old(Prepared(u));
      }
    }

    /** The middle of a turn of `init`'s loop: offer the candidates of `v` to the context. */
    method RecordVariable(v: nat, termsSize: nat, phase: nat) returns (added: bool)
      requires v < |quantifier.varTypes| && Prepared(v) && termsSize == |Candidates(v)|
      requires Recorded(InfoOf(context.qinfos, quantifier).termInfos, v)
      modifies context`qinfos
      ensures Recorded(InfoOf(context.qinfos, quantifier).termInfos, v + 1)
      ensures added <==> |InfoOf(context.qinfos, quantifier).termInfos| > |InfoOf(old(context.qinfos), quantifier).termInfos|
      ensures RecordsGrow(old(context.qinfos), context.qinfos, quantifier, phase)
      ensures InfoOf(context.qinfos, quantifier).currentPhase == InfoOf(old(context.qinfos), quantifier).currentPhase
    {
      added := RecordCandidates(v, termsSize, phase);
      RecordedExtend(old(context.qinfos), context.qinfos, v, phase);
    }

    /** The end of a turn of `init`'s loop: append the size of `v` and learn its order. */
    method SizeVariable(v: nat, termsSize: nat)
      requires v < variableCount == |quantifier.varTypes| && SizesPrefix(v)
      requires termsSize == |Candidates(v)| && (fullEffort || termsSize > 0)
      modifies this`termsSizes, this`stageCount, this`termPermutations
      ensures SizesPrefix(v + 1)
    {
      AppendSize(termsSize);
      RunLearning(v);
      forall u | 0 <= u < v
        ensures && termsSizes[u] == |Candidates(u)|
                && termPermutations[u] == LearnedOrder(termsSizes[u], ScoresFor(u, termsSizes[u]))
      {
        assert old(termsSizes[u] == |Candidates(u)|);
      }
    }

    /** `d_termsSizes.push_back(termsSize)` and `d_stageCount = max(d_stageCount, termsSize)`. */
    method AppendSize(termsSize: nat)
      modifies this`termsSizes, this`stageCount
      requires stageCount == StageCount(termsSizes)
      ensures termsSizes == old(termsSizes) + [termsSize]
      ensures stageCount == StageCount(termsSizes)
    {
      assert (termsSizes + [termsSize])[..|termsSizes|] == termsSizes;
      termsSizes := termsSizes + [termsSize];
      stageCount := Max(stageCount, termsSize);
    }

    /**
      `nextCombinationMax`: raise the last digit that can still grow within
      its size and the stage, and zero the digits after it.
     */
    method NextCombinationMax() returns (r: bool)
      requires |termIndex| == |termsSizes|
      modifies this`termIndex
      ensures r == NextMax(old(termIndex), termsSizes, stage).Some?
      ensures termIndex == if r then NextMax(old(termIndex), termsSizes, stage).value else old(termIndex)
    {
      var digit: nat := |termIndex|;
      while digit > 0
        invariant digit <= |termIndex| && termIndex == old(termIndex)
        invariant forall j | digit <= j < |termIndex| :: !CanGrowMax(termIndex, termsSizes, stage, j)
      {
        digit := digit - 1;
        var newValue := termIndex[digit] + 1;
        if newValue < termsSizes[digit] && newValue <= stage {
          assert CanGrowMax(termIndex, termsSizes, stage, digit);
          assert LastGrowableMax(termIndex, termsSizes, stage, |termIndex|) == digit;
          termIndex := termIndex[digit := newValue];
          termIndex := termIndex[..digit + 1] + Zeros(|termIndex| - digit - 1);
          assert termIndex == Raised(old(termIndex), digit);
          return true;
        }
      }
      return false;
    }

    /**
      `increaseStageMax`: move to the next stage; past the last one report
      failure, otherwise restart from all zeros with the last digit able to
      hold the new stage set to it. Such a digit exists because
      `d_stageCount` is the largest candidate count.
     */
    method IncreaseStageMax() returns (r: bool)
      requires |termIndex| == |termsSizes| && stageCount == StageCount(termsSizes)
      modifies this`termIndex, this`stage
      ensures (r, termIndex, stage) == TupleStepping.IncreaseStageMax(old(termIndex), termsSizes, old(stage), stageCount)
    {
      stage := stage + 1;
      if stage >= stageCount {
        return false;
      }
      var n := |termIndex|;
      termIndex := Zeros(n);
      ghost var top :| 0 <= top < n && termsSizes[top] == stageCount;
      var found := false;
      var digit: nat := n;
      while !found && digit > 0
        invariant digit <= n && |termIndex| == n == |termsSizes| && stage == old(stage) + 1
        invariant !found ==> termIndex == Zeros(n) && forall j | digit <= j < n :: termsSizes[j] <= stage
        invariant found ==> && digit < n && termIndex == Zeros(n)[digit := stage]
                            && termsSizes[digit] > stage
                            && forall j | digit < j < n :: termsSizes[j] <= stage
      {
        digit := digit - 1;
        if termsSizes[digit] > stage {
          found := true;
          termIndex := termIndex[digit := stage];
        }
      }
      assert termsSizes[top] > stage;
      assert found;
      assert LastDigitAbove(termsSizes, stage, n) == digit;
      return found;
    }

    /**
      `nextCombinationSum`: find the last digit that can grow while some
      weight sits after it, zeroing the digits passed; raise it by one and
      put the remaining weight, less one, back from the last digit down.
     */
    method NextCombinationSum() returns (r: bool)
      requires InSizeBox(termIndex, termsSizes)
      modifies this`termIndex
      ensures (r, termIndex) == NextSum(old(termIndex), termsSizes)
    {
      ghost var t := termIndex;
      var n := |termIndex|;
      var suffixSum := 0;
      var found := false;
      var increaseDigit: nat := n;
      while increaseDigit > 0
        invariant increaseDigit <= n && |termIndex| == n && !found
        invariant suffixSum == Sum(t[increaseDigit..])
        invariant termIndex == t[..increaseDigit] + Zeros(n - increaseDigit)
        invariant forall j | increaseDigit <= j < n :: !CanGrowSum(t, termsSizes, j)
      {
        increaseDigit := increaseDigit - 1;
        assert termIndex[increaseDigit] == t[increaseDigit];
        var newValue := termIndex[increaseDigit] + 1;
        found := suffixSum > 0 && newValue < termsSizes[increaseDigit];
        if found {
          ScanStopsAt(t, termsSizes, increaseDigit);
          termIndex := termIndex[increaseDigit := newValue];
          break;
        }
        ScanPasses(t, termsSizes, increaseDigit, suffixSum);
        suffixSum := suffixSum + termIndex[increaseDigit];
        termIndex := termIndex[increaseDigit := 0];
      }
      if !found {
        ScanExhausted(t, termsSizes);
        return false;
      }
      Refill(suffixSum - 1, t, increaseDigit);
      NextSumAt(t, termsSizes, increaseDigit);
      return true;
    }

    /**
      The refill loop of `nextCombinationSum`: from the last digit down,
      while weight is missing, give each digit as much as its size allows.
      All of it is placed.
     */
    method Refill(missing0: nat, ghost t: seq<nat>, ghost d: nat)
      requires d < |t| == |termIndex| == |termsSizes| && InSizeBox(t, termsSizes)
      requires CanGrowSum(t, termsSizes, d) && missing0 == Sum(t[d + 1..]) - 1
      requires termIndex == Raised(t, d)
      modifies this`termIndex
      ensures termIndex == Refilled(t, termsSizes, d)
    {
      RaiseAndFill(t, termsSizes, d);
      var missing := missing0;
      var digit: nat := |termIndex|;
      while missing > 0 && digit > 0
        invariant digit <= |termIndex| == |termsSizes|
        invariant Fill(termIndex, termsSizes, digit, missing) == Fill(Raised(t, d), termsSizes, |t|, missing0)
      {
        digit := digit - 1;
        var maxValue := if termsSizes[digit] > 0 then termsSizes[digit] - 1 else 0;
        termIndex := termIndex[digit := Min(missing, maxValue)];
        missing := missing - termIndex[digit];
      }
      assert missing == 0;
    }

    /**
      `increaseStageSum`: aim for digit sum `d_currentSum + 1`, writing
      every digit from the last down with `min(missing, maxValue)` and
      adding what it writes to `d_currentSum`. `d_currentStage` is never
      raised, so the loop visits every digit.
     */
    method IncreaseStageSum() returns (r: bool)
      requires |termIndex| == |termsSizes|
      modifies this`termIndex, this`currentSum
      ensures (r, termIndex, currentSum) == TupleStepping.IncreaseStageSum(old(termIndex), termsSizes, old(currentSum))
    {
      var lowerBound := currentSum + 1;
      var currentStage := 0;
      var digit: nat := |termIndex|;
      while currentStage < lowerBound && digit > 0
        invariant digit <= |termIndex| == |termsSizes|
        invariant old(currentSum) <= currentSum <= lowerBound
        invariant Spread(termIndex, termsSizes, digit, lowerBound, currentSum)
                  == Spread(old(termIndex), termsSizes, |termIndex|, lowerBound, old(currentSum))
      {
        digit := digit - 1;
        var missing := lowerBound - currentSum;
        var maxValue := if termsSizes[digit] > 0 then termsSizes[digit] - 1 else 0;
        termIndex := termIndex[digit := Min(missing, maxValue)];
        currentSum := currentSum + termIndex[digit];
      }
      return currentSum >= lowerBound;
    }

    /**
      `nextCombination`: advance with the active policy (next combination
      of the stage, else the next stage) until the trie does not report the
      cursor. Under the sum policy the loop is cut after `fuel` steps.
      `nextCombinationInternal` and `increaseStage` only dispatch on the
      policy, which never changes, so the test is made once, before the loop.
     */
    method NextCombination(fuel: nat) returns (r: bool)
      requires |termIndex| == |termsSizes| && stageCount == StageCount(termsSizes)
      requires !increaseSum ==> stage < stageCount && InMaxBox(termIndex, termsSizes, stage)
      requires increaseSum ==> InSizeBox(termIndex, termsSizes)
      modifies this`termIndex, this`stage, this`currentSum
      ensures !increaseSum ==> && (r, termIndex, stage) == PruneMax(disabled.root, old(termIndex), termsSizes, old(stage), stageCount)
                               && currentSum == old(currentSum)
      ensures increaseSum ==> && (r, termIndex, currentSum) == PruneSum(disabled.root, old(termIndex), termsSizes, old(currentSum), fuel)
                              && stage == old(stage)
      ensures InSizeBox(termIndex, termsSizes) && (old(stage) <= stageCount ==> stage <= stageCount)
      ensures r && !increaseSum ==> stage < stageCount && InMaxBox(termIndex, termsSizes, stage)
    {
      if increaseSum {
        r := SkipDisabledSum(fuel);
      } else {
        PruneMaxExhausted(disabled.root, termIndex, termsSizes, stage);
        r := SkipDisabledMax();
      }
    }

    /** The loop of `nextCombination` under the max policy; it ends when the stages run out. */
    method SkipDisabledMax() returns (r: bool)
      requires !increaseSum
      requires |termIndex| == |termsSizes| && stageCount == StageCount(termsSizes)
      requires stage < stageCount && InMaxBox(termIndex, termsSizes, stage)
      modifies this`termIndex, this`stage, this`currentSum
      ensures (r, termIndex, stage) == PruneMax(disabled.root, old(termIndex), termsSizes, old(stage), stageCount)
      ensures currentSum == old(currentSum)
    {
      while true
        invariant |termIndex| == |termsSizes| && stage < stageCount && InMaxBox(termIndex, termsSizes, stage)
        invariant currentSum == old(currentSum)
        invariant PruneMax(disabled.root, termIndex, termsSizes, stage, stageCount)
                  == PruneMax(disabled.root, old(termIndex), termsSizes, old(stage), stageCount)
        decreases MaxStepsLeft(termIndex, termsSizes, stage, stageCount)
      {
        PruneMaxStep(disabled.root, termIndex, termsSizes, stage, stageCount);
        var moved := NextCombinationMax();
        if !moved {
          moved := IncreaseStageMax();
          if !moved {
            return false;
          }
        }
        if !disabled.Find(termIndex) {
          return true;
        }
      }
    }

    /** The loop of `nextCombination` under the sum policy, cut after `fuel` steps. */
    method SkipDisabledSum(fuel: nat) returns (r: bool)
      requires increaseSum
      requires stageCount == StageCount(termsSizes) && InSizeBox(termIndex, termsSizes)
      modifies this`termIndex, this`stage, this`currentSum
      ensures (r, termIndex, currentSum) == PruneSum(disabled.root, old(termIndex), termsSizes, old(currentSum), fuel)
      ensures stage == old(stage)
    {
      var steps: nat := fuel;
      while steps > 0
        invariant InSizeBox(termIndex, termsSizes) && |termIndex| == |termsSizes| && stage == old(stage)
        invariant PruneSum(disabled.root, termIndex, termsSizes, currentSum, steps)
                  == PruneSum(disabled.root, old(termIndex), termsSizes, old(currentSum), fuel)
      {
        PruneSumStep(disabled.root, termIndex, termsSizes, currentSum, steps);
        steps := steps - 1;
        var moved := NextCombinationSum();
        if !moved {
          moved := IncreaseStageSum();
          if !moved {
            return false;
          }
        }
        if !disabled.Find(termIndex) {
          return true;
        }
      }
      return false;
    }

    /**
      `hasNext`: false for good once the enumeration ended. A call at step
      counter 0 (the first after `init`, and again after the counter wraps)
      reports the cursor without moving; other calls move to the next tuple
      the trie does not report, and end the enumeration when there is none.
      `d_stepCounter` counts calls modulo 2^32.
     */
    method HasNext(fuel: nat) returns (r: bool)
      requires Valid()
      modifies this`termIndex, this`stage, this`currentSum, this`stepCounter, this`hasNext
      ensures Valid()
      ensures r == hasNext
      ensures !old(hasNext) ==> && !r && stepCounter == old(stepCounter) && termIndex == old(termIndex)
                                && stage == old(stage) && currentSum == old(currentSum)
      ensures old(hasNext) ==> stepCounter == (old(stepCounter) + 1) % StepCounterModulus
      ensures old(hasNext) && old(stepCounter) == 0 ==>
                r && termIndex == old(termIndex) && stage == old(stage) && currentSum == old(currentSum)
      ensures old(hasNext) && old(stepCounter) != 0 && !increaseSum ==>
                && (r, termIndex, stage) == PruneMax(disabled.root, old(termIndex), termsSizes, old(stage), stageCount)
                && currentSum == old(currentSum)
      ensures old(hasNext) && old(stepCounter) != 0 && increaseSum ==>
                && (r, termIndex, currentSum) == PruneSum(disabled.root, old(termIndex), termsSizes, old(currentSum), fuel)
                && stage == old(stage)
      ensures r ==> Ready() && InSizeBox(termIndex, termsSizes)
      ensures r && old(stepCounter) != 0 ==> !disabled.Find(termIndex)
    {
      if !hasNext {
        return false;
      }
      var first := stepCounter == 0;
      stepCounter := (stepCounter + 1) % StepCounterModulus;
      if first {
        return true;
      }
      r := NextCombination(fuel);
      if r {
        return true;
      }
      hasNext := false;
      return false;
    }

    /**
      The cursor can be read at variable `v`: its type is cached and, when
      it has candidates, the cursor goes through the learned permutation to
      one of them.
     */
    ghost predicate Readable(v: nat)
      reads this`typeCache, this`termDbList, this`termsSizes, this`termIndex, this`termPermutations
    {
      && v < |termsSizes| && v < |termIndex| && v < |termPermutations| && Prepared(v)
      && (termsSizes[v] > 0 ==> termIndex[v] < |termPermutations[v]|
                                && termPermutations[v][termIndex[v]] < |Candidates(v)|)
    }

    /** After `init`, every variable of a valid cursor is readable. */
    lemma ReadyReadable(v: nat)
      requires Ready() && Linked() && CursorValid() && v < variableCount
      ensures Readable(v)
    {
      var n := termsSizes[v];
      LearnedOrderSpec(n, ScoresFor(v, n));
      assert Prepared(v);
    }

    /**
      `next`: the term of every variable at the cursor, through its learned
      permutation; null exactly for a variable without candidates.
     */
    method Next() returns (terms: seq<Option<Term>>)
      requires Ready() && forall v | 0 <= v < variableCount :: Readable(v)
      ensures |terms| == variableCount
      ensures forall v | 0 <= v < variableCount :: terms[v].None? <==> termsSizes[v] == 0
      ensures forall v | 0 <= v < variableCount && termsSizes[v] > 0 ::
                Readable(v) && terms[v] == Some(Candidates(v)[termPermutations[v][termIndex[v]]])
    {
      terms := [];
      for variableIx := 0 to variableCount
        invariant |terms| == variableIx
        invariant forall v | 0 <= v < variableIx :: terms[v].None? <==> termsSizes[v] == 0
        invariant forall v | 0 <= v < variableIx && termsSizes[v] > 0 ::
                    Readable(v) && terms[v] == Some(Candidates(v)[termPermutations[v][termIndex[v]]])
      {
        var t: Option<Term> := None;
        if termsSizes[variableIx] != 0 {
          assert Readable(variableIx);
          t := Some(GetTermCore(variableIx, termPermutations[variableIx][termIndex[variableIx]]));
        }
        terms := terms + [t];
      }
    }

    /**
      `failureReason`: record that every tuple agreeing with the cursor on
      the positions `mask` marks fails, unless the mask marks them all.
     */
    method FailureReason(mask: seq<bool>)
      requires Valid() && Ready() && |mask| == variableCount
      modifies disabled
      ensures Valid()
      ensures forall w :: old(disabled.Find(w)) ==> disabled.Find(w)
      ensures CountTrue(mask) == |mask| ==> disabled.root == old(disabled.root)
      ensures CountTrue(mask) < |mask| ==>
                forall w | |w| == |mask| && Agrees(mask, termIndex, w, 0) :: disabled.Find(w)
      ensures forall w | |w| == |mask| :: disabled.Find(w) ==> old(disabled.Find(w)) || Agrees(mask, termIndex, w, 0)
    {
      disabled.Add(mask, termIndex);
    }
  }
}
