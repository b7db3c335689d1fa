# Term tuple enumeration, subsumption trie, "did you mean" and the quantifier logger, in Dafny

This project models the part of CVC4's enumerative quantifier instantiation
that picks, for every bound variable of a quantifier, the next tuple of
candidate terms to try, and proves what that choice guarantees.

- `term_tuple_enumerator.cpp` is modelled across six files.
  - **`tuple_stepping.dfy`** (module `TupleStepping`) has the cursor
    arithmetic as functions. There are two staging policies.
    - Under the *max* policy, stage *s* admits tuples whose digits are all at
      most *s*. `nextCombinationMax` is proved to step to the least larger
      tuple of the stage, and `increaseStageMax` to start a stage at its
      least tuple. A rank measure proves the policy terminates.
    - Under the *sum* policy, `nextCombinationSum` is proved to keep the
      digit sum, to stay inside the candidate counts and to step to the
      least larger tuple with that sum. The refill loop places all of the
      missing weight, as the source's assertion says.
    - `increaseStageSum` is modelled exactly as written. The loop's guard
      tests a `d_currentStage` that the function sets to 0 and never raises,
      so the loop visits every digit. The digits it writes are added to
      `d_currentSum` without subtracting the values they overwrite. When
      some variable has two or more candidates, its result is a single 1 on
      the last such digit and `d_currentSum` goes up by one. Otherwise the
      cursor becomes all zeros, `d_currentSum` is unchanged and the increase
      fails (`IncreaseStageSumAsWritten`). The sum policy therefore revisits the
      digit-sum-1 tuples for ever (`SumPolicyExample`) and never exhausts
      (`SumPolicyNeverExhausts`).
  - **`next_combination.dfy`** (module `NextCombination`) has the pruning
    loop of `nextCombination`. It skips every tuple the disabled-combinations
    trie reports. It is proved to skip nothing the trie does not report, and
    under the max policy to fail only once the stages run out.
  - **`term_sources.dfy`** (module `TermSources`) covers two things.
    - The candidate list the basic enumerator builds in `prepareTerms`: the
      first eligible ground term of every equivalence class, in database
      order. It holds only eligible terms, with distinct representatives,
      and covers every eligible term's class.
    - The order `runLearning` puts a variable's candidates in: a stable sort
      by descending predicted score, proved to be a permutation and ordered.
  - **`enumerator_context.dfy`** (class `EnumeratorContext.Context`) has the
    shared registry of `addTerm`, `getCurrentPhase` and `increasePhase`. A
    term's age is the number of terms recorded before it, so the ages of a
    quantifier stay dense.
  - **`term_tuple_enumerator.dfy`** (class `TermTupleEnumerator.Enumerator`)
    has the enumerator as an object whose fields the methods update: `init`,
    `hasNext`, `next`, `failureReason`, `prepareTerms`, `runLearning` and
    `getTermCore`. The four countdown loops and the pruning loop are
    `while` loops over the cursor field. Each method is proved to compute
    the corresponding function above. `hasNext` is proved never to return a
    tuple the trie disables on a call where the step counter is not 0. The
    counter is 32 bits wide and wraps after 2^32 calls, and a call at 0
    reports the cursor without consulting the trie.
- **`index_trie.h` / `index_trie.cpp`** are modelled separately, because
  the two files define `add_rec` and `find_rec` differently.
  - `index_trie_header.dfy` (module `IndexTrieHeader`) models the header's
    definitions. Every position has a node, and a null blank means "no
    blank".
  - `index_trie.dfy` (module `IndexTrie`) models the implementation file.
    Once no marked position remains, the subtree is freed and null means
    "matches everything".
  - For both, the model proves that insertion is sound (every tuple agreeing
    on the marked positions is found) and monotone (nothing found is lost),
    and that it keeps one edge per value. For the implementation file it
    also proves that insertion into a fresh trie is exact. The enumerator
    uses the implementation file's variant.
  - Module `IndexTrieNode` holds the node shape both variants share.
- **`didyoumean.cpp`** (module `DidYouMean`, `did_you_mean.dfy`) has three
  parts.
  - `editDistance`'s three-row table is proved to compute a recursive edit
    distance. In that distance an addition costs 1, a substitution 2 and a
    deletion 3, while a change of case and a swap of neighbours are free.
  - `getMatch` returns the known word alone, or at most ten qualifying words
    in (score, word) order, leaving none out unless ten better ones are
    listed.
  - `getMatchAsString` formats the matches, and is empty exactly when no
    word is close enough.
- **`quantifier_logger.h` / `quantifier_logger.cpp`** (module
  `QuantifierLogging`, `quantifier_logger.dfy`) have `registerCandidate` as
  a function on the logger's tables. The class `QuantifierLogger` is proved
  to compute it and to keep every table's ages dense. `clear` is modelled
  too.

`base.dfy` holds what several modules share:

- an `Option` type (module `Wrappers`);
- terms and types as opaque numbers;
- the quantifier as its variable types and whether its body is the constant
  `true` (module `Terms`);
- the notion of a table of dense ages.

The solver's services are parameters of the context:

- the ground-term database with its representatives;
- the terms carrying instantiation constants;
- the `cegqi` option;
- the relevant domain;
- the learned model's predicted score.

## Model

| member | source | states |
|---|---|---|
| Terms.EmptyIsDense | src/theory/quantifiers/quantifier_logger.cpp:67-70 | A table with no candidates has dense ages, as every freshly sized variable table does. |
| Terms.DenseAgesExtend | src/theory/quantifiers/quantifier_logger.cpp:76-77 | Recording a new term whose age is the current table size grows the table by one and keeps the ages pairwise distinct and below the size. |
| IndexTrieNode.CountTrue | src/theory/quantifiers/index_trie.h:37 | The number of marked positions is at most the mask length, equals it exactly when every position is marked, and is 0 exactly when none is. |
| IndexTrieNode.EdgeFor | src/theory/quantifiers/index_trie.h:114-122 | The position of the first child edge labelled with the value, or the number of children when no edge carries it. |
| IndexTrieHeader.AddRec | src/theory/quantifiers/index_trie.h:96-127 | Insertion under the header's `add_rec` keeps the shape it relies on: every value edge leads to a real node. |
| IndexTrieHeader.AddRecSound | src/theory/quantifiers/index_trie.h:70-127 | After an insertion, lookup finds every tuple that agrees with the inserted values on the marked positions. |
| IndexTrieHeader.AddRecMonotone | src/theory/quantifiers/index_trie.h:96-127 | A tuple found before an insertion is still found after it. |
| IndexTrieHeader.AddRecOnlyAgreeing | src/theory/quantifiers/index_trie.h:96-127 | An insertion adds nothing else: a tuple found afterwards was found before or agrees with the inserted values on the marked positions. |
| IndexTrieHeader.AddRecKeepsUniqueEdges | src/theory/quantifiers/index_trie.h:107-121 | Insertion reuses an edge with an equal value, so every node keeps at most one edge per value. |
| IndexTrieHeader.EmptyFindsNothing | src/theory/quantifiers/index_trie.h:74-93 | A fresh node finds no non-empty tuple. |
| IndexTrieHeader.IndexTrie.constructor | src/theory/quantifiers/index_trie.h:27-31 | A new trie has an empty root node, is empty, finds no non-empty tuple and keeps the `ignoreFullySpecified` flag. |
| IndexTrieHeader.IndexTrie.IsEmpty | src/theory/quantifiers/index_trie.h:34 | Empty exactly when the root has no value edges; a blank child is not looked at. |
| IndexTrieHeader.IndexTrie.Add | src/theory/quantifiers/index_trie.h:35-44 | A mask marking every position is dropped when the trie ignores such masks; otherwise the root becomes the insertion's result. Everything found before is still found, every tuple agreeing with the inserted values on the marked positions is found, and a tuple of the mask's length is found afterwards only if it was found before or agrees. |
| IndexTrie.AddRec | src/theory/quantifiers/index_trie.cpp:58-99 | While marked positions remain, inserting into a node yields a node again. |
| IndexTrie.SuffixCount | src/theory/quantifiers/index_trie.cpp:82-96 | The count of marked positions from a position on is that position's mark plus the count after it, so the cardinality passed down drops by one exactly at a marked position. |
| IndexTrie.AddRecSound | src/theory/quantifiers/index_trie.cpp:36-99 | After an insertion, lookup finds every tuple that agrees with the inserted values on the marked positions. |
| IndexTrie.AddRecMonotone | src/theory/quantifiers/index_trie.cpp:64-97 | A tuple found before an insertion is still found after it, even where the insertion frees a subtree. |
| IndexTrie.AddRecOnlyAgreeing | src/theory/quantifiers/index_trie.cpp:58-99 | An insertion adds nothing else, even where it frees a subtree to null: a tuple found afterwards was found before or agrees with the inserted values on the marked positions. |
| IndexTrie.AddRecToEmptyExact | src/theory/quantifiers/index_trie.cpp:58-99 | Inserting into a fresh node is exact: a tuple is then found if and only if it agrees with the inserted values on the marked positions. |
| IndexTrie.AllBlankMatchesAll | src/theory/quantifiers/index_trie.cpp:64-72 | A mask with no marked position frees the whole tree, and the null root then matches every tuple. |
| IndexTrie.AddRecKeepsUniqueEdges | src/theory/quantifiers/index_trie.cpp:84-97 | Insertion reuses an edge with an equal value, so every node keeps at most one edge per value. |
| IndexTrie.EmptyFindsNothing | src/theory/quantifiers/index_trie.cpp:36-56 | A fresh root finds no non-empty tuple. |
| IndexTrie.WildcardExample | src/theory/quantifiers/index_trie.cpp:36-99 | With position 0 blank and position 1 fixed to 1, the tuple (5, 1) is found afterwards and (5, 0) is not. |
| IndexTrie.IndexTrie.constructor | src/theory/quantifiers/index_trie.h:27-31 | A new trie has an empty root node, finds no non-empty tuple and keeps the `ignoreFullySpecified` flag. |
| IndexTrie.IndexTrie.IsEmpty | src/theory/quantifiers/index_trie.h:34 | Defined while the root is a node: empty exactly when the root has no value edges. |
| IndexTrie.IndexTrie.Add | src/theory/quantifiers/index_trie.cpp:10-20 | A mask marking every position is dropped when the trie ignores such masks. Otherwise everything found before is still found and every agreeing tuple is found. A tuple of the mask's length is found afterwards only if it was found before or agrees. A non-empty mask with no marked position leaves a null root that matches everything. |
| TupleStepping.Raised | src/theory/quantifiers/term_tuple_enumerator.cpp:383-387 | Raising one digit by one and zeroing the later ones keeps the earlier digits and moves the cursor lexicographically up at that digit. |
| TupleStepping.StageCount | src/theory/quantifiers/term_tuple_enumerator.cpp:218-236 | The stage count is at least 1, at least every candidate count, and equal to one of them unless it is 1. |
| TupleStepping.LastGrowableMax | src/theory/quantifiers/term_tuple_enumerator.cpp:381-390 | The digit found can grow within its size and the stage, and no later digit can; -1 when none can. |
| TupleStepping.CanGrowMaxIff | src/theory/quantifiers/term_tuple_enumerator.cpp:384 | The growth test holds exactly when the digit is below both its largest index and the stage. |
| TupleStepping.MaxBoxInSizeBox | src/theory/quantifiers/term_tuple_enumerator.cpp:379-392 | A cursor inside a stage's box indexes a candidate of every non-empty variable. |
| TupleStepping.NextMaxStep | src/theory/quantifiers/term_tuple_enumerator.cpp:379-392 | A successful max-policy step raises one digit by one, keeps the earlier ones, zeroes the later ones, stays in the stage box and moves lexicographically up. |
| TupleStepping.NextMaxIsLeast | src/theory/quantifiers/term_tuple_enumerator.cpp:379-392 | No tuple of the stage box lies strictly between the cursor and its successor: nothing is skipped. |
| TupleStepping.NextMaxNoneIsLast | src/theory/quantifiers/term_tuple_enumerator.cpp:379-392 | The step fails only on the lexicographically last tuple of the stage box. |
| TupleStepping.LastDigitAbove | src/theory/quantifiers/term_tuple_enumerator.cpp:347-354 | The digit found is the last one whose candidate count exceeds the bound; -1 when there is none. |
| TupleStepping.StageStartIsLeast | src/theory/quantifiers/term_tuple_enumerator.cpp:345-354 | The first tuple of a stage lies in the stage box, and no tuple of the box that reaches the stage in some digit comes before it. |
| TupleStepping.IncreaseStageMaxStart | src/theory/quantifiers/term_tuple_enumerator.cpp:334-357 | Below the last stage a digit able to hold the new stage always exists. The new cursor is the least tuple of the new stage box that reaches the stage in some digit. |
| TupleStepping.MaxPolicyExample | src/theory/quantifiers/term_tuple_enumerator.cpp:334-392 | For candidate counts (2, 3) the max policy yields eight tuples, visiting (1,0) and (1,1) in two stages, and then stops. |
| TupleStepping.AdvanceMaxDecreases | src/theory/quantifiers/term_tuple_enumerator.cpp:359-392 | Every max-policy step stays inside a stage below the stage count and either raises the stage or raises the cursor's bounded rank, so the policy terminates. |
| TupleStepping.SumBelowCapacity | src/theory/quantifiers/term_tuple_enumerator.cpp:419-423 | A valid cursor's digit sum is at most the sum of the largest indices, with equality when every digit is at its largest. |
| TupleStepping.SuffixBelowCapacity | src/theory/quantifiers/term_tuple_enumerator.cpp:417-423 | The same bound holds on every suffix of the cursor. |
| TupleStepping.ScanPasses | src/theory/quantifiers/term_tuple_enumerator.cpp:399-410 | A digit the countdown passes cannot grow; zeroing it adds it to the suffix sum the loop carries. |
| TupleStepping.ScanStopsAt | src/theory/quantifiers/term_tuple_enumerator.cpp:399-410 | Where the countdown stops is the last digit that can grow with weight after it, and raising it in the half-zeroed cursor is the common raise. |
| TupleStepping.NextSumAt | src/theory/quantifiers/term_tuple_enumerator.cpp:394-425 | Once the digit to raise is known, the step succeeds with the raised-and-refilled cursor. |
| TupleStepping.ScanExhausted | src/theory/quantifiers/term_tuple_enumerator.cpp:399-414 | A countdown that passes every digit fails and leaves the cursor all zeros. |
| TupleStepping.LastGrowableSum | src/theory/quantifiers/term_tuple_enumerator.cpp:399-410 | The digit found can grow while weight remains after it, and no later digit can; -1 when none can. |
| TupleStepping.Fill | src/theory/quantifiers/term_tuple_enumerator.cpp:417-422 | The refill loop keeps the cursor's length. |
| TupleStepping.FillSpec | src/theory/quantifiers/term_tuple_enumerator.cpp:416-423 | The refill places exactly the missing weight and leaves nothing missing, the source's assertion. It changes no digit before the refilled range, keeps every digit within its size and packs the weight to the back. |
| TupleStepping.RaiseAndFill | src/theory/quantifiers/term_tuple_enumerator.cpp:401-423 | Raising a digit and refilling the zeroed tail with its old sum minus one keeps the digit sum and the size bounds, places all of the weight and packs the tail to the back. |
| TupleStepping.RefilledSpec | src/theory/quantifiers/term_tuple_enumerator.cpp:394-425 | The successor keeps the raised prefix and the digit sum, stays in the size box, is back-packed after the raised digit and is lexicographically above the cursor. |
| TupleStepping.NextSumStep | src/theory/quantifiers/term_tuple_enumerator.cpp:394-425 | A successful sum-policy step keeps the digit sum, stays in the size box and moves lexicographically up at the raised digit. |
| TupleStepping.NextSumNoneIsLast | src/theory/quantifiers/term_tuple_enumerator.cpp:394-414 | The step fails only when no valid tuple with the same digit sum comes after the cursor. |
| TupleStepping.BackPackedIsLeast | src/theory/quantifiers/term_tuple_enumerator.cpp:416-423 | A back-packed tuple is the least valid tuple with its digit sum among those sharing its prefix. |
| TupleStepping.NextSumIsLeast | src/theory/quantifiers/term_tuple_enumerator.cpp:394-425 | No valid tuple with the same digit sum lies strictly between the cursor and its successor. |
| TupleStepping.Spread | src/theory/quantifiers/term_tuple_enumerator.cpp:318-325 | The spreading loop of the sum-stage increase keeps the cursor's length and leaves the running sum between its start and the target. |
| TupleStepping.SpreadAtBound | src/theory/quantifiers/term_tuple_enumerator.cpp:318-325 | Once the running sum equals the target, the loop writes zeros into every digit it visits. |
| TupleStepping.SpreadOneShort | src/theory/quantifiers/term_tuple_enumerator.cpp:318-325 | One short of the target, the loop leaves a single 1 on the last digit with two or more candidates and zeros elsewhere. |
| TupleStepping.IncreaseStageSumAsWritten | src/theory/quantifiers/term_tuple_enumerator.cpp:313-327 | Whatever the cursor and running sum, the increase succeeds exactly when some variable has two or more candidates. It then leaves a single 1 on the last such digit, with digit sum 1, and raises the running sum by one. |
| TupleStepping.SumPolicyNeverExhausts | src/theory/quantifiers/term_tuple_enumerator.cpp:359-376 | Once some variable has two candidates, the sum policy always produces a next tuple; only the pruning loop's caller bounds it. |
| TupleStepping.SumPolicyExample | src/theory/quantifiers/term_tuple_enumerator.cpp:313-425 | For candidate counts (2, 3) the sum policy alternates between (0,1) and (1,0) while the running sum counts up. |
| NextCombination.PruneMax | src/theory/quantifiers/term_tuple_enumerator.cpp:359-372 | The max-policy skip loop never lowers the stage and always leaves a valid cursor. When it succeeds, the tuple is not reported by the trie and lies in a stage box below the stage count. |
| NextCombination.PruneMaxStep | src/theory/quantifiers/term_tuple_enumerator.cpp:359-372 | One turn of the max-policy skip loop: step or raise the stage, stop unless the trie reports the new tuple, and decrease the number of steps left. |
| NextCombination.PruneSumStep | src/theory/quantifiers/term_tuple_enumerator.cpp:359-372 | One turn of the sum-policy skip loop: step or raise the stage from the zeroed cursor, and stop unless the trie reports the new tuple. |
| NextCombination.PruneMaxExhausted | src/theory/quantifiers/term_tuple_enumerator.cpp:334-340 | With the stage count `init` computes, the max policy fails only once the stage reaches that count. |
| NextCombination.PruneMaxSkipsOnlyDisabled | src/theory/quantifiers/term_tuple_enumerator.cpp:359-372 | Every tuple of the current stage skipped on the way is reported by the trie: before the result, or anywhere after the cursor once the stage changed. |
| NextCombination.PruneSum | src/theory/quantifiers/term_tuple_enumerator.cpp:359-372 | The sum-policy skip loop never lowers the running sum and always leaves a valid cursor. When it succeeds, the tuple is not reported by the trie. |
| NextCombination.UnitInSizeBox | src/theory/quantifiers/term_tuple_enumerator.cpp:318-325 | The cursor the sum-stage increase leaves is a valid cursor. |
| NextCombination.PruneSumSkipsOnlyDisabled | src/theory/quantifiers/term_tuple_enumerator.cpp:359-372 | Every tuple with the cursor's digit sum skipped on the way is reported by the trie: before the result, or anywhere after the cursor once the running sum moved. |
| TermSources.RepBeforeIff | src/theory/quantifiers/term_tuple_enumerator.cpp:502-514 | A representative counts as already seen exactly when an earlier eligible ground term has it. |
| TermSources.FirstOfRepIff | src/theory/quantifiers/term_tuple_enumerator.cpp:503-516 | A ground term is kept exactly when it is eligible and no earlier eligible term has the same representative. |
| TermSources.KeptFromKeptTerms | src/theory/quantifiers/term_tuple_enumerator.cpp:499-518 | Scanning on from the list kept so far ends with the whole candidate list. |
| TermSources.RepsSeenStep | src/theory/quantifiers/term_tuple_enumerator.cpp:509-514 | Looking the representative up in `reps_found` is the first-of-representative test. The set grows by the representative of each eligible term. |
| TermSources.KeptTermsEligible | src/theory/quantifiers/term_tuple_enumerator.cpp:503-516 | The candidate list is no longer than the ground-term list, and holds only eligible terms that come from it. |
| TermSources.KeptTermsDistinctReps | src/theory/quantifiers/term_tuple_enumerator.cpp:509-515 | No two candidates share a representative. |
| TermSources.KeptTermsCover | src/theory/quantifiers/term_tuple_enumerator.cpp:503-516 | Every eligible ground term has its representative among the candidates. |
| TermSources.Identity | src/theory/quantifiers/term_tuple_enumerator.cpp:433-434 | The identity permutation of length n maps every index to itself. |
| TermSources.Insert | src/theory/quantifiers/term_tuple_enumerator.cpp:477-480 | Insertion into the ranked list adds one element and keeps every index in range. |
| TermSources.SortDesc | src/theory/quantifiers/term_tuple_enumerator.cpp:477-480 | Sorting by descending score keeps the length and every index in range. |
| TermSources.InsertPermutes | src/theory/quantifiers/term_tuple_enumerator.cpp:477-480 | Insertion adds exactly the new index to the multiset. |
| TermSources.SortDescPermutes | src/theory/quantifiers/term_tuple_enumerator.cpp:477-480 | The sorted list is a permutation of the input. |
| TermSources.InsertOrdered | src/theory/quantifiers/term_tuple_enumerator.cpp:477-480 | Inserting an index larger than all present keeps the list ordered: higher score first, smaller index first among equal scores. |
| TermSources.SortDescOrdered | src/theory/quantifiers/term_tuple_enumerator.cpp:477-480 | Sorting increasing indices yields a list ordered by descending score, stable among equal scores. |
| TermSources.SortedFromSortDesc | src/theory/quantifiers/term_tuple_enumerator.cpp:477-480 | Inserting the remaining indices one by one into the sorted prefix gives the sort of all of them. |
| TermSources.LearnedOrderSorts | src/theory/quantifiers/term_tuple_enumerator.cpp:428-480 | With a model and at least one candidate, the learned order is the stable descending sort of the identity. |
| TermSources.LearnedOrderSpec | src/theory/quantifiers/term_tuple_enumerator.cpp:428-480 | The learned order is a permutation of 0 .. n-1. With a model it is ordered by descending score and keeps the original order among equal scores. |
| TermTupleEnumerator.TypeCandidatesKept | src/theory/quantifiers/term_tuple_enumerator.cpp:499-518 | The basic enumerator's list for a type is the first eligible ground term of each representative, in database order. |
| TermTupleEnumerator.EmptyPermutations | src/theory/quantifiers/term_tuple_enumerator.cpp:204 | Resizing the empty permutation vector gives one empty permutation per variable. |
| TermTupleEnumerator.Enumerator.constructor | src/theory/quantifiers/term_tuple_enumerator.cpp:41-53 | A new enumerator keeps its quantifier, effort, policy and context. Its variable count is the quantifier's, its step counter and sum are 0, and its disabled-combinations trie is fresh and empty. It is not yet initialised and has no next tuple. |
| TermTupleEnumerator.Enumerator.GetTermCore | src/theory/quantifiers/term_tuple_enumerator.cpp:525-530 | The term for a variable and index is that candidate of the variable, from the type's cached list or from the relevant domain. |
| TermTupleEnumerator.Enumerator.PrepareTerms | src/theory/quantifiers/term_tuple_enumerator.cpp:492-523 | Returns the variable's number of candidates. The basic enumerator caches its type's list; the relevant-domain enumerator changes nothing. The cache stays sound. |
| TermTupleEnumerator.Enumerator.RunLearning | src/theory/quantifiers/term_tuple_enumerator.cpp:428-480 | Only the variable's permutation changes, to a permutation of its candidate indices. With a model the permutation is ordered by descending score, stable among equal scores. |
| TermTupleEnumerator.Enumerator.RecordCandidates | src/theory/quantifiers/term_tuple_enumerator.cpp:229-234 | Every candidate of the variable ends up in the context's record, the record only grows, and the result says whether it grew. |
| TermTupleEnumerator.Enumerator.Init | src/theory/quantifiers/term_tuple_enumerator.cpp:198-247 | A next tuple exists exactly when the body is not constant true and effort is full or every variable has a candidate. Then the cursor is all zeros and every candidate is recorded. The phase goes up by one exactly when a candidate was new. |
| TermTupleEnumerator.Enumerator.InitRest | src/theory/quantifiers/term_tuple_enumerator.cpp:214-247 | The same outcome for `init` past the constant-true test. |
| TermTupleEnumerator.Enumerator.Reset | src/theory/quantifiers/term_tuple_enumerator.cpp:201-204 | Stage 0, a next tuple assumed, one stage and one empty permutation per variable. |
| TermTupleEnumerator.Enumerator.InitVariables | src/theory/quantifiers/term_tuple_enumerator.cpp:214-246 | The variable loop succeeds exactly when effort is full or every variable has a candidate. Then every size and learned order is known, and the stage count is the largest size. The phase is raised exactly when a candidate was new. |
| TermTupleEnumerator.Enumerator.ResetCursor | src/theory/quantifiers/term_tuple_enumerator.cpp:242 | The cursor becomes one zero per variable, a valid cursor of stage 0. |
| TermTupleEnumerator.Enumerator.AdvancePhase | src/theory/quantifiers/term_tuple_enumerator.cpp:243-246 | The quantifier's phase goes up by one exactly when some term was new; its recorded terms are unchanged. |
| TermTupleEnumerator.Enumerator.PrepareVariables | src/theory/quantifiers/term_tuple_enumerator.cpp:218-238 | The loop completes exactly when effort is full or every variable has a candidate. Every variable passed has its type cached, its size and order known and its candidates recorded. The result says whether the record grew. |
| TermTupleEnumerator.Enumerator.PrepareVariable | src/theory/quantifiers/term_tuple_enumerator.cpp:219-237 | Stops, changing no size, order or record, exactly when the variable has no candidate and effort is not full. Otherwise it extends everything computed so far by this variable. |
| TermTupleEnumerator.Enumerator.RecordedExtend | src/theory/quantifiers/term_tuple_enumerator.cpp:229-234 | The record only grows, so once a variable's candidates are recorded every earlier variable's still are. |
| TermTupleEnumerator.Enumerator.CacheVariable | src/theory/quantifiers/term_tuple_enumerator.cpp:220-221 | The variable's type is cached and its candidate count returned. |
| TermTupleEnumerator.Enumerator.RecordVariable | src/theory/quantifiers/term_tuple_enumerator.cpp:229-234 | The variable's candidates join the record and the phase is untouched. |
| TermTupleEnumerator.Enumerator.SizeVariable | src/theory/quantifiers/term_tuple_enumerator.cpp:235-237 | The variable's size and learned order extend the computed prefix. |
| TermTupleEnumerator.Enumerator.AppendSize | src/theory/quantifiers/term_tuple_enumerator.cpp:235-236 | The count is appended and the stage count stays the largest count. |
| TermTupleEnumerator.Enumerator.NextCombinationMax | src/theory/quantifiers/term_tuple_enumerator.cpp:379-392 | The countdown loop computes the max-policy successor, or leaves the cursor unchanged and fails. |
| TermTupleEnumerator.Enumerator.IncreaseStageMax | src/theory/quantifiers/term_tuple_enumerator.cpp:334-357 | The stage loop computes the max-policy stage increase. |
| TermTupleEnumerator.Enumerator.NextCombinationSum | src/theory/quantifiers/term_tuple_enumerator.cpp:394-425 | The countdown and refill loops compute the sum-policy successor. |
| TermTupleEnumerator.Enumerator.Refill | src/theory/quantifiers/term_tuple_enumerator.cpp:416-423 | The refill loop leaves the raised-and-refilled cursor. |
| TermTupleEnumerator.Enumerator.IncreaseStageSum | src/theory/quantifiers/term_tuple_enumerator.cpp:313-327 | The spreading loop computes the sum-stage increase as written. |
| TermTupleEnumerator.Enumerator.NextCombination | src/theory/quantifiers/term_tuple_enumerator.cpp:359-377 | Performs the active policy's pruned step and leaves a valid cursor. Under the max policy a success stays in a stage below the stage count. |
| TermTupleEnumerator.Enumerator.SkipDisabledMax | src/theory/quantifiers/term_tuple_enumerator.cpp:359-372 | The max-policy skip loop computes the pruned step. |
| TermTupleEnumerator.Enumerator.SkipDisabledSum | src/theory/quantifiers/term_tuple_enumerator.cpp:359-372 | The sum-policy skip loop computes the pruned step, cut after the given number of turns. |
| TermTupleEnumerator.Enumerator.HasNext | src/theory/quantifiers/term_tuple_enumerator.cpp:249-272 | A finished enumerator stays finished and unchanged. Otherwise the 32-bit step counter goes up; the first call keeps the initial tuple, and later calls take the pruned step. A tuple reported on a call where the step counter is not 0 is never one the trie disables; the counter wraps after 2^32 calls, and a call at 0 reports the cursor without consulting the trie. |
| TermTupleEnumerator.Enumerator.ReadyReadable | src/theory/quantifiers/term_tuple_enumerator.cpp:295-311 | After `init`, a valid cursor can be read at every variable. |
| TermTupleEnumerator.Enumerator.Next | src/theory/quantifiers/term_tuple_enumerator.cpp:295-311 | One term per variable: null exactly for a variable without candidates, otherwise the candidate at the cursor's position in the learned permutation. |
| TermTupleEnumerator.Enumerator.FailureReason | src/theory/quantifiers/term_tuple_enumerator.cpp:274-293 | The trie loses nothing. A mask marking every position is ignored. Otherwise every tuple agreeing with the cursor on the marked positions is disabled, and a tuple becomes disabled only if it was disabled before or agrees with the cursor there. |
| EnumeratorContext.DenseInfosExtend | src/theory/quantifiers/term_tuple_enumerator.cpp:179-181 | Recording a new term with the record's size as its age grows the record by one and keeps the ages dense. |
| EnumeratorContext.RecordsGrowTrans | src/theory/quantifiers/term_tuple_enumerator.cpp:170-183 | Growth of a quantifier's record in one phase is transitive. |
| EnumeratorContext.Context.AddTerm | src/theory/quantifiers/term_tuple_enumerator.cpp:170-183 | A known term is refused and nothing changes. A new term is recorded with the record's size as its age and the given phase, and nothing else changes. The ages stay dense. |
| EnumeratorContext.Context.GetCurrentPhase | src/theory/quantifiers/term_tuple_enumerator.cpp:185-189 | The recorded phase of the quantifier, and 0 for a quantifier without a record. |
| EnumeratorContext.Context.IncreasePhase | src/theory/quantifiers/term_tuple_enumerator.cpp:191-196 | The phase goes up by one, from 0 for an unseen quantifier. The result is the old phase for a known quantifier and 1 for a new one, and no other record or term changes. |
| DidYouMean.EditDistance | src/util/didyoumean.cpp:66-127 | The three-row table computes the edit distance recurrence for the whole strings. |
| DidYouMean.FillRow | src/util/didyoumean.cpp:86-125 | Row i of the recurrence is written into table row i mod 3, and the two previous rows are kept. |
| DidYouMean.CellCost | src/util/didyoumean.cpp:96-118 | Lowering from the cap through the five ways of reaching a cell yields the cell's combined value. |
| DidYouMean.Combine | src/util/didyoumean.cpp:96-118 | A cell's value is non-negative when its neighbours are. |
| DidYouMean.DistanceFromEmpty | src/util/didyoumean.cpp:82-84 | From the empty string, each character of the target costs one addition. |
| DidYouMean.DistanceToEmpty | src/util/didyoumean.cpp:92 | To the empty string, each character costs one deletion of cost 3. |
| DidYouMean.DistBase | src/util/didyoumean.cpp:82-92 | The first row is j additions and the first column is 3i for the deletions. |
| DidYouMean.CombineAtMost | src/util/didyoumean.cpp:96-118 | A cell is at most the cap and at most each way of reaching it: match or substitution, swap of neighbours, addition and deletion. |
| DidYouMean.DistUpperBound | src/util/didyoumean.cpp:82-118 | The distance of two prefixes is at most deleting one and adding the other. |
| DidYouMean.DistanceBounds | src/util/didyoumean.cpp:82-126 | The edit distance lies between 0 and three times the length of the first string plus the length of the second. |
| DidYouMean.DistCaseOnly | src/util/didyoumean.cpp:98-103 | Prefixes that agree up to ASCII case are at distance 0. |
| DidYouMean.DistanceUpToCase | src/util/didyoumean.cpp:98-103 | Strings equal up to ASCII case are at distance 0. |
| DidYouMean.DistanceToSelf | src/util/didyoumean.cpp:98-100 | A string is at distance 0 from itself. |
| DidYouMean.DistanceExamples | src/util/didyoumean.cpp:71-118 | Additions cost 1 and deletions 3, so the distance is not symmetric. A swap of neighbours and a change of case are free. |
| DidYouMean.LessStrictTotal | src/util/didyoumean.cpp:32 | The (score, word) order of the ordered set is irreflexive, transitive and total. |
| DidYouMean.Insert | src/util/didyoumean.cpp:46 | After inserting into the ordered set, it holds exactly the old pairs and the new one. |
| DidYouMean.InsertSorted | src/util/didyoumean.cpp:46 | Insertion keeps the set strictly sorted. |
| DidYouMean.ScoresOfInsert | src/util/didyoumean.cpp:40-46 | Inserting a word's score keeps the set holding exactly one scored pair per word seen. |
| DidYouMean.ScoreWords | src/util/didyoumean.cpp:32-47 | Reports an exact match exactly when the input is a word. Otherwise it returns the strictly sorted set of every word with its score. |
| DidYouMean.Kept | src/util/didyoumean.cpp:49-60 | A pair is kept exactly when it is present and its score is below the threshold and at most one above the best. |
| DidYouMean.KeptSorted | src/util/didyoumean.cpp:49-60 | Filtering keeps the pairs sorted. |
| DidYouMean.KeepClose | src/util/didyoumean.cpp:49-60 | The second loop returns the words of the kept pairs, in order. |
| DidYouMean.GetMatch | src/util/didyoumean.cpp:27-63 | A known input is returned alone. Otherwise the result has at most ten words, each known and qualifying, strictly ordered by (score, word). No qualifying word is left out unless ten that come before it are listed, and the result is empty exactly when every word scores 7 or more. |
| DidYouMean.FirstIsBest | src/util/didyoumean.cpp:48 | The first pair of the sorted set holds a word with the least score. |
| DidYouMean.KeptFacts | src/util/didyoumean.cpp:49-60 | Every kept pair is a word's own close pair, and every close word's pair is kept. |
| DidYouMean.OfferedQualify | src/util/didyoumean.cpp:49-61 | Every word offered is known and qualifying, and the offer is in (score, word) order. |
| DidYouMean.NoneMissed | src/util/didyoumean.cpp:49-61 | A qualifying word missing from the offer comes after ten offered words. |
| DidYouMean.MatchProperties | src/util/didyoumean.cpp:48-61 | After filtering and truncation, the matches are bounded by ten, qualifying, ordered and complete, and empty exactly when every word scores 7 or more. |
| DidYouMean.Newlines | src/util/didyoumean.cpp:133 | n line ends for a positive n, none otherwise. |
| DidYouMean.MessageEmpty | src/util/didyoumean.cpp:132-143 | The message is empty exactly when there are no matches. |
| DidYouMean.ListingShowsEach | src/util/didyoumean.cpp:139-141 | Every match appears in the listing on a line of its own, indented by eight spaces. |
| DidYouMean.AppendNewlines | src/util/didyoumean.cpp:133 | The count-down loop appends the requested line ends. |
| DidYouMean.AppendListing | src/util/didyoumean.cpp:139-141 | The loop appends the listing of the matches. |
| DidYouMean.FormatMatches | src/util/didyoumean.cpp:131-144 | The text built is the message for the matches and the newline counts. |
| DidYouMean.GetMatchAsString | src/util/didyoumean.cpp:129-145 | The text is the message for the matches `getMatch` finds, with all of their guarantees: a known input alone; otherwise at most ten qualifying words in (score, word) order, none missed. The text is empty exactly when no word scores below 7. |
| QuantifierLogging.TablesOf | src/theory/quantifiers/quantifier_logger.cpp:67-70 | An unseen quantifier gets one empty table per bound variable. |
| QuantifierLogging.Register | src/theory/quantifiers/quantifier_logger.cpp:63-78 | Reports a candidate as new exactly when the variable's table does not yet hold it. |
| QuantifierLogging.RegisterAge | src/theory/quantifiers/quantifier_logger.cpp:71-77 | A new candidate's age is the number of candidates before it and the table grows by one; a known candidate keeps its age. |
| QuantifierLogging.RegisterFrame | src/theory/quantifiers/quantifier_logger.cpp:63-78 | Only the named variable's table of the named quantifier changes; the quantifier is present afterwards. |
| QuantifierLogging.RegisterTwice | src/theory/quantifiers/quantifier_logger.cpp:71-75 | Registering the same candidate again reports it as known and changes nothing. |
| QuantifierLogging.RegisterWellFormed | src/theory/quantifiers/quantifier_logger.cpp:67-77 | Registration keeps one table per bound variable, each with dense ages. |
| QuantifierLogging.QuantifierLogger.constructor | src/theory/quantifiers/quantifier_logger.h:43 | A new logger records nothing. |
| QuantifierLogging.QuantifierLogger.Clear | src/theory/quantifiers/quantifier_logger.h:28-32 | Clearing drops all recorded information. |
| QuantifierLogging.QuantifierLogger.RegisterCandidate | src/theory/quantifiers/quantifier_logger.cpp:63-78 | The logger's new state and result are those of `Register`, and its tables stay well formed. |

## Left out

- The learned model's features (age, phase, relevance, term depth), the floating-point prediction and the model files. The score is an abstract integer function of the quantifier, the variable and the candidate index; only the order the stable sort gives it is modelled.
- Timers, statistics counters, `Trace` output, `print` of the logger and the logger's static singleton: none of them affects what is enumerated or recorded.
- `free_rec`, destructors and all manual memory management: the trie is a value tree held by the enumerator's `IndexTrie` object.
- `mkTermTupleEnumerator` and the `Basic`/`RD` subclasses as separate classes: one class carries an `isRd` flag that selects the term source.
- The quantifier engine, the relevant-domain computation, term depth and the ground-term database are abstract inputs. `inst_strategy_enumerative.cpp`, `proof_generator.h` and `infer_proof_cons.h` are not part of this model.
- TermTupleEnumerator.Enumerator.NextCombination: under the sum policy the source's pruning loop has no bound. It may run for ever once the trie disables every tuple of digit sum 1. The model takes a `fuel` count of turns and states the result of the loop cut after that many turns.
- TermTupleEnumerator.Enumerator.SkipDisabledSum: the same `fuel` bound.
- TermTupleEnumerator.Enumerator.HasNext: the same `fuel` bound under the sum policy.
- NextCombination.PruneSum: the same `fuel` bound. It states only the validity of the cursor, the growth of the running sum, and that a found tuple is not disabled.
- The policy flag: the source switches on `d_increaseSum` in `nextCombinationInternal` and on `options::fullSaturateSum()` in `increaseStage`. The model has one flag for both.
- `d_currentStage` is not declared in the source. In `increaseStageSum` it is modelled as the 0 the function assigns.
- TermTupleEnumerator.Enumerator.HasNext: the debug assertion `Assert(d_currentStage == 0)` on the step counter's 0 branch is not modelled. Read as `d_stage == 0`, it holds on the first call after `init`: the constructor sets the counter to 0, `init` leaves it alone and ensures `stage == 0`. After the counter wraps past 2^32 calls, once `d_stage > 0`, it fails in a debug build. The model returns true at that call without checking it, as a release build does.
- `init` runs once per enumerator, as the enumerator's life cycle has it. `hasNext` before `init` reads an uninitialised `d_hasNext` and is not modelled.
- Integer widths: `size_t` indices and sums are unbounded. Only `d_stepCounter` is modelled with its 32-bit wrap-around. The edit-distance table's cap `INF` is modelled exactly.
- `find` takes no change-prefix length, and `failureReason` records only the mask and the current cursor. The model has no change prefix either.
- Two behaviours of the code that the model keeps as written:
  - for candidate counts (2, 3) the max policy yields eight tuples (`MaxPolicyExample`);
  - a quantifier with no variables yields one empty tuple.
- TermTupleEnumerator.Enumerator.Next: requires the cursor to be readable at every variable. `ReadyReadable` derives this for a valid enumerator after `init`. The link between the cached sizes and the candidates is kept in a separate `Linked` predicate.
- EnumeratorContext.Context.AddTerm: states that the dense-ages invariant is preserved (`old(Valid()) ==> Valid()`) rather than requiring it.
- EnumeratorContext.Context.IncreasePhase: the same form of invariant preservation.
- IndexTrie.IndexTrie.IsEmpty: the header's `isEmpty` dereferences the root, which the implementation file's `add` may set to null. The model defines it only while the root is a node.
- QuantifierLogging.QuantifierLogger.RegisterCandidate: requires the variable index to be in range, which the source leaves to its callers.
- QuantifierLogging.Register: assumes the C++17 sequencing of `candidates[candidate] = candidates.size()`, under which the new age is the size before insertion.
- DidYouMean.EditDistance: characters stand for the bytes of a `std::string`, and only ASCII input (every character below 128) is modelled faithfully. A multi-byte UTF-8 character is one character here but several bytes in the source, which changes the distance; `tolower` on a negative `char` is undefined in the source and is not modelled.
- DidYouMean.Score: the same restriction to ASCII input.
- DidYouMean.GetMatch: requires a non-empty word set, because the source dereferences the first element of the score set. `d_words` is a set of strings; the order in which it is iterated does not affect the result.
- The rest of the `DidYouMean` class (`addWord`, the header) is not part of this model.
- Several source functions are split into helper methods so that each proof stays small:
  - `editDistance`: `FillRow` and `CellCost`;
  - `getMatch`: `ScoreWords` and `KeepClose`;
  - `getMatchAsString`: `AppendNewlines`, `AppendListing` and `FormatMatches`;
  - `init`: `Reset`, `InitRest`, `InitVariables`, `PrepareVariables`, `PrepareVariable`, `CacheVariable`, `RecordVariable`, `SizeVariable`, `AppendSize`, `ResetCursor` and `AdvancePhase`.
