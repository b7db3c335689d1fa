/**
  `TermTupleEnumeratorContext`: what the enumerators of all quantifiers share.
  It gives access to the solver's ground terms, the relevant domain and the
  learned model, and for every quantifier it records each candidate term
  with its age and the phase in which it was first offered.
 */
module EnumeratorContext {
  import opened Wrappers
  import opened Terms
  import opened TermSources

  /** `TermInfo::mk(age, phase)` */
  datatype TermInfo = TermInfo(age: nat, phase: nat)

  /** The per-quantifier record; a value-initialised entry has no terms and phase 0. */
  datatype QuantifierInfo = QuantifierInfo(termInfos: map<Term, TermInfo>, currentPhase: nat)

  const FreshInfo: QuantifierInfo := QuantifierInfo(map[], 0)

  /**
    The ages of a record are dense, as in `DenseAges`: pairwise distinct and
    below the number of recorded terms.
   */
  ghost predicate DenseInfos(termInfos: map<Term, TermInfo>) {
    && (forall t | t in termInfos :: termInfos[t].age < |termInfos|)
    && forall t1, t2 {:trigger termInfos[t1].age, termInfos[t2].age} | t1 in termInfos && t2 in termInfos && t1 != t2 ::
         termInfos[t1].age != termInfos[t2].age
  }

  /** Recording a new term whose age is the current number of terms keeps the record dense. */
  lemma DenseInfosExtend(termInfos: map<Term, TermInfo>, t: Term, info: TermInfo)
    requires DenseInfos(termInfos) && t !in termInfos && info.age == |termInfos|
    ensures |termInfos[t := info]| == |termInfos| + 1
    ensures DenseInfos(termInfos[t := info])
  {
    assert termInfos[t := info].Keys == termInfos.Keys + {t};
  }

  /** The entry `d_qinfos[q]` reads in a registry, a fresh one when absent. */
  function InfoOf(qinfos: map<Quantifier, QuantifierInfo>, q: Quantifier): QuantifierInfo {
    if q in qinfos then qinfos[q] else FreshInfo
  }

  /**
    From `before` to `after` the registry of `q` only gained terms, each
    recorded in `phase`, and no other quantifier's entry changed.
   */
  ghost predicate RecordsGrow(before: map<Quantifier, QuantifierInfo>, after: map<Quantifier, QuantifierInfo>,
                              q: Quantifier, phase: nat)
  {
    && (forall q' | q' != q :: InfoOf(after, q') == InfoOf(before, q'))
    && (forall t | t in InfoOf(before, q).termInfos ::
          t in InfoOf(after, q).termInfos && InfoOf(after, q).termInfos[t] == InfoOf(before, q).termInfos[t])
    && (forall t | t in InfoOf(after, q).termInfos && t !in InfoOf(before, q).termInfos ::
          InfoOf(after, q).termInfos[t].phase == phase)
    && |InfoOf(before, q).termInfos| <= |InfoOf(after, q).termInfos|
  }

  lemma RecordsGrowTrans(a: map<Quantifier, QuantifierInfo>, b: map<Quantifier, QuantifierInfo>,
                         c: map<Quantifier, QuantifierInfo>, q: Quantifier, phase: nat)
    requires RecordsGrow(a, b, q, phase) && RecordsGrow(b, c, q, phase)
    ensures RecordsGrow(a, c, q, phase)
  {
  }

  /**
    The learned model, reduced to what `runLearning` takes from it: the
    predicted score of candidate `termIx` of variable `variableIx` of a
    quantifier.
   */
  datatype Predictor = Predictor(score: (Quantifier, nat, nat) -> int)

  class Context {
    const db: GroundTermDatabase
    /** `d_rd->getRDomain(quantifier, variableIx)->d_terms` */
    const relevantDomain: map<(Quantifier, nat), seq<Term>>
    /** `d_ml`, null when no model is loaded */
    const ml: Option<Predictor>
    var qinfos: map<Quantifier, QuantifierInfo>

    /** Every quantifier's ages are 0 .. k-1 without repeats. */
    ghost predicate Valid()
      reads this
    {
      forall q | q in qinfos :: DenseInfos(qinfos[q].termInfos)
    }

    constructor (db: GroundTermDatabase, relevantDomain: map<(Quantifier, nat), seq<Term>>, ml: Option<Predictor>)
      ensures this.db == db && this.relevantDomain == relevantDomain && this.ml == ml
      ensures qinfos == map[] && Valid()
    {
      this.db := db;
      this.relevantDomain := relevantDomain;
      this.ml := ml;
      qinfos := map[];
    }

    /** The terms of the relevant domain of variable `v` of `q`; empty for a variable it has no entry for. */
    function RelevantDomain(q: Quantifier, v: nat): seq<Term> {
      if (q, v) in relevantDomain then relevantDomain[(q, v)] else []
    }

    /** `d_qinfos[quantifier]`, which value-initialises a missing entry. */
    function Info(q: Quantifier): QuantifierInfo
      reads this
    {
      InfoOf(qinfos, q)
    }

    /** `getCurrentPhase`: 0 for a quantifier never seen. */
    function GetCurrentPhase(q: Quantifier): (r: nat)
      reads this
      ensures q !in qinfos ==> r == 0
      ensures r == InfoOf(qinfos, q).currentPhase
    {
      if q in qinfos then qinfos[q].currentPhase else 0
    }

    /**
      `addTerm`: a term already recorded for `q` is refused and nothing
      changes; otherwise it is recorded with age = number of terms recorded
      for `q` before it and the given phase.
     */
    method AddTerm(q: Quantifier, term: Term, phase: nat) returns (added: bool)
      modifies this`qinfos
      ensures old(Valid()) ==> Valid()
      ensures added <==> term !in InfoOf(old(qinfos), q).termInfos
      ensures !added ==> qinfos == old(qinfos)
      ensures added ==> qinfos == old(qinfos)[q := InfoOf(old(qinfos), q).(termInfos :=
                          InfoOf(old(qinfos), q).termInfos[term := TermInfo(|InfoOf(old(qinfos), q).termInfos|, phase)])]
      ensures added ==> |InfoOf(qinfos, q).termInfos| == |InfoOf(old(qinfos), q).termInfos| + 1
      ensures term in InfoOf(qinfos, q).termInfos && InfoOf(qinfos, q).currentPhase == InfoOf(old(qinfos), q).currentPhase
      ensures RecordsGrow(old(qinfos), qinfos, q, phase)
    {
      var info := Info(q);
      if term in info.termInfos {
        return false;
      }
      var age := |info.termInfos|;
      if Valid() {
        DenseInfosExtend(info.termInfos, term, TermInfo(age, phase));
      }
      qinfos := qinfos[q := info.(termInfos := info.termInfos[term := TermInfo(age, phase)])];
      return true;
    }

    /**
      `increasePhase`: the current phase goes up by one (from 0 to 1 for a
      quantifier never seen). The result is the phase before the increase for
      a known quantifier, and 1 for a new one.
     */
    method IncreasePhase(q: Quantifier) returns (r: nat)
      modifies this`qinfos
      ensures old(Valid()) ==> Valid()
      ensures InfoOf(qinfos, q).currentPhase == InfoOf(old(qinfos), q).currentPhase + 1
      ensures r == if q in old(qinfos) then old(qinfos[q].currentPhase) else 1
      ensures qinfos.Keys == old(qinfos).Keys + {q}
      ensures InfoOf(qinfos, q).termInfos == InfoOf(old(qinfos), q).termInfos
      ensures forall q' | q' in qinfos && q' != q :: qinfos[q'] == old(qinfos[q'])
    {
      if q in qinfos {
        r := qinfos[q].currentPhase;
        qinfos := qinfos[q := qinfos[q].(currentPhase := r + 1)];
      } else {
        qinfos := qinfos[q := FreshInfo.(currentPhase := 1)];
        r := 1;
      }
    }
  }
}
