/**
  `QuantifierLogger`: for every quantifier and each of its bound variables,
  the candidate terms offered for that variable, each with its age, the
  number of candidates registered for the variable before it.
 */
module QuantifierLogging {
  import opened Terms

  /** `QuantifierInfo`: one table of first sightings per bound variable. */
  datatype QuantifierInfo = QuantifierInfo(ages: seq<map<Term, nat>>)

  /** The tables of `q`, as they are once `registerCandidate` has sized them: empty ones for an unseen quantifier. */
  function TablesOf(infos: map<Quantifier, QuantifierInfo>, q: Quantifier): (r: seq<map<Term, nat>>)
    ensures q !in infos ==> |r| == |q.varTypes| && forall v | 0 <= v < |r| :: r[v] == map[]
  {
    if q in infos then infos[q].ages else seq(|q.varTypes|, _ => map[])
  }

  /** Each recorded quantifier has one table per bound variable, and every table has the ages 0 .. k-1. */
  ghost predicate WellFormed(infos: map<Quantifier, QuantifierInfo>) {
    forall q | q in infos ::
      |infos[q].ages| == |q.varTypes| && forall v | 0 <= v < |infos[q].ages| :: DenseAges(infos[q].ages[v])
  }

  /**
    `registerCandidate(quantifier, child_ix, candidate)` on the recorded
    info: the new info, and whether the candidate was new for the variable.
   */
  function Register(infos: map<Quantifier, QuantifierInfo>, q: Quantifier, childIx: nat, candidate: Term)
    : (r: (map<Quantifier, QuantifierInfo>, bool))
    requires childIx < |TablesOf(infos, q)|
    ensures r.1 <==> candidate !in TablesOf(infos, q)[childIx]
  {
    var tables := TablesOf(infos, q);
    var candidates := tables[childIx];
    if candidate in candidates then (infos, false)
    else (infos[q := QuantifierInfo(tables[childIx := candidates[candidate := |candidates|]])], true)
  }

  /** A new candidate gets the number of candidates seen before it as its age; a known one keeps its age. */
  lemma RegisterAge(infos: map<Quantifier, QuantifierInfo>, q: Quantifier, childIx: nat, candidate: Term)
    requires childIx < |TablesOf(infos, q)|
    ensures var (after, added) := Register(infos, q, childIx, candidate);
      var before := TablesOf(infos, q)[childIx];
      && childIx < |TablesOf(after, q)|
      && candidate in TablesOf(after, q)[childIx]
      && TablesOf(after, q)[childIx][candidate] == (if added then |before| else before[candidate])
      && |TablesOf(after, q)[childIx]| == (if added then |before| + 1 else |before|)
  {
    var before := TablesOf(infos, q)[childIx];
    if candidate !in before {
      assert TablesOf(Register(infos, q, childIx, candidate).0, q)[childIx] == before[candidate := |before|];
    }
  }

  /** Only the table of the given quantifier and variable changes; the other tables and quantifiers are as they were. */
  lemma RegisterFrame(infos: map<Quantifier, QuantifierInfo>, q: Quantifier, childIx: nat, candidate: Term)
    requires childIx < |TablesOf(infos, q)|
    ensures var after := Register(infos, q, childIx, candidate).0;
      && after.Keys == infos.Keys + {q}
      && (forall p | p in infos && p != q :: after[p] == infos[p])
      && |TablesOf(after, q)| == |TablesOf(infos, q)|
      && forall v | 0 <= v < |TablesOf(infos, q)| && v != childIx :: TablesOf(after, q)[v] == TablesOf(infos, q)[v]
  {
    if candidate in TablesOf(infos, q)[childIx] {
      assert q in infos;
    }
  }

  /** Registering a candidate a second time reports it as known and changes nothing. */
  lemma RegisterTwice(infos: map<Quantifier, QuantifierInfo>, q: Quantifier, childIx: nat, candidate: Term)
    requires childIx < |TablesOf(infos, q)|
    ensures var after := Register(infos, q, childIx, candidate).0;
      childIx < |TablesOf(after, q)| && Register(after, q, childIx, candidate) == (after, false)
  {
    RegisterAge(infos, q, childIx, candidate);
  }

  /** Registration keeps the tables sized to the variables and the ages dense. */
  lemma RegisterWellFormed(infos: map<Quantifier, QuantifierInfo>, q: Quantifier, childIx: nat, candidate: Term)
    requires WellFormed(infos) && childIx < |q.varTypes|
    ensures childIx < |TablesOf(infos, q)|
    ensures WellFormed(Register(infos, q, childIx, candidate).0)
  {
    var tables := TablesOf(infos, q);
    var candidates := tables[childIx];
    if q !in infos {
      forall v | 0 <= v < |tables| ensures DenseAges(tables[v]) {
        EmptyIsDense();
      }
    }
    assert forall v | 0 <= v < |tables| :: DenseAges(tables[v]);
    if candidate !in candidates {
      DenseAgesExtend(candidates, candidate, |candidates|);
      var after := Register(infos, q, childIx, candidate).0;
      assert after[q].ages == tables[childIx := candidates[candidate := |candidates|]];
    }
  }

  class QuantifierLogger {
    /** `d_infos` */
    var infos: map<Quantifier, QuantifierInfo>

    ghost predicate Valid()
      reads this
    {
      WellFormed(infos)
    }

    constructor ()
      ensures infos == map[] && Valid()
    {
      infos := map[];
    }

    /** `clear`: all recorded info is dropped. */
    method Clear()
      modifies this`infos
      ensures infos == map[] && Valid()
    {
      infos := map[];
    }

    /**
      `registerCandidate`: size the tables on a quantifier's first
      registration; then record the candidate with the current table size
      as its age, unless it is already there.
     */
    method RegisterCandidate(quantifier: Quantifier, childIx: nat, candidate: Term) returns (added: bool)
      requires Valid() && childIx < |quantifier.varTypes|
      modifies this`infos
      ensures (infos, added) == Register(old(infos), quantifier, childIx, candidate)
      ensures Valid()
    {
      RegisterWellFormed(infos, quantifier, childIx, candidate);
      if quantifier !in infos {
        infos := infos[quantifier := QuantifierInfo(seq(|quantifier.varTypes|, _ => map[]))];
      }
      assert infos[quantifier].ages == TablesOf(old(infos), quantifier);
      var candidates := infos[quantifier].ages[childIx];
      if candidate in candidates {
        return false;
      }
      infos := infos[quantifier := QuantifierInfo(infos[quantifier].ages[childIx := candidates[candidate := |candidates|]])];
      assert infos == old(infos)[quantifier := infos[quantifier]];
      return true;
    }
  }
}
