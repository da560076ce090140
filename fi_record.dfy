/** The forbidden-interval record that get_interval fills in, and the guard
    that rolls its side-condition list back when an extraction gives up. */
module FiRecords {
  import opened Constraints
  import opened Intervals

  /** A dependency of the record, by its index in the solver. */
  type Dependency = nat

  class FiRecord {
    var interval: Interval
    var sideCond: seq<Signed>
    var src: seq<Signed>            // holds at most one constraint
    var deps: seq<Dependency>
    var coeff: int
    var bitWidth: nat

    /** The "invalid" record: full interval, nothing collected. */
    constructor ()
      ensures Initial()
    {
      interval := Full;
      sideCond := [];
      src := [];
      deps := [];
      coeff := 0;
      bitWidth := 0;
    }

    /** The state the default constructor produces. */
    predicate Initial()
      reads this
    {
      interval == Full && sideCond == [] && src == [] && deps == [] && coeff == 0 && bitWidth == 0
    }

    /** Restores the record to its initial state. */
    method Reset()
      modifies this
      ensures Initial()
    {
      interval := Full;
      sideCond := [];
      src := [];
      coeff := 0;
      deps := [];
      bitWidth := 0;
    }
  }

  /** fi_record::less: records are ordered by the stored lower bound of their
      interval (0 for Full and Empty) and by nothing else. */
  predicate Less(a: FiRecord, b: FiRecord)
    reads a, b
  {
    LoVal(a.interval) < LoVal(b.interval)
  }

  /** Less is a strict weak order, which the sort it is used with requires:
      irreflexive, transitive, and records with equal lower bounds are
      interchangeable. */
  lemma LessIsStrictWeakOrder(a: FiRecord, b: FiRecord, c: FiRecord)
    ensures !Less(a, a)
    ensures Less(a, b) ==> !Less(b, a)
    ensures Less(a, b) && Less(b, c) ==> Less(a, c)
    ensures !Less(a, b) && !Less(b, a) ==> (Less(a, c) <==> Less(b, c)) && (Less(c, a) <==> Less(c, b))
  {
  }

  /** The rollback guard: remembers the length of a record's side-condition
      list and, unless released, cuts the list back to it when the scope ends. */
  class Backtrack {
    var released: bool
    const rec: FiRecord
    const size: nat

    constructor (rec: FiRecord)
      ensures this.rec == rec && size == |rec.sideCond| && !released
    {
      this.rec := rec;
      size := |rec.sideCond|;
      released := false;
    }

    /** The destructor.  The list only grows while the guard is alive, so the
        recorded length is never past its end. */
    method Exit()
      requires size <= |rec.sideCond|
      modifies rec
      ensures rec.sideCond == if released then old(rec.sideCond) else old(rec.sideCond)[..size]
      ensures rec.sideCond[..size] == old(rec.sideCond)[..size]
      ensures rec.interval == old(rec.interval) && rec.src == old(rec.src) && rec.deps == old(rec.deps)
      ensures rec.coeff == old(rec.coeff) && rec.bitWidth == old(rec.bitWidth)
    {
      if !released {
        rec.sideCond := rec.sideCond[..size];
      }
    }
  }
}
