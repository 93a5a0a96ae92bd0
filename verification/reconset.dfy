/**
 * The per-peer set of transactions waiting for the next reconciliation round
 * (`ReconciliationSet` in src/txreconciliation.cpp).
 */
module ReconSets {
  import opened Common

  datatype ReconciliationSet = ReconciliationSet(wtxids: set<Wtxid>) {

    /** Number of transactions in the set. */
    function GetSize(): nat {
      |wtxids|
    }

    /** Insertion into an ordered set: reports whether the element was new. */
    function Insert(w: Wtxid): (r: (bool, ReconciliationSet))
      ensures r.1.wtxids == wtxids + {w}
      ensures r.0 <==> w !in wtxids
      ensures r.1.GetSize() == GetSize() + (if r.0 then 1 else 0)
    {
      if w in wtxids then (false, this) else (true, ReconciliationSet(wtxids + {w}))
    }

    /** Erasure from an ordered set: reports whether the element was present. */
    function Erase(w: Wtxid): (r: (bool, ReconciliationSet))
      ensures r.1.wtxids == wtxids - {w}
      ensures r.0 <==> w in wtxids
      ensures r.1.GetSize() == GetSize() - (if r.0 then 1 else 0)
    {
      if w in wtxids then (true, ReconciliationSet(wtxids - {w})) else (false, this)
    }

    /** Emptied at the end of every reconciliation to avoid unbounded growth. */
    function Clear(): (r: ReconciliationSet)
      ensures r.GetSize() == 0
    {
      ReconciliationSet({})
    }
  }

  const EmptySet: ReconciliationSet := ReconciliationSet({})
}
