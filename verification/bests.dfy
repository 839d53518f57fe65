/** The stored best averages, keyed by window size, that both versions of
    the timer keep next to the log. */
module Bests {
  import opened Wrappers
  import opened SolveLog
  import opened Stats

  /** A size without a key stands for a `null` best. */
  type BestRecord = map<nat, real>

  function Lookup(best: BestRecord, n: nat): (r: Option<real>)
    ensures r.Some? <==> n in best
    ensures r.Some? ==> r.value == best[n]
  {
    if n in best then Some(best[n]) else None
  }

  /** Two records that look up alike are equal. */
  lemma {:induction false} LookupExtensional(a: BestRecord, b: BestRecord)
    requires forall n :: Lookup(a, n) == Lookup(b, n)
    ensures a == b
  {
    forall n | n in a
      ensures n in b && a[n] == b[n]
    {
      assert Lookup(a, n) == Lookup(b, n);
    }
    forall n | n in b
      ensures n in a
    {
      assert Lookup(a, n) == Lookup(b, n);
    }
  }

  /** The sizes the log is long enough to have a best average for. */
  function Reached(log: Log): (r: set<nat>)
    ensures forall n :: n in r <==> n in AverageSizes && n <= |log|
  {
    set n | n in AverageSizes && BestAverage(log, n).Some?
  }
}
