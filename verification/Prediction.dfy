// The last packed or cached request that verification predicts to be missing, counted
// from the last flush before the first request it finds wrong.
module Prediction {
  import opened Types
  import opened DivMod
  import opened Interleaving

  datatype State = State(count: nat, last: Option<nat>)

  function LastPage(r: Request): nat
    requires r.sectors >= SECTORS_PER_PAGE
  {
    r.lsn + r.sectors - SECTORS_PER_PAGE
  }

  // One verified request; `normal` as long as none was found wrong.
  function Count(s: State, r: Request, normal: bool, cycle: nat): State
    requires cycle > 0 && r.sectors >= SECTORS_PER_PAGE
  {
    if s.last.Some? then s
    else
      var n := (if r.num % cycle == 0 && normal then 0 else s.count) + 1;
      State(n, if !normal && n >= cycle then Some(LastPage(r)) else None)
  }

  class Predictor {
    var requestCount: nat
    var finished: bool
    var predictedLast: nat

    function View(): State
      reads this
    {
      State(requestCount, if finished then Some(predictedLast) else None)
    }

    constructor ()
      ensures View() == State(0, None)
    {
      requestCount, finished, predictedLast := 0, false, 0;
    }

    method SetLastLsn(r: Request, normal: bool, cycle: nat)
      requires cycle > 0 && r.sectors >= SECTORS_PER_PAGE
      modifies this
      ensures View() == Count(old(View()), r, normal, cycle)
    {
      if finished {
        return;
      }
      if r.num % cycle == 0 {
        if normal {
          requestCount := 0;
        }
      }
      requestCount := requestCount + 1;
      if !normal {
        if requestCount >= cycle {
          predictedLast := r.lsn + r.sectors - SECTORS_PER_PAGE;
          finished := true;
        }
      }
    }
  }

  ghost predicate HavePages(rs: seq<Request>) {
    forall i :: 0 <= i < |rs| ==> rs[i].sectors >= SECTORS_PER_PAGE
  }

  // After all of rs, when the request numbered `first` is the first found wrong.
  function CountAll(rs: seq<Request>, first: nat, cycle: nat): State
    requires cycle > 0 && HavePages(rs)
  {
    if rs == [] then State(0, None)
    else
      var r := rs[|rs| - 1];
      Count(CountAll(rs[..|rs| - 1], first, cycle), r, r.num < first, cycle)
  }

  // The count after n requests without any wrong, and the number of the predicted one.
  function NormalCount(n: nat, cycle: nat): nat
    requires cycle > 0
  {
    if n < cycle then n else n % cycle + 1
  }

  function Predicted(first: nat, cycle: nat): nat
    requires first > 0 && cycle > 0
  {
    var n := NormalCount(first - 1, cycle) + 1;
    if n >= cycle then first else first + cycle - n
  }

  lemma ModNext(n: nat, m: nat)
    requires m > 0
    ensures (n + 1) % m == if n % m == m - 1 then 0 else n % m + 1
  {
    var q, r := n / m, n % m;
    assert n == q * m + r;
    if r == m - 1 {
      assert n + 1 == (q + 1) * m + 0;
      DivUnique(n + 1, m, q + 1, 0);
    } else {
      DivUnique(n + 1, m, q, r + 1);
    }
  }

  lemma SmallMod(n: nat, m: nat)
    requires n < m
    ensures n % m == n
  {
    DivUnique(n, m, 0, n);
  }

  lemma NormalNext(n: nat, cycle: nat)
    requires cycle > 0
    ensures NormalCount(n + 1, cycle) == (if (n + 1) % cycle == 0 then 0 else NormalCount(n, cycle)) + 1
  {
    ModNext(n, cycle);
    if n < cycle {
      SmallMod(n, cycle);
    }
  }

  lemma {:induction false} NormalCounted(rs: seq<Request>, first: nat, cycle: nat)
    requires cycle > 0 && HavePages(rs) && Numbered(rs, 1) && |rs| < first
    ensures CountAll(rs, first, cycle) == State(NormalCount(|rs|, cycle), None)
  {
    if rs != [] {
      NormalCounted(rs[..|rs| - 1], first, cycle);
      NormalNext(|rs| - 1, cycle);
    }
  }

  // What the counting predicts, for any first wrong request: the last page of the
  // request numbered Predicted(first, cycle), as soon as verification comes to it.
  lemma {:induction false} PredictedCounted(rs: seq<Request>, first: nat, cycle: nat)
    requires cycle > 0 && HavePages(rs) && Numbered(rs, 1) && 0 < first <= |rs| + 1
    ensures var (p, s) := (Predicted(first, cycle), CountAll(rs, first, cycle));
            && first <= p
            && (|rs| < p ==> s == State(NormalCount(first - 1, cycle) + (|rs| + 1 - first), None))
            && (|rs| >= p ==> s.last == Some(LastPage(rs[p - 1])))
  {
    if |rs| + 1 == first {
      NormalCounted(rs, first, cycle);
    } else {
      PredictedCounted(rs[..|rs| - 1], first, cycle);
    }
  }

  // Once verification has come to the predicted request, that is the last it counted.
  lemma PredictedLast(rs: seq<Request>, n: nat, first: nat, cycle: nat)
    requires cycle > 0 && n < |rs| && HavePages(rs[..n + 1]) && Numbered(rs, 1) && first > 0
    requires rs[n].sectors >= SECTORS_PER_PAGE
    requires n + 1 == Predicted(first, cycle)
    ensures CountAll(rs[..n + 1], first, cycle).last == Some(LastPage(rs[n]))
  {
    PredictedCounted(rs[..n + 1], first, cycle);
  }

  // The group of requests between two flushes that a request belongs to ends here.
  function GroupEnd(num: nat, cycle: nat): nat
    requires num > 0 && cycle > 0
  {
    ((num - 1) / cycle + 1) * cycle
  }

  // The prediction is the end of the group before the first flush, and for a flush
  // request itself; after the first flush it is one request too early.
  lemma PredictedIff(first: nat, cycle: nat)
    requires first > 0 && cycle > 0
    ensures first <= Predicted(first, cycle) <= GroupEnd(first, cycle)
    ensures Predicted(first, cycle) == GroupEnd(first, cycle) <==> first <= cycle || first % cycle == 0
    ensures Predicted(first, cycle) >= GroupEnd(first, cycle) - 1
  {
    var q, m := (first - 1) / cycle, (first - 1) % cycle;
    assert first - 1 == q * cycle + m;
    assert GroupEnd(first, cycle) == q * cycle + cycle;
    ModNext(first - 1, cycle);
    if first <= cycle {
      DivUnique(first - 1, cycle, 0, first - 1);
    }
  }
}
