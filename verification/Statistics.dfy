// The counters kept for every size bucket of reads and writes, for every other
// command and over all, against the requests seen since the last clear.
module Statistics {
  import opened Types
  import opened DivMod
  import opened BitTricks

  const BLOCK_SIZE := 512
  const LONGLONG_MAX := 0x7FFF_FFFF_FFFF_FFFF
  const FEATURES := 9

  // Reads and writes, the nine other measured commands, and any other command.
  datatype Cmd = Read | Write | Feature(which: nat) | Other

  predicate Known(cmd: Cmd) {
    cmd.Feature? ==> cmd.which < 9
  }

  datatype Event = Event(cmd: Cmd, blocks: Word, latency: nat)

  // The byte size as the program computes it, in 32 bits.
  function ChunkSize(blocks: Word): Word {
    blocks * BLOCK_SIZE % TWO_TO_THE_32
  }

  datatype Acc = Acc(count: nat, total: nat, min: nat, max: nat)

  const EMPTY_ACC := Acc(0, 0, LONGLONG_MAX, 0)

  function Min(a: nat, b: nat): nat {
    if b < a then b else a
  }

  function Max(a: nat, b: nat): nat {
    if a < b then b else a
  }

  function AddLatency(a: Acc, latency: nat): Acc {
    Acc(a.count + 1, a.total + latency, Min(a.min, latency), Max(a.max, latency))
  }

  // ----- What the counters should hold -----

  function AccOf(ls: seq<nat>): Acc {
    if ls == [] then EMPTY_ACC else AddLatency(AccOf(ls[..|ls| - 1]), ls[|ls| - 1])
  }

  function Sum(ls: seq<nat>): nat {
    if ls == [] then 0 else Sum(ls[..|ls| - 1]) + ls[|ls| - 1]
  }

  // Which latencies an accumulator is about: one command, and for reads and writes
  // one bucket.
  datatype Key = InBucket(cmd: Cmd, bucket: nat) | OfCmd(cmd: Cmd)

  predicate Has(k: Key, e: Event) {
    e.cmd == k.cmd && (k.InBucket? ==> Bucket(ChunkSize(e.blocks)) == k.bucket)
  }

  function Latencies(es: seq<Event>, k: Key): seq<nat> {
    if es == [] then []
    else Latencies(es[..|es| - 1], k) + (if Has(k, es[|es| - 1]) then [es[|es| - 1].latency] else [])
  }

  function Blocks(es: seq<Event>, cmd: Cmd): nat {
    if es == [] then 0
    else Blocks(es[..|es| - 1], cmd) + (if es[|es| - 1].cmd == cmd then es[|es| - 1].blocks else 0)
  }

  // The largest latency and the size, in KB, of the first request that had it.
  function Top(es: seq<Event>): (t: (nat, nat)) {
    if es == [] then (0, 0)
    else
      var t := Top(es[..|es| - 1]);
      var e := es[|es| - 1];
      if t.0 < e.latency then (e.latency, ChunkSize(e.blocks) / 1024) else t
  }

  // An accumulator's parts mean what they say.
  lemma {:induction false} AccMeans(ls: seq<nat>)
    ensures var a := AccOf(ls);
            && a.count == |ls| && a.total == Sum(ls)
            && (forall i :: 0 <= i < |ls| ==> a.min <= ls[i] <= a.max)
            && (a.min == 0x7FFF_FFFF_FFFF_FFFF || a.min in ls)
            && (a.max == 0 || a.max in ls)
  {
    if ls != [] {
      var init, l := ls[..|ls| - 1], ls[|ls| - 1];
      AccMeans(init);
      assert ls == init + [l];
    }
  }

  // The average that is printed lies between the least and the largest latency.
  lemma {:induction false} AccBounds(ls: seq<nat>)
    ensures var a := AccOf(ls);
            a.count > 0 ==> a.min * a.count <= a.total <= a.max * a.count && a.min <= a.total / a.count <= a.max
  {
    if |ls| == 1 {
      assert ls[..0] == [];
      assert AccOf(ls) == AddLatency(EMPTY_ACC, ls[0]);
      DivUnique(ls[0], 1, ls[0], 0);
    } else if |ls| > 1 {
      AccBounds(ls[..|ls| - 1]);
      AccMeans(ls[..|ls| - 1]);
      BoundsStep(AccOf(ls[..|ls| - 1]), ls[|ls| - 1]);
    }
  }

  lemma LeastStep(m: nat, m': nat, n: nat, total: nat, l: nat)
    requires m * n <= total && m' <= m && m' <= l
    ensures m' * (n + 1) <= total + l
  {
    MulGrows(m', m, n);
    assert m' * (n + 1) == m' * n + m';
  }

  lemma MostStep(m: nat, m': nat, n: nat, total: nat, l: nat)
    requires total <= m * n && m <= m' && l <= m'
    ensures total + l <= m' * (n + 1)
  {
    MulGrows(m, m', n);
    assert m' * (n + 1) == m' * n + m';
  }

  lemma BoundsStep(a: Acc, l: nat)
    requires a.count > 0 && a.min * a.count <= a.total <= a.max * a.count
    ensures var b := AddLatency(a, l);
            b.min * b.count <= b.total <= b.max * b.count && b.min <= b.total / b.count <= b.max
  {
    var b := AddLatency(a, l);
    LeastStep(a.min, b.min, a.count, a.total, l);
    MostStep(a.max, b.max, a.count, a.total, l);
    QuotientBetween(b.total, b.count, b.min, b.max);
  }

  lemma MulGrows(a: nat, b: nat, n: nat)
    requires a <= b
    ensures a * n <= b * n
  {
    assert b * n == a * n + (b - a) * n;
  }

  lemma QuotientBetween(n: nat, m: nat, lo: nat, hi: nat)
    requires m > 0 && lo * m <= n <= hi * m
    ensures lo <= n / m <= hi
  {
    assert n == n / m * m + n % m;
    LessByFactor(hi, n / m, m);
    LessByFactor(lo, n / m + 1, m);
  }

  // ----- Which requests a bucket is about -----

  // The largest number of blocks of 512 bytes in a bucket but the last.
  function BucketBlocks(i: nat): nat
    requires i < 8
  {
    [8, 16, 32, 64, 128, 256, 512, 1024][i]
  }

  // A bucket of a command holds its requests with more blocks than fit the one before
  // and no more than fit it; sizes are computed in 32 bits, so modulo 2^23 blocks.
  lemma BucketHas(e: Event, cmd: Cmd, i: nat)
    requires i < 9
    ensures var n := e.blocks % 0x80_0000;
            Has(InBucket(cmd, i), e) <==>
            && e.cmd == cmd && (i > 0 ==> BucketBlocks(i - 1) < n) && (i < 8 ==> n <= BucketBlocks(i))
  {
    ChunkIs(e.blocks);
    BucketBounds(ChunkSize(e.blocks), i);
  }

  lemma ChunkIs(blocks: Word)
    ensures ChunkSize(blocks) == 512 * (blocks % 0x80_0000)
  {
    var (q, r) := (blocks / 0x80_0000, blocks % 0x80_0000);
    assert blocks * 512 == q * TWO_TO_THE_32 + 512 * r;
    DivUnique(blocks * 512, TWO_TO_THE_32, q, 512 * r);
  }

  lemma BucketBounds(size: Word, i: nat)
    requires i < 9
    ensures Bucket(size) == i <==>
            (i > 0 ==> 512 * BucketBlocks(i - 1) < size) && (i < 8 ==> size <= 512 * BucketBlocks(i))
  {
    BucketIsLeast(size);
    BoundsAre();
  }

  lemma BoundsAre()
    ensures Pow2(0) == 1 && Pow2(1) == 2 && Pow2(2) == 4 && Pow2(3) == 8
    ensures Pow2(4) == 16 && Pow2(5) == 32 && Pow2(6) == 64 && Pow2(7) == 128
  {
    assert Pow2(3) == 2 * Pow2(2);
    assert Pow2(5) == 2 * Pow2(4);
    assert Pow2(6) == 2 * Pow2(5) && Pow2(7) == 2 * Pow2(6);
  }

  // The requests that a key has, by their place in the run.
  ghost function Holding(es: seq<Event>, k: Key): set<nat> {
    set i: nat | i < |es| && Has(k, es[i])
  }

  lemma HoldingNext(es: seq<Event>, k: Key)
    requires es != []
    ensures Holding(es, k) ==
            Holding(es[..|es| - 1], k) + (if Has(k, es[|es| - 1]) then {|es| - 1} else {})
  {
  }

  // An accumulator is about as many latencies as its key has requests ...
  lemma {:induction false} LatencyCount(es: seq<Event>, k: Key)
    ensures |Latencies(es, k)| == |Holding(es, k)|
  {
    if es != [] {
      LatencyCount(es[..|es| - 1], k);
      HoldingNext(es, k);
    } else {
      assert Holding(es, k) == {};
    }
  }

  // ... and holds the latency of each of them, and no other.
  lemma {:induction false} LatencyListed(es: seq<Event>, k: Key, l: nat)
    ensures l in Latencies(es, k) <==> exists i :: i in Holding(es, k) && es[i].latency == l
  {
    if es != [] {
      var (init, n) := (es[..|es| - 1], |es| - 1);
      LatencyListed(init, k, l);
      HoldingNext(es, k);
      if l in Latencies(init, k) {
        var i :| i in Holding(init, k) && init[i].latency == l;
        assert i in Holding(es, k) && es[i].latency == l;
      } else if l in Latencies(es, k) {
        assert n in Holding(es, k) && es[n].latency == l;
      }
      if i :| i in Holding(es, k) && es[i].latency == l {
        assert i < n ==> i in Holding(init, k) && init[i].latency == l;
      }
    }
  }

  // ----- Conservation over the buckets -----

  // What the first n buckets of a command hold together.
  function BucketSum(es: seq<Event>, cmd: Cmd, n: nat): nat {
    if n == 0 then 0 else BucketSum(es, cmd, n - 1) + Sum(Latencies(es, InBucket(cmd, n - 1)))
  }

  function BucketCount(es: seq<Event>, cmd: Cmd, n: nat): nat {
    if n == 0 then 0 else BucketCount(es, cmd, n - 1) + |Latencies(es, InBucket(cmd, n - 1))|
  }

  lemma SumSnoc(ls: seq<nat>, l: nat)
    ensures Sum(ls + [l]) == Sum(ls) + l
  {
    assert (ls + [l])[..|ls|] == ls;
  }

  lemma KeySnoc(es: seq<Event>, k: Key)
    requires es != []
    ensures Sum(Latencies(es, k)) ==
            Sum(Latencies(es[..|es| - 1], k)) + (if Has(k, es[|es| - 1]) then es[|es| - 1].latency else 0)
  {
    var (init, e) := (es[..|es| - 1], es[|es| - 1]);
    if Has(k, e) {
      SumSnoc(Latencies(init, k), e.latency);
    } else {
      assert Latencies(init, k) + [] == Latencies(init, k);
    }
  }

  lemma KeyCountSnoc(es: seq<Event>, k: Key)
    requires es != []
    ensures |Latencies(es, k)| == |Latencies(es[..|es| - 1], k)| + (if Has(k, es[|es| - 1]) then 1 else 0)
  {
  }

  predicate Inside(e: Event, cmd: Cmd, n: nat) {
    e.cmd == cmd && Bucket(ChunkSize(e.blocks)) < n
  }

  // What request e adds to the first n buckets of a command.
  function Share(e: Event, cmd: Cmd, n: nat, amount: nat): nat {
    if Inside(e, cmd, n) then amount else 0
  }

  lemma ShareNext(e: Event, cmd: Cmd, n: nat, amount: nat)
    ensures Share(e, cmd, n + 1, amount) ==
            Share(e, cmd, n, amount) + (if Has(InBucket(cmd, n), e) then amount else 0)
  {
  }

  lemma {:induction false} BucketSumSnoc(es: seq<Event>, cmd: Cmd, n: nat)
    requires es != []
    ensures var e := es[|es| - 1];
            BucketSum(es, cmd, n) == BucketSum(es[..|es| - 1], cmd, n) + Share(e, cmd, n, e.latency)
  {
    if n > 0 {
      BucketSumSnoc(es, cmd, n - 1);
      KeySnoc(es, InBucket(cmd, n - 1));
      ShareNext(es[|es| - 1], cmd, n - 1, es[|es| - 1].latency);
    }
  }

  lemma {:induction false} BucketCountSnoc(es: seq<Event>, cmd: Cmd, n: nat)
    requires es != []
    ensures BucketCount(es, cmd, n) == BucketCount(es[..|es| - 1], cmd, n) + Share(es[|es| - 1], cmd, n, 1)
  {
    if n > 0 {
      BucketCountSnoc(es, cmd, n - 1);
      KeyCountSnoc(es, InBucket(cmd, n - 1));
      ShareNext(es[|es| - 1], cmd, n - 1, 1);
    }
  }

  lemma {:induction false} BucketsEmpty(cmd: Cmd, n: nat)
    ensures BucketSum([], cmd, n) == 0 && BucketCount([], cmd, n) == 0
  {
    if n > 0 {
      BucketsEmpty(cmd, n - 1);
    }
  }

  // For every run the nine buckets of a command hold all its requests, each once.
  lemma {:induction false} Conservation(es: seq<Event>, cmd: Cmd)
    ensures BucketSum(es, cmd, REQ_SIZE_COUNT) == Sum(Latencies(es, OfCmd(cmd)))
    ensures BucketCount(es, cmd, REQ_SIZE_COUNT) == |Latencies(es, OfCmd(cmd))|
  {
    if es == [] {
      BucketsEmpty(cmd, REQ_SIZE_COUNT);
    } else {
      Conservation(es[..|es| - 1], cmd);
      BucketSumSnoc(es, cmd, REQ_SIZE_COUNT);
      BucketCountSnoc(es, cmd, REQ_SIZE_COUNT);
      KeySnoc(es, OfCmd(cmd));
      KeyCountSnoc(es, OfCmd(cmd));
    }
  }

  lemma KiloBytes(blocks: Word)
    ensures ChunkSize(blocks) / 1024 == blocks % 0x80_0000 / 2
  {
    ChunkIs(blocks);
    var n := blocks % 0x80_0000;
    DivUnique(512 * n, 1024, n / 2, 512 * (n % 2));
  }

  // The top latency is the largest of all, and its size is that of the first request
  // that took so long.
  lemma {:induction false} TopMeans(es: seq<Event>)
    ensures forall i :: 0 <= i < |es| ==> es[i].latency <= Top(es).0
    ensures Top(es).0 > 0 ==>
              exists i :: 0 <= i < |es| && es[i].latency == Top(es).0 && es[i].blocks % 0x80_0000 / 2 == Top(es).1
                          && forall j :: 0 <= j < i ==> es[j].latency < Top(es).0
  {
    if es != [] {
      var n := |es| - 1;
      var init := es[..n];
      TopMeans(init);
      assert forall i :: 0 <= i < n ==> es[i] == init[i];
      if Top(es).0 > 0 {
        if Top(init).0 < es[n].latency {
          KiloBytes(es[n].blocks);
          assert es[n].latency == Top(es).0;
        } else {
          var i :| 0 <= i < |init| && init[i].latency == Top(init).0 && init[i].blocks % 0x80_0000 / 2 == Top(init).1
                   && forall j :: 0 <= j < i ==> init[j].latency < Top(init).0;
          assert es[i].latency == Top(es).0;
        }
      }
    }
  }

  // ----- The counters in place -----

  lemma LatenciesNext(es: seq<Event>, e: Event, k: Key)
    ensures Latencies(es + [e], k) == Latencies(es, k) + (if Has(k, e) then [e.latency] else [])
  {
    assert (es + [e])[..|es|] == es;
  }

  lemma AccNext(es: seq<Event>, e: Event, k: Key)
    ensures AccOf(Latencies(es + [e], k)) ==
            if Has(k, e) then AddLatency(AccOf(Latencies(es, k)), e.latency) else AccOf(Latencies(es, k))
  {
    LatenciesNext(es, e, k);
    var ls := Latencies(es, k);
    if Has(k, e) {
      assert (ls + [e.latency])[..|ls|] == ls;
    } else {
      assert ls + [] == ls;
    }
  }

  // What the totals of one command hold.
  datatype Totals = Totals(count: nat, blocks: nat, latency: nat)

  function TotalsOf(es: seq<Event>, cmd: Cmd): Totals {
    Totals(|Latencies(es, OfCmd(cmd))|, Blocks(es, cmd), Sum(Latencies(es, OfCmd(cmd))))
  }

  function IntoTotals(t: Totals, e: Event): Totals {
    Totals(t.count + 1, t.blocks + e.blocks, t.latency + e.latency)
  }

  lemma BlocksNext(es: seq<Event>, e: Event, cmd: Cmd)
    ensures Blocks(es + [e], cmd) == Blocks(es, cmd) + (if e.cmd == cmd then e.blocks else 0)
  {
    assert (es + [e])[..|es|] == es;
  }

  lemma TotalsNext(es: seq<Event>, e: Event, cmd: Cmd)
    ensures TotalsOf(es + [e], cmd) ==
            if e.cmd == cmd then IntoTotals(TotalsOf(es, cmd), e) else TotalsOf(es, cmd)
  {
    assert (es + [e])[..|es|] == es;
    BlocksNext(es, e, cmd);
    KeySnoc(es + [e], OfCmd(cmd));
    KeyCountSnoc(es + [e], OfCmd(cmd));
  }

  // The totals of a command count its requests, their blocks and their latencies.
  lemma TotalsGrow(es: seq<Event>, e: Event, cmd: Cmd)
    ensures TotalsOf([], cmd) == Totals(0, 0, 0)
    ensures var t := TotalsOf(es, cmd);
            TotalsOf(es + [e], cmd) ==
            if e.cmd == cmd then Totals(t.count + 1, t.blocks + e.blocks, t.latency + e.latency) else t
  {
    TotalsNext(es, e, cmd);
  }

  // The buckets of a command, one accumulator each.
  ghost predicate BucketsOf(accs: seq<Acc>, es: seq<Event>, cmd: Cmd) {
    |accs| == REQ_SIZE_COUNT &&
    forall i :: 0 <= i < REQ_SIZE_COUNT ==> accs[i] == AccOf(Latencies(es, InBucket(cmd, i)))
  }

  ghost predicate FeaturesOf(accs: seq<Acc>, es: seq<Event>) {
    |accs| == FEATURES && forall i :: 0 <= i < FEATURES ==> accs[i] == AccOf(Latencies(es, OfCmd(Feature(i))))
  }

  lemma BucketsNext(accs: seq<Acc>, es: seq<Event>, e: Event, cmd: Cmd)
    requires BucketsOf(accs, es, cmd)
    ensures var b := Bucket(ChunkSize(e.blocks));
            BucketsOf(if e.cmd == cmd then accs[b := AddLatency(accs[b], e.latency)] else accs, es + [e], cmd)
  {
    forall i | 0 <= i < REQ_SIZE_COUNT
      ensures AccOf(Latencies(es + [e], InBucket(cmd, i))) ==
              if e.cmd == cmd && i == Bucket(ChunkSize(e.blocks)) then AddLatency(accs[i], e.latency) else accs[i]
    {
      AccNext(es, e, InBucket(cmd, i));
    }
  }

  lemma FeaturesNext(accs: seq<Acc>, es: seq<Event>, e: Event)
    requires FeaturesOf(accs, es) && Known(e.cmd)
    ensures FeaturesOf(if e.cmd.Feature? then accs[e.cmd.which := AddLatency(accs[e.cmd.which], e.latency)] else accs,
                       es + [e])
  {
    forall i | 0 <= i < FEATURES
      ensures AccOf(Latencies(es + [e], OfCmd(Feature(i)))) ==
              if e.cmd == Feature(i) then AddLatency(accs[i], e.latency) else accs[i]
    {
      AccNext(es, e, OfCmd(Feature(i)));
    }
  }

  // All the counters but the top latency.
  datatype Books = Books(readAccs: seq<Acc>, writeAccs: seq<Acc>, featureAccs: seq<Acc>,
                         totalR: Totals, totalW: Totals) {
    predicate Sized() {
      |readAccs| == REQ_SIZE_COUNT && |writeAccs| == REQ_SIZE_COUNT && |featureAccs| == FEATURES
    }
  }

  ghost predicate Right(b: Books, es: seq<Event>) {
    && BucketsOf(b.readAccs, es, Read) && BucketsOf(b.writeAccs, es, Write) && FeaturesOf(b.featureAccs, es)
    && b.totalR == TotalsOf(es, Read) && b.totalW == TotalsOf(es, Write)
  }

  function Into(accs: seq<Acc>, i: nat, latency: nat): seq<Acc>
    requires i < |accs|
  {
    accs[i := AddLatency(accs[i], latency)]
  }

  function Posted(b: Books, e: Event): (r: Books)
    requires b.Sized() && Known(e.cmd)
    ensures r.Sized()
  {
    match e.cmd
    case Read =>
      b.(readAccs := Into(b.readAccs, Bucket(ChunkSize(e.blocks)), e.latency), totalR := IntoTotals(b.totalR, e))
    case Write =>
      b.(writeAccs := Into(b.writeAccs, Bucket(ChunkSize(e.blocks)), e.latency), totalW := IntoTotals(b.totalW, e))
    case Feature(k) => b.(featureAccs := Into(b.featureAccs, k, e.latency))
    case Other => b
  }

  // Posting one request keeps the books right.
  lemma PostedRight(b: Books, es: seq<Event>, e: Event)
    requires Right(b, es) && Known(e.cmd)
    ensures Right(Posted(b, e), es + [e])
  {
    PostedBuckets(b, es, e);
    PostedFeatures(b, es, e);
    PostedTotals(b, es, e);
  }

  lemma PostedBuckets(b: Books, es: seq<Event>, e: Event)
    requires Right(b, es) && Known(e.cmd)
    ensures BucketsOf(Posted(b, e).readAccs, es + [e], Read) && BucketsOf(Posted(b, e).writeAccs, es + [e], Write)
  {
    BucketsNext(b.readAccs, es, e, Read);
    BucketsNext(b.writeAccs, es, e, Write);
  }

  lemma PostedFeatures(b: Books, es: seq<Event>, e: Event)
    requires Right(b, es) && Known(e.cmd)
    ensures FeaturesOf(Posted(b, e).featureAccs, es + [e])
  {
    FeaturesNext(b.featureAccs, es, e);
  }

  lemma PostedTotals(b: Books, es: seq<Event>, e: Event)
    requires Right(b, es) && Known(e.cmd)
    ensures Posted(b, e).totalR == TotalsOf(es + [e], Read) && Posted(b, e).totalW == TotalsOf(es + [e], Write)
  {
    TotalsNext(es, e, Read);
    TotalsNext(es, e, Write);
  }

  lemma TopNext(es: seq<Event>, e: Event)
    ensures Top(es + [e]) ==
            if Top(es).0 < e.latency then (e.latency, ChunkSize(e.blocks) / 1024) else Top(es)
  {
    assert (es + [e])[..|es|] == es;
  }

  class Counters {
    var enabled: bool
    var startTime: nat
    const rStats: array<Acc>
    const wStats: array<Acc>
    const features: array<Acc>
    var totalR: Totals
    var totalW: Totals
    var highLatency: nat
    var highLatencyChunk: nat
    // The requests since the last clear.
    ghost var events: seq<Event>

    ghost function View(): Books
      reads this, rStats, wStats, features
    {
      Books(rStats[..], wStats[..], features[..], totalR, totalW)
    }

    ghost predicate Valid()
      reads this, rStats, wStats, features
    {
      && rStats != wStats && rStats != features && wStats != features
      && Right(View(), events) && (highLatency, highLatencyChunk) == Top(events)
    }

    constructor ()
      ensures Valid() && events == [] && enabled && startTime == 0
      ensures fresh(rStats) && fresh(wStats) && fresh(features)
    {
      enabled, startTime := true, 0;
      rStats := new Acc[REQ_SIZE_COUNT](_ => EMPTY_ACC);
      wStats := new Acc[REQ_SIZE_COUNT](_ => EMPTY_ACC);
      features := new Acc[FEATURES](_ => EMPTY_ACC);
      totalR, totalW := Totals(0, 0, 0), Totals(0, 0, 0);
      highLatency, highLatencyChunk := 0, 0;
      events := [];
    }

    method StatisticClear()
      requires Valid()
      modifies this, rStats, wStats, features
      ensures Valid() && events == [] && startTime == old(startTime) && enabled == old(enabled)
    {
      forall i | 0 <= i < rStats.Length {
        rStats[i] := EMPTY_ACC;
      }
      forall i | 0 <= i < wStats.Length {
        wStats[i] := EMPTY_ACC;
      }
      forall i | 0 <= i < features.Length {
        features[i] := EMPTY_ACC;
      }
      totalR, totalW := Totals(0, 0, 0), Totals(0, 0, 0);
      highLatency, highLatencyChunk := 0, 0;
      events := [];
    }

    // One latency into an accumulator of an array.
    static method AddTo(accs: array<Acc>, i: nat, latency: nat)
      requires i < accs.Length
      modifies accs
      ensures accs[..] == Into(old(accs[..]), i, latency)
    {
      var a := accs[i];
      var min, max := a.min, a.max;
      if min > latency {
        min := latency;
      }
      if max < latency {
        max := latency;
      }
      accs[i] := Acc(a.count + 1, a.total + latency, min, max);
    }

    method AddRequest(cmd: Cmd, blocks: Word, latency: nat)
      requires rStats != wStats && rStats != features && wStats != features
      requires View().Sized() && Known(cmd)
      modifies this`totalR, this`totalW, rStats, wStats, features
      ensures View() == Posted(old(View()), Event(cmd, blocks, latency))
    {
      var chunkSize := ChunkSize(blocks);
      match cmd
      case Write =>
        var i := StatisticGetIndex(chunkSize);
        AddTo(wStats, i, latency);
        totalW := Totals(totalW.count + 1, totalW.blocks + blocks, totalW.latency + latency);
      case Read =>
        var i := StatisticGetIndex(chunkSize);
        AddTo(rStats, i, latency);
        totalR := Totals(totalR.count + 1, totalR.blocks + blocks, totalR.latency + latency);
      case Feature(k) =>
        AddTo(features, k, latency);
      case Other =>
    }

    method PostRequest(cmd: Cmd, blocks: Word, latency: nat)
      requires rStats != wStats && rStats != features && wStats != features
      requires Right(View(), events) && Known(cmd)
      modifies this`totalR, this`totalW, rStats, wStats, features
      ensures Right(View(), events + [Event(cmd, blocks, latency)])
    {
      PostedRight(View(), events, Event(cmd, blocks, latency));
      AddRequest(cmd, blocks, latency);
    }

    method SetTopLatency(chunkSize: Word, latency: nat, ghost es: seq<Event>)
      requires Right(View(), es)
      modifies this`highLatency, this`highLatencyChunk
      ensures Right(View(), es)
      ensures (highLatency, highLatencyChunk) ==
              if old(highLatency) < latency then (latency, chunkSize / 1024) else old((highLatency, highLatencyChunk))
    {
      if highLatency < latency {
        highLatency := latency;
        highLatencyChunk := chunkSize / 1024;
      }
    }

    method StatisticEmmcAdd(cmd: Cmd, blocks: Word, latency: nat)
      requires Valid() && Known(cmd)
      modifies this`totalR, this`totalW, this`highLatency, this`highLatencyChunk, this`events, rStats, wStats, features
      ensures Valid()
      ensures events == if enabled then old(events) + [Event(cmd, blocks, latency)] else old(events)
    {
      if !enabled {
        return;
      }
      ghost var e := Event(cmd, blocks, latency);
      TopNext(events, e);
      ghost var es := events + [e];
      PostRequest(cmd, blocks, latency);
      SetTopLatency(ChunkSize(blocks), latency, es);
      events := es;
    }

    method StatisticMmcRequestStart(now: nat)
      requires Valid()
      modifies this`startTime
      ensures Valid() && startTime == if enabled then now else old(startTime)
    {
      if enabled {
        startTime := now;
      }
    }

    // A request is counted when one was started, at a time other than 0, and the
    // clock did not go back since; the start is then forgotten.
    method StatisticMmcRequestDone(cmd: Cmd, blocks: Word, now: nat)
      requires Valid() && Known(cmd)
      modifies this, rStats, wStats, features
      ensures Valid() && enabled == old(enabled)
      ensures startTime == if enabled then 0 else old(startTime)
      ensures events == if enabled && old(startTime) != 0 && old(startTime) <= now
                        then old(events) + [Event(cmd, blocks, now - old(startTime))] else old(events)
    {
      if !enabled || startTime == 0 {
        return;
      }
      if startTime > now {
        ForgetStart();
        return;
      }
      CountDone(cmd, blocks, now - startTime);
    }

    method CountDone(cmd: Cmd, blocks: Word, latency: nat)
      requires Valid() && Known(cmd) && enabled
      modifies this, rStats, wStats, features
      ensures Valid() && enabled && startTime == 0
      ensures events == old(events) + [Event(cmd, blocks, latency)]
    {
      ghost var es := events + [Event(cmd, blocks, latency)];
      StatisticEmmcAdd(cmd, blocks, latency);
      assert events == es;
      ForgetStart();
    }

    method ForgetStart()
      requires Valid()
      modifies this`startTime
      ensures Valid() && startTime == 0
    {
      startTime := 0;
    }
  }
}
