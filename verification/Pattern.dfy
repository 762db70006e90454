// Writing and verifying as the same pass: the interleaving loop with the operation
// passed in, and the two callers that seed the generator before it.
module Pattern {
  import opened Types
  import opened Well512
  import opened SectorCount
  import opened Interleaving

  const LARGE_KIND := 4
  const ZONE_SECTORS := 0x20000

  // ----- The halves of the test area -----

  function ZoneNum(first: nat, sector: nat): nat
    requires first <= sector
  {
    (sector - first) / ZONE_SECTORS
  }

  function FirstSectorInZone(first: nat, zone: nat): nat {
    first + zone * ZONE_SECTORS
  }

  function Halves(first: nat, length: nat, cached: bool, flushCycle: nat): (c: Cfg)
    ensures c.End() == FirstSectorInZone(first, length / ZONE_SECTORS / 2)
  {
    Cfg(first, length / ZONE_SECTORS / 2 * ZONE_SECTORS, cached, flushCycle)
  }

  // Both halves, and so every request of a tiling pass, lie in the test area.
  lemma HalvesFit(first: nat, length: nat, cached: bool, flushCycle: nat)
    ensures var c := Halves(first, length, cached, flushCycle);
            && OnPage(c.half) && c.first == first && c.cached == cached && c.flushCycle == flushCycle
            && c.End() + c.half <= first + length < c.End() + c.half + 2 * ZONE_SECTORS
            && (length >= 2 * ZONE_SECTORS <==> c.half > 0)
  {
    var z := length / ZONE_SECTORS;
    assert length == z * ZONE_SECTORS + length % ZONE_SECTORS;
    assert z == 2 * (z / 2) + z % 2;
    assert z / 2 * ZONE_SECTORS % SECTORS_PER_PAGE == 0;
  }

  lemma ZoneOfSector(first: nat, zone: nat, offset: nat)
    requires offset < ZONE_SECTORS
    ensures ZoneNum(first, FirstSectorInZone(first, zone) + offset) == zone
  {
    assert (zone * ZONE_SECTORS + offset) / ZONE_SECTORS == zone;
  }

  // ----- The sizes a seed gives -----

  ghost function SizeAt(g: Gen, k: nat): (n: nat)
    requires g.Valid()
    ensures SizeInRange(n)
  {
    var r := Draw(After(g, k)) as nat;
    SectorsPossible(LARGE_KIND, r);
    Sectors(LARGE_KIND, r)
  }

  ghost function SizesOf(g: Gen): (sizes: Sizes)
    requires g.Valid()
    ensures InRange(sizes) && forall k: nat :: sizes(k) == SizeAt(g, k)
  {
    (k: nat) => SizeAt(g, k)
  }

  // A size is a whole number of pages, from 64 to 1024 sectors, by the draw modulo 121.
  lemma SizeIs(g: Gen, k: nat)
    requires g.Valid()
    ensures SizesOf(g)(k) == 64 + 8 * (Draw(After(g, k)) as nat % 121)
  {
  }

  // The states a generator goes through, one draw apart, and the sizes they give.
  type Orbit = nat -> Gen

  ghost predicate Follows(orbit: Orbit, sizes: Sizes, k: nat) {
    && orbit(k).Valid() && orbit(k + 1) == Step(orbit(k))
    && sizes(k) == Sectors(LARGE_KIND, Draw(orbit(k)) as nat)
  }

  ghost predicate Source(orbit: Orbit, sizes: Sizes) {
    InRange(sizes) && forall k: nat {:trigger Follows(orbit, sizes, k)} :: Follows(orbit, sizes, k)
  }

  ghost function OrbitOf(g: Gen): (orbit: Orbit)
    requires g.Valid()
    ensures Source(orbit, SizesOf(g)) && orbit(0) == g
  {
    var orbit: Orbit := (k: nat) => After(g, k);
    assert forall k: nat :: Follows(orbit, SizesOf(g), k);
    orbit
  }

  ghost predicate Drawn(gen: Generator, orbit: Orbit, k: nat)
    reads gen, gen.state
  {
    gen.Valid() && gen.View() == orbit(k)
  }

  method DrawSize(gen: Generator, ghost orbit: Orbit, ghost sizes: Sizes, ghost k: nat) returns (n: nat)
    requires Source(orbit, sizes) && Drawn(gen, orbit, k)
    modifies gen, gen.state
    ensures Drawn(gen, orbit, k + 1) && n == sizes(k)
  {
    assert Follows(orbit, sizes, k);
    n := RandomSectorCount(gen, LARGE_KIND);
  }

  // ----- The loop, with the operation on a request passed in -----

  // The result of operating on the n-th request issued; 0 lets the loop go on.
  type Operation = (nat, Request) -> int

  // The requests issued so far all succeeded.
  ghost predicate AllDone(operate: Operation, issued: seq<Request>) {
    forall i :: 0 <= i < |issued| ==> operate(i, issued[i]) == 0
  }

  // Of the requests rs, those up to the first that does not succeed are issued.
  ghost predicate RunsTo(rs: seq<Request>, operate: Operation, issued: seq<Request>, ret: int) {
    if ret == 0 then issued == rs && AllDone(operate, rs)
    else
      && issued != [] && issued <= rs
      && AllDone(operate, issued[..|issued| - 1])
      && operate(|issued| - 1, issued[|issued| - 1]) == ret
  }

  lemma DoneMore(operate: Operation, issued: seq<Request>, r: Request)
    requires AllDone(operate, issued) && operate(|issued|, r) == 0
    ensures AllDone(operate, issued + [r])
  {
  }

  // One large request and its mirror page.
  method IssuePair(c: Cfg, operate: Operation, done: seq<Request>, start: nat, sectors: nat, num: nat)
    returns (ret: int, issued: seq<Request>, num': nat)
    requires AllDone(operate, done)
    ensures var pair := [Request(start, sectors, num), Request(start + c.half, SECTORS_PER_PAGE, num + 1)];
            if ret == 0 then issued == done + pair && AllDone(operate, issued) && num' == num + 2
            else |done| < |issued| && issued <= done + pair && AllDone(operate, issued[..|issued| - 1])
                 && operate(|issued| - 1, issued[|issued| - 1]) == ret
  {
    issued, num' := done, num;
    var lsn, length := start, sectors;
    var writeRandom := true;
    ghost var pair := [Request(start, sectors, num), Request(start + c.half, SECTORS_PER_PAGE, num + 1)];
    while true
      invariant AllDone(operate, issued)
      invariant if writeRandom then issued == done && lsn == start && length == sectors && num' == num
                else issued == done + pair[..1] && num' == num + 1
                     && lsn == start + c.half && length == SECTORS_PER_PAGE
      decreases writeRandom
    {
      var r := Request(lsn, length, num');
      ret := operate(|issued|, r);
      ghost var before := issued;
      issued := issued + [r];
      assert issued[..|issued| - 1] == before;
      assert issued <= done + pair;
      if ret != 0 {
        return;
      }
      num' := num' + 1;
      DoneMore(operate, before, r);
      if !writeRandom {
        break;
      }
      writeRandom := false;
      lsn := lsn + c.half;
      length := SECTORS_PER_PAGE;
    }
  }

  // What is still to be issued when this much was.
  ghost predicate Ahead(c: Cfg, sizes: Sizes, whole: Pass, issued: seq<Request>, lsn: nat, sectors: nat, num: nat,
      k: nat)
    requires InRange(sizes)
  {
    var rest := Rest(c, lsn, sectors, num, sizes, k);
    whole.requests == issued + rest.requests && whole.draws == rest.draws
  }

  lemma AheadPair(c: Cfg, sizes: Sizes, whole: Pass, issued: seq<Request>, lsn: nat, sectors: nat, num: nat, k: nat)
    requires InRange(sizes) && Ahead(c, sizes, whole, issued, lsn, sectors, num, k) && lsn < c.End()
    ensures issued + Pair(c, lsn, sectors, num) <= whole.requests
    ensures Ahead(c, sizes, whole, issued + Pair(c, lsn, sectors, num), lsn + sectors,
                  NextSize(c, num + 2, sizes, k), num + 2, NextDraws(c, num + 2, k))
  {
    var more := Rest(c, lsn + sectors, NextSize(c, num + 2, sizes, k), num + 2, sizes, NextDraws(c, num + 2, k));
    assert issued + (Pair(c, lsn, sectors, num) + more.requests) ==
           issued + Pair(c, lsn, sectors, num) + more.requests;
  }

  lemma AheadNothing(c: Cfg, sizes: Sizes, whole: Pass, issued: seq<Request>, lsn: nat, sectors: nat, num: nat, k: nat)
    requires InRange(sizes) && Ahead(c, sizes, whole, issued, lsn, sectors, num, k) && lsn >= c.End()
    ensures issued == whole.requests && k == whole.draws
  {
    assert issued + [] == issued;
  }

  // One turn of the loop, up to where it may stop early.
  method IssueNext(c: Cfg, operate: Operation, done: seq<Request>, lsn: nat, sectors: nat, num: nat,
                   ghost sizes: Sizes, ghost whole: Pass, ghost k: nat)
    returns (ret: int, issued: seq<Request>, num': nat)
    requires InRange(sizes) && AllDone(operate, done)
    requires Ahead(c, sizes, whole, done, lsn, sectors, num, k) && lsn < c.End()
    ensures ret != 0 ==> RunsTo(whole.requests, operate, issued, ret)
    ensures ret == 0 ==> AllDone(operate, issued) && num' == num + 2
    ensures ret == 0 ==>
              Ahead(c, sizes, whole, issued, lsn + sectors, NextSize(c, num', sizes, k), num', NextDraws(c, num', k))
  {
    var length := sectors;
    if lsn + length >= c.End() && length <= MAX_REQUEST_SECTORS {
      length := c.End() - lsn;
    }
    AheadPair(c, sizes, whole, done, lsn, sectors, num, k);
    ret, issued, num' := IssuePair(c, operate, done, lsn, length, num);
  }

  // A size for the next request: the largest while the cache fills, else a drawn one.
  method NextLength(c: Cfg, gen: Generator, num: nat, ghost orbit: Orbit, ghost sizes: Sizes, ghost k: nat)
    returns (length: nat, ghost k': nat)
    requires Source(orbit, sizes) && Drawn(gen, orbit, k)
    modifies gen, gen.state
    ensures Drawn(gen, orbit, k')
    ensures length == NextSize(c, num, sizes, k) && k' == NextDraws(c, num, k)
  {
    k' := k;
    if c.cached && num <= c.flushCycle {
      length := MAX_REQUEST_SECTORS;
    } else {
      length := DrawSize(gen, orbit, sizes, k);
      k' := k + 1;
    }
  }

  method RunPass(c: Cfg, gen: Generator, start: nat, sectors: nat, operate: Operation,
                 ghost orbit: Orbit, ghost sizes: Sizes, ghost whole: Pass, ghost k0: nat)
    returns (ret: int, issued: seq<Request>)
    requires Source(orbit, sizes) && Drawn(gen, orbit, k0) && Ahead(c, sizes, whole, [], start, sectors, 1, k0)
    modifies gen, gen.state
    ensures gen.Valid() && RunsTo(whole.requests, operate, issued, ret)
    ensures ret == 0 ==> Drawn(gen, orbit, whole.draws)
  {
    ghost var k := k0;
    var num: nat := 1;
    var lsn: nat, length: nat := start, sectors;
    issued := [];
    ret := 0;
    while lsn < c.End()
      invariant Drawn(gen, orbit, k)
      invariant AllDone(operate, issued) && ret == 0
      invariant Ahead(c, sizes, whole, issued, lsn, length, num, k)
      decreases c.End() - lsn, length == 0
    {
      ret, issued, num := IssueNext(c, operate, issued, lsn, length, num, sizes, whole, k);
      if ret != 0 {
        return;
      }
      lsn := lsn + length;
      NextInRange(c, num, sizes, k);
      length, k := NextLength(c, gen, num, orbit, sizes, k);
    }
    AheadNothing(c, sizes, whole, issued, lsn, length, num, k);
  }

  lemma AheadWhole(c: Cfg, sizes: Sizes, start: nat, sectors: nat)
    requires InRange(sizes)
    ensures var whole := FullPass(c, start, sectors, sizes);
            if start >= c.End() then Ahead(c, sizes, whole, [], start - c.half, sizes(0), 1, 1)
            else Ahead(c, sizes, whole, [], start, sectors, 1, 0)
  {
  }

  method Interleave(c: Cfg, gen: Generator, start: nat, sectors: nat, operate: Operation,
                    ghost orbit: Orbit, ghost sizes: Sizes)
    returns (ret: int, issued: seq<Request>)
    requires Source(orbit, sizes) && Drawn(gen, orbit, 0)
    modifies gen, gen.state
    ensures gen.Valid() && RunsTo(FullPass(c, start, sectors, sizes).requests, operate, issued, ret)
    ensures ret == 0 ==> Drawn(gen, orbit, FullPass(c, start, sectors, sizes).draws)
  {
    ghost var whole := FullPass(c, start, sectors, sizes);
    ghost var k: nat := 0;
    var lsn: nat, length: nat := start, sectors;
    AheadWhole(c, sizes, start, sectors);
    if start >= c.End() {
      lsn := lsn - c.half;
      length := DrawSize(gen, orbit, sizes, 0);
      k := 1;
    }
    ret, issued := RunPass(c, gen, lsn, length, operate, orbit, sizes, whole, k);
  }

  lemma OrbitAt(g: Gen, k: nat)
    requires g.Valid()
    ensures OrbitOf(g)(k) == After(g, k)
  {
  }

  // The whole pass: a fixed sequence of requests, followed as long as the operation
  // succeeds.
  method PatternInterleaving(c: Cfg, gen: Generator, start: nat, sectors: nat, operate: Operation)
    returns (ret: int, issued: seq<Request>)
    requires gen.Valid()
    modifies gen, gen.state
    ensures gen.Valid()
    ensures var whole := FullPass(c, start, sectors, SizesOf(old(gen.View())));
            && RunsTo(whole.requests, operate, issued, ret)
            && (ret == 0 ==> gen.View() == After(old(gen.View()), whole.draws))
  {
    ghost var g := gen.View();
    ret, issued := Interleave(c, gen, start, sectors, operate, OrbitOf(g), SizesOf(g));
    OrbitAt(g, FullPass(c, start, sectors, SizesOf(g)).draws);
  }

  // ----- Writing and verifying -----

  datatype WriteInfo = WriteInfo(lsn: nat, sectors: nat, randomSeed: bv32)

  // The requests that a write pass recorded as `info` makes when nothing stops it.
  ghost function Recorded(c: Cfg, info: WriteInfo): seq<Request> {
    FullPass(c, info.lsn, info.sectors, SizesOf(Seeded(info.randomSeed))).requests
  }

  // What the seed gives for the k-th size drawn.
  function SizeDrawn(seed: bv32, k: nat): nat {
    64 + 8 * (Draw(After(Seeded(seed), k)) as nat % 121)
  }

  lemma DrawnIs(seed: bv32, k: nat)
    ensures SizesOf(Seeded(seed))(k) == SizeDrawn(seed, k)
  {
    SizeIs(Seeded(seed), k);
  }

  // The large requests of a recorded pass follow from its start, size and seed.
  lemma RecordedSized(c: Cfg, info: WriteInfo, i: nat)
    requires 2 * i < |Recorded(c, info)|
    ensures SizedAt(c, Recorded(c, info)[2 * i], info.lsn, info.sectors, i,
                    SizeDrawn(info.randomSeed, DrawnFor(c, info.lsn, i)))
  {
    var sizes := SizesOf(Seeded(info.randomSeed));
    var n := sizes(DrawnFor(c, info.lsn, i));
    assert n == SizeDrawn(info.randomSeed, DrawnFor(c, info.lsn, i)) by {
      DrawnIs(info.randomSeed, DrawnFor(c, info.lsn, i));
    }
    PassSized(c, info.lsn, info.sectors, sizes, i);
  }

  // One write pass: a seed is taken, recorded, and the loop writes.
  method WritePass(c: Cfg, gen: Generator, info: WriteInfo, seed: bv32, write: Operation)
    returns (ret: int, issued: seq<Request>, info': WriteInfo)
    requires gen.Valid()
    modifies gen, gen.state
    ensures gen.Valid() && info' == info.(randomSeed := seed)
    ensures RunsTo(Recorded(c, info'), write, issued, ret)
  {
    info' := info.(randomSeed := seed);
    gen.WriteSeed(info'.randomSeed);
    ret, issued := PatternInterleaving(c, gen, info'.lsn, info'.sectors, write);
  }

  // The first verify pass: the recorded seed again, and the loop verifies.
  method VerifyPass(c: Cfg, gen: Generator, info: WriteInfo, verify: Operation)
    returns (ret: int, issued: seq<Request>)
    requires gen.Valid()
    modifies gen, gen.state
    ensures gen.Valid() && RunsTo(Recorded(c, info), verify, issued, ret)
  {
    gen.WriteSeed(info.randomSeed);
    ret, issued := PatternInterleaving(c, gen, info.lsn, info.sectors, verify);
  }

  // How many of the requests rs are issued from the i-th on, the first i having
  // succeeded: up to and including the first failure.
  function IssuedCount(rs: seq<Request>, operate: Operation, i: nat): (n: nat)
    requires i <= |rs|
    ensures i <= n <= |rs|
    decreases |rs| - i
  {
    if i == |rs| then i
    else if operate(i, rs[i]) != 0 then i + 1
    else IssuedCount(rs, operate, i + 1)
  }

  lemma {:induction false} RunsToFrom(rs: seq<Request>, operate: Operation, issued: seq<Request>, ret: int, i: nat)
    requires RunsTo(rs, operate, issued, ret) && i <= |issued| && (ret != 0 ==> i < |issued|)
    ensures IssuedCount(rs, operate, i) == |issued|
    decreases |rs| - i
  {
    if i < |rs| {
      assert rs[i] == issued[i];
      if ret == 0 || i < |issued| - 1 {
        assert operate(i, issued[i]) == 0 by {
          assert ret != 0 ==> issued[..|issued| - 1][i] == issued[i];
        }
        RunsToFrom(rs, operate, issued, ret, i + 1);
      }
    }
  }

  // What is issued is fixed by the requests and the operation alone.
  lemma IssuedIs(rs: seq<Request>, operate: Operation, issued: seq<Request>, ret: int)
    requires RunsTo(rs, operate, issued, ret)
    ensures issued == rs[..IssuedCount(rs, operate, 0)]
  {
    RunsToFrom(rs, operate, issued, ret, 0);
  }

  lemma {:induction false} CountWhenDone(rs: seq<Request>, operate: Operation, m: nat, i: nat)
    requires i <= m <= |rs| && AllDone(operate, rs[..m])
    ensures IssuedCount(rs, operate, i) >= m
    decreases m - i
  {
    if i < m {
      assert rs[..m][i] == rs[i];
      CountWhenDone(rs, operate, m, i + 1);
    }
  }

  // Writing and verifying issue the recorded sequence, each up to its own first
  // failure; so one is a prefix of the other, and a verify pass that accepts
  // everything written issues at least all of it.
  lemma ReplayIsPrefix(c: Cfg, info: WriteInfo, write: Operation, written: seq<Request>, ret: int,
                       verify: Operation, verified: seq<Request>, ret': int)
    requires RunsTo(Recorded(c, info), write, written, ret)
    requires RunsTo(Recorded(c, info), verify, verified, ret')
    ensures written == Recorded(c, info)[..IssuedCount(Recorded(c, info), write, 0)]
    ensures verified == Recorded(c, info)[..IssuedCount(Recorded(c, info), verify, 0)]
    ensures written <= verified || verified <= written
    ensures AllDone(verify, written) ==> written <= verified
  {
    var rs := Recorded(c, info);
    IssuedIs(rs, write, written, ret);
    IssuedIs(rs, verify, verified, ret');
    if AllDone(verify, written) {
      CountWhenDone(rs, verify, |written|, 0);
    }
  }
}
