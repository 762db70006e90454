// False alarms of the extra verification: a power loss after which every page is
// either as it was or as it was to be written, and exactly where such pages are marked.
module FalseAlarm {
  import opened Types
  import opened Interleaving
  import opened ExtraCheck
  import opened ExtraVerification
  import opened PowerLoss
  import Pattern

  // The device before the pass: nothing on it has the loop count of the pass, and
  // nothing in the first half was written in a later boot.
  ghost predicate Older(c: Cfg, k: Cut) {
    && (forall x: nat :: k.was(x).body.loop != k.loop)
    && (forall x: nat :: c.first <= x < c.End() ==> k.was(x).body.boot <= k.boot)
  }

  // Page p of request n as the interrupted boot writes it.
  ghost predicate NewPage(dev: Device, crc: Crc, k: Cut, n: nat, p: nat)
    requires n < |k.ps|
  {
    Stamped(dev, crc, k.ps[n], p, k.loop) && dev(k.ps[n].lsn + p * SECTORS_PER_PAGE).body.boot == k.boot
  }

  ghost predicate OldPageOf(dev: Device, k: Cut, n: nat, p: nat)
    requires n < |k.ps|
  {
    dev(k.ps[n].lsn + p * SECTORS_PER_PAGE) == k.was(k.ps[n].lsn + p * SECTORS_PER_PAGE)
  }

  ghost predicate OldOrNew(dev: Device, crc: Crc, k: Cut)
    requires k.Ordered()
  {
    forall n: nat, p: nat :: k.First() <= n <= k.Last() && p < k.ps[n].sectors / SECTORS_PER_PAGE ==>
                               OldPageOf(dev, k, n, p) || NewPage(dev, crc, k, n, p)
  }

  // What a device that writes whole pages can leave, when request First() is indeed
  // one that verification reports.
  ghost predicate LeftInPages(dev: Device, crc: Crc, k: Cut)
    requires k.Ordered()
  {
    LeftBy(dev, crc, k) && OldOrNew(dev, crc, k) && !RequestStamped(dev, crc, k.ps[k.First()], k.loop)
  }

  // No request on its way but the first is one that verification takes as proof, by a
  // page of the pass, that the ones before it were complete: with the cache on these are
  // the flush requests, else all.  Then it reports no crash before the extra check.
  ghost predicate Unconfirmed(c: Cfg, k: Cut)
    requires k.Ordered() && (c.cached ==> c.flushCycle > 0)
  {
    forall n :: k.First() < n <= k.Last() ==> c.cached && !Flushes(c, k.ps[n])
  }

  // ----- Such devices -----

  function ThisBoot(crc: Crc, k: Cut): Writer {
    Writer(crc, k.loop, k.boot, _ => false)
  }

  ghost function Full(crc: Crc, k: Cut): Device
    requires k.Ordered()
  {
    WriteAll(k.was, ThisBoot(crc, k), k.ps[..2 * (k.j + 1)])
  }

  // Every page on its way is written but those to keep.
  ghost function Mixed(crc: Crc, k: Cut, keep: nat -> bool): Device
    requires k.Ordered()
  {
    (x: nat) => if Touched(k, x) && !keep(x) then Full(crc, k)(x) else k.was(x)
  }

  lemma MixedAt(crc: Crc, c: Cfg, k: Cut, keep: nat -> bool, n: nat, p: nat)
    requires Plausible(crc, c, k) && n <= k.Last() && p < k.ps[n].sectors / SECTORS_PER_PAGE
    ensures var x := k.ps[n].lsn + p * SECTORS_PER_PAGE;
            if keep(x) then Mixed(crc, k, keep)(x) == k.was(x)
            else Mixed(crc, k, keep)(x) == MakeHeader(ThisBoot(crc, k), k.ps[n], p)
  {
    FullAt(crc, c, k, n, p);
    assert InPages(k.ps[n], k.ps[n].lsn + p * SECTORS_PER_PAGE);
  }

  lemma MixedAtFirst(crc: Crc, c: Cfg, k: Cut, keep: nat -> bool, n: nat)
    requires Plausible(crc, c, k) && n <= k.Last() && SECTORS_PER_PAGE <= k.ps[n].sectors && !keep(k.ps[n].lsn)
    ensures Mixed(crc, k, keep)(k.ps[n].lsn).body.loop == k.loop
  {
    assert k.ps[n].lsn + 0 * SECTORS_PER_PAGE == k.ps[n].lsn;
    MixedAt(crc, c, k, keep, n, 0);
  }

  lemma FullAt(crc: Crc, c: Cfg, k: Cut, n: nat, p: nat)
    requires Plausible(crc, c, k) && n <= k.Last() && p < k.ps[n].sectors / SECTORS_PER_PAGE
    ensures Full(crc, k)(k.ps[n].lsn + p * SECTORS_PER_PAGE) == MakeHeader(ThisBoot(crc, k), k.ps[n], p)
  {
    var done := k.ps[..2 * (k.j + 1)];
    FirstPairs(k.ps, c, c.first, c.End(), k.j + 1);
    assert done[n] == k.ps[n];
    PageWritten(k.was, ThisBoot(crc, k), done, c, c.first, EndOf(k.ps, c.first, k.j + 1), n, p);
  }

  ghost predicate KeptPage(k: Cut, keep: nat -> bool, n: nat, p: nat)
    requires n < |k.ps|
  {
    keep(k.ps[n].lsn + p * SECTORS_PER_PAGE)
  }

  // Nothing of an earlier request is kept, but the first page of the first on its way.
  ghost predicate Keeps(k: Cut, keep: nat -> bool)
    requires k.Ordered()
  {
    && keep(k.ps[k.First()].lsn)
    && forall n: nat, p: nat :: n < k.First() && p < k.ps[n].sectors / SECTORS_PER_PAGE ==> !KeptPage(k, keep, n, p)
  }

  lemma MixedEarlier(crc: Crc, c: Cfg, k: Cut, keep: nat -> bool, n: nat)
    requires Plausible(crc, c, k) && Keeps(k, keep) && n < k.First()
    ensures RequestStamped(Mixed(crc, k, keep), crc, k.ps[n], k.loop)
  {
    forall p: nat | p < k.ps[n].sectors / SECTORS_PER_PAGE
      ensures Stamped(Mixed(crc, k, keep), crc, k.ps[n], p, k.loop)
    {
      assert !KeptPage(k, keep, n, p);
      MixedAt(crc, c, k, keep, n, p);
    }
  }

  lemma MixedFirst(crc: Crc, c: Cfg, k: Cut, keep: nat -> bool)
    requires Plausible(crc, c, k) && Older(c, k) && Keeps(k, keep)
    ensures !RequestStamped(Mixed(crc, k, keep), crc, k.ps[k.First()], k.loop)
  {
    PairAt(k.ps, c, k.i);
    MixedAt(crc, c, k, keep, k.First(), 0);
    assert !Stamped(Mixed(crc, k, keep), crc, k.ps[k.First()], 0, k.loop);
  }

  lemma MixedOldOrNew(crc: Crc, c: Cfg, k: Cut, keep: nat -> bool)
    requires Plausible(crc, c, k)
    ensures OldOrNew(Mixed(crc, k, keep), crc, k)
  {
    var dev := Mixed(crc, k, keep);
    forall n: nat, p: nat | k.First() <= n <= k.Last() && p < k.ps[n].sectors / SECTORS_PER_PAGE
      ensures OldPageOf(dev, k, n, p) || NewPage(dev, crc, k, n, p)
    {
      MixedAt(crc, c, k, keep, n, p);
    }
  }

  lemma MixedIsLeft(crc: Crc, c: Cfg, k: Cut, keep: nat -> bool)
    requires Plausible(crc, c, k) && Older(c, k) && Keeps(k, keep)
    ensures LeftInPages(Mixed(crc, k, keep), crc, k)
  {
    forall n | 0 <= n < k.First() ensures RequestStamped(Mixed(crc, k, keep), crc, k.ps[n], k.loop) {
      MixedEarlier(crc, c, k, keep, n);
    }
    MixedOldOrNew(crc, c, k, keep);
    MixedFirst(crc, c, k, keep);
  }

  // ----- Which pages of the older pass can be found between newer ones -----

  // Where the pages on their way begin, in the first half.
  ghost function From(c: Cfg, k: Cut): nat
    requires k.Ordered()
  {
    EndOf(k.ps, c.first, k.Complete())
  }

  // Chunk n of the older pass begins among them, at or behind s, and the walk from it
  // comes to another page on its way: its mirror page, or the page behind its first.
  ghost predicate ExposedAt(c: Cfg, k: Cut, s: nat, end: nat, n: nat)
    requires k.Ordered() && 2 * n < |k.rs|
  {
    var r := k.rs[2 * n];
    && s <= r.lsn < end && From(c, k) <= r.lsn < Behind(c, k)
    && (Touched(k, r.lsn + c.half) || NextOnItsWay(c, k, r, end))
  }

  ghost predicate NextOnItsWay(c: Cfg, k: Cut, r: Request, end: nat)
    requires k.Ordered()
  {
    var next := r.lsn + SECTORS_PER_PAGE;
    next < Behind(c, k) && (next < end || r.sectors > SECTORS_PER_PAGE)
  }

  ghost predicate Exposed(crc: Crc, c: Cfg, k: Cut, zone: nat)
    requires Plausible(crc, c, k)
  {
    var s := OldStart(c, zone, LossOf(crc, c, k));
    && k.loop > 1 && s.Some?
    && exists n: nat :: 2 * n < |k.rs| && ExposedAt(c, k, s.value, Pattern.FirstSectorInZone(c.first, zone + 1), n)
  }

  // ----- An exposed chunk is marked on some such device -----

  // The pages from s on, before x, are those of a boot in a pass with this loop count.
  ghost predicate Newer(dev: Device, s: nat, x: nat, loop: nat, boot: nat) {
    forall i: nat :: s + i * SECTORS_PER_PAGE < x ==>
                       var h := dev(s + i * SECTORS_PER_PAGE).body; h.loop == loop && h.boot == boot
  }

  // At x begins a chunk of a pass with this loop count, written in no later boot.
  ghost predicate ChunkHeader(h: Header, x: nat, loop: nat, boot: nat) {
    && (h.magic == MAGIC_NUMBER || h.magic == MAGIC_NUMBER_FLUSH)
    && h.body.loop == loop && h.body.pageIndex == 0 && h.body.start == x && h.body.boot <= boot
  }

  lemma {:induction false} FoundBehindNewer(dev: Device, s: nat, x: nat, end: nat, loop: nat, boot: nat, b: nat)
    requires s <= x < end && OnPage(x - s) && (b == boot || b == 0)
    requires Newer(dev, s, x, loop + 1, boot) && ChunkHeader(dev(x), x, loop, boot)
    ensures Find(dev, s, end, loop, b) == Some(x)
    decreases x - s
  {
    if s < x {
      var next := s + SECTORS_PER_PAGE;
      assert dev(s + 0 * SECTORS_PER_PAGE).body.loop == loop + 1;
      forall i: nat | next + i * SECTORS_PER_PAGE < x
        ensures var h := dev(next + i * SECTORS_PER_PAGE).body; h.loop == loop + 1 && h.boot == boot
      {
        assert next + i * SECTORS_PER_PAGE == s + (i + 1) * SECTORS_PER_PAGE;
      }
      FoundBehindNewer(dev, next, x, end, loop, boot, boot);
    }
  }

  // The walk from x comes to a page with another loop count: the mirror page of the
  // chunk at x, or the page behind its first.
  ghost predicate MeetsOther(dev: Device, half: nat, x: nat, end: nat, loop: nat) {
    || dev(x + half).body.loop != loop
    || (dev(x + SECTORS_PER_PAGE).body.loop != loop && (x + SECTORS_PER_PAGE < end || dev(x).body.pageNum > 1))
  }

  lemma OtherLoopIsMarked(dev: Device, crc: Crc, half: nat, x: nat, end: nat, loop: nat)
    requires x < end && MeetsOther(dev, half, x, end, loop)
    ensures !CleanScan(dev, crc, half, x, end, loop)
  {
    if dev(x + half).body.loop != loop {
      var all := Scan(dev, crc, half, x, end, loop).filed;
      assert all[0] == CheckMirror(dev, crc, x + half, loop);
      assert all[0].crashed;
    } else if CleanScan(dev, crc, half, x, end, loop) {
      SecondPageRight(dev, crc, half, x, end, loop);
      assert false;
    }
  }

  lemma SecondPageRight(dev: Device, crc: Crc, half: nat, x: nat, end: nat, loop: nat)
    requires x < end && CleanScan(dev, crc, half, x, end, loop)
    requires x + SECTORS_PER_PAGE < end || dev(x).body.pageNum > 1
    ensures dev(x + SECTORS_PER_PAGE).body.loop == loop
  {
    if x + SECTORS_PER_PAGE < end {
      var start := CleanScanIsRight(dev, crc, half, x, end, loop, 1);
    } else {
      var pages := dev(x).body.pageNum;
      var mirror, chunk := [CheckMirror(dev, crc, x + half, loop)], CheckPages(dev, crc, x, pages, pages, loop);
      CleanParts(mirror + chunk, Scan(dev, crc, half, x + pages * SECTORS_PER_PAGE, end, loop).filed);
      CleanParts(mirror, chunk);
      CleanPages(dev, crc, x, pages, pages, loop, 1);
    }
  }

  // All pages on their way are written but the first one, and page x.
  ghost function Interrupted(crc: Crc, k: Cut, x: nat): Device
    requires k.Ordered()
  {
    Mixed(crc, k, FirstAnd(k, x))
  }

  function FirstAnd(k: Cut, x: nat): nat -> bool
    requires k.Ordered()
  {
    (y: nat) => y == x || y == k.ps[k.First()].lsn
  }

  lemma FirstApart(crc: Crc, c: Cfg, k: Cut, n: nat, p: nat)
    requires Plausible(crc, c, k) && n < k.First() && p < k.ps[n].sectors / SECTORS_PER_PAGE
    ensures var y := k.ps[n].lsn + p * SECTORS_PER_PAGE;
            y != k.ps[k.First()].lsn && (y < From(c, k) || c.End() <= y)
  {
    var y := k.ps[n].lsn + p * SECTORS_PER_PAGE;
    PairAt(k.ps, c, k.i);
    FirstPairs(k.ps, c, c.first, c.End(), k.Complete());
    var done := k.ps[..2 * k.Complete()];
    assert done[n] == k.ps[n] && InPages(k.ps[n], y);
    RequestRange(done, c, c.first, From(c, k), n, y);
    OneOwner(k.ps, c, c.first, c.End(), n, k.First(), y);
  }

  lemma InterruptedIsLeft(crc: Crc, c: Cfg, k: Cut, x: nat)
    requires Plausible(crc, c, k) && Older(c, k) && From(c, k) <= x < c.End()
    ensures LeftInPages(Interrupted(crc, k, x), crc, k)
  {
    var keep := FirstAnd(k, x);
    forall n: nat, p: nat | n < k.First() && p < k.ps[n].sectors / SECTORS_PER_PAGE ensures !KeptPage(k, keep, n, p) {
      FirstApart(crc, c, k, n, p);
    }
    MixedIsLeft(crc, c, k, keep);
  }

  // ... a page of the first half on its way, that is neither, is new.
  lemma InterruptedIsNew(crc: Crc, c: Cfg, k: Cut, x: nat, y: nat)
    requires Plausible(crc, c, k) && k.ps[2 * k.i].lsn < y < Behind(c, k) && y != x
    requires c.first <= y && OnPage(y - c.first)
    ensures var h := Interrupted(crc, k, x)(y); h.body.loop == k.loop && h.body.boot == k.boot
  {
    var i, p := PageOnItsWay(crc, c, k, y);
    FirstIsNot(crc, c, k, y);
    MixedAt(crc, c, k, FirstAnd(k, x), 2 * i, p);
  }

  lemma FirstIsNot(crc: Crc, c: Cfg, k: Cut, y: nat)
    requires Plausible(crc, c, k) && k.ps[2 * k.i].lsn < y < c.End()
    ensures y != k.ps[k.First()].lsn
  {
    PairAt(k.ps, c, k.i);
  }

  // The page of the pass that begins at y.
  lemma PageOnItsWay(crc: Crc, c: Cfg, k: Cut, y: nat) returns (i: nat, p: nat)
    requires Plausible(crc, c, k) && c.first <= y < Behind(c, k) && OnPage(y - c.first)
    ensures i <= k.j && p < k.ps[2 * i].sectors / SECTORS_PER_PAGE
    ensures y == k.ps[2 * i].lsn + p * SECTORS_PER_PAGE && Touched(k, y) && y < c.End()
    ensures From(c, k) <= y <==> k.First() <= 2 * i
  {
    i := PairAround(c, k, y);
    var r := k.ps[2 * i];
    PairAt(k.ps, c, i);
    SumOnPage(y - c.first, r.lsn - c.first);
    p := PageIn(r.lsn, r.sectors, y);
    assert InPages(r, y);
    FirstPairs(k.ps, c, c.first, c.End(), i);
    if i < k.Complete() {
      EndsInOrder(k, c, i + 1, k.Complete());
    } else if 0 < k.Complete() {
      EndsInOrder(k, c, k.Complete(), i);
    }
  }

  lemma PairAround(c: Cfg, k: Cut, y: nat) returns (i: nat)
    requires TilesIn(k.ps, c, c.first, c.End()) && k.Ordered() && c.first <= y < Behind(c, k)
    ensures i <= k.j && Covers(k.ps[2 * i], y)
  {
    FirstPairs(k.ps, c, c.first, c.End(), k.j + 1);
    var done := k.ps[..2 * (k.j + 1)];
    i := TilesCover(done, c, c.first, Behind(c, k), y);
    assert done[2 * i] == k.ps[2 * i];
  }

  lemma EndsInOrder(k: Cut, c: Cfg, m: nat, n: nat)
    requires TilesIn(k.ps, c, c.first, c.End()) && 0 < m <= n && 2 * n <= |k.ps|
    ensures EndOf(k.ps, c.first, m) <= EndOf(k.ps, c.first, n)
  {
    if m < n {
      TilesApart(k.ps, c, c.first, c.End(), m - 1, n - 1);
    }
  }

  // The first page of a chunk of the older pass.
  lemma OldChunk(crc: Crc, c: Cfg, k: Cut, n: nat)
    requires Plausible(crc, c, k) && k.loop > 1 && 2 * n < |k.rs|
    ensures var r := k.rs[2 * n];
            && StampedChunk(k.was, crc, c, r, k.loop - 1) && Stamped(k.was, crc, r, 0, k.loop - 1)
            && ChunkSized(r.sectors) && c.first <= r.lsn && r.lsn + r.sectors <= c.End() && OnPage(r.lsn - c.first)
  {
    PairAt(k.rs, c, n);
    assert StampedChunk(k.was, crc, c, k.rs[2 * n], k.loop - 1);
  }

  // A touched mirror page of a page-aligned sector is that of a pair beginning there.
  lemma MirrorOnItsWay(crc: Crc, c: Cfg, k: Cut, x: nat) returns (i: nat)
    requires Plausible(crc, c, k) && c.first <= x < c.End() && OnPage(x - c.first) && Touched(k, x + c.half)
    ensures 2 * i + 1 <= k.Last() && k.ps[2 * i].lsn == x && k.ps[2 * i + 1].lsn == x + c.half
    ensures k.ps[2 * i + 1].sectors == SECTORS_PER_PAGE
  {
    var n :| 0 <= n <= k.Last() && InPages(k.ps[n], x + c.half);
    RequestRange(k.ps, c, c.first, c.End(), n, x + c.half);
    i := n / 2;
    PairAt(k.ps, c, i);
    SamePage(k.ps[2 * i].lsn - c.first, x - c.first);
  }

  lemma SamePage(a: nat, b: nat)
    requires OnPage(a) && OnPage(b) && a <= b < a + SECTORS_PER_PAGE
    ensures a == b
  {
  }

  lemma InterruptedMirror(crc: Crc, c: Cfg, k: Cut, x: nat)
    requires Plausible(crc, c, k) && k.ps[2 * k.i].lsn < x < c.End()
    requires c.first <= x && OnPage(x - c.first) && Touched(k, x + c.half)
    ensures Interrupted(crc, k, x)(x + c.half).body.loop == k.loop
  {
    var i := MirrorOnItsWay(crc, c, k, x);
    var y := k.ps[2 * i + 1].lsn;
    assert !FirstAnd(k, x)(y) by {
      PairAt(k.ps, c, k.i);
    }
    MixedAtFirst(crc, c, k, FirstAnd(k, x), 2 * i + 1);
  }

  // What the search meets on that device ...
  lemma InterruptedNewer(crc: Crc, c: Cfg, k: Cut, s: nat, x: nat)
    requires Plausible(crc, c, k) && k.ps[2 * k.i].lsn < s && x < Behind(c, k)
    requires c.first <= s && OnPage(s - c.first)
    ensures Newer(Interrupted(crc, k, x), s, x, k.loop, k.boot)
  {
    forall i: nat | s + i * SECTORS_PER_PAGE < x
      ensures var h := Interrupted(crc, k, x)(s + i * SECTORS_PER_PAGE).body; h.loop == k.loop && h.boot == k.boot
    {
      StillOnPage(c.first, s, i);
      InterruptedIsNew(crc, c, k, x, s + i * SECTORS_PER_PAGE);
    }
  }

  lemma InterruptedKeeps(crc: Crc, c: Cfg, k: Cut, n: nat)
    requires Plausible(crc, c, k) && Older(c, k) && k.loop > 1 && 2 * n < |k.rs|
    ensures var (x, h) := (k.rs[2 * n].lsn, Interrupted(crc, k, k.rs[2 * n].lsn)(k.rs[2 * n].lsn));
            ChunkHeader(h, x, k.loop - 1, k.boot) && h.body.pageNum == k.rs[2 * n].sectors / SECTORS_PER_PAGE
    ensures var x := k.rs[2 * n].lsn; c.first <= x < c.End() && OnPage(x - c.first)
  {
    OldChunk(crc, c, k, n);
  }

  lemma OldChunkOnPage(crc: Crc, c: Cfg, k: Cut, n: nat, s: nat)
    requires Plausible(crc, c, k) && k.loop > 1 && 2 * n < |k.rs|
    requires c.first <= s <= k.rs[2 * n].lsn && OnPage(s - c.first)
    ensures OnPage(k.rs[2 * n].lsn - s)
  {
    OldChunk(crc, c, k, n);
    SumOnPage(k.rs[2 * n].lsn - c.first, s - c.first);
  }

  lemma InterruptedFound(crc: Crc, c: Cfg, k: Cut, s: nat, end: nat, n: nat)
    requires Plausible(crc, c, k) && Older(c, k) && k.loop > 1 && 2 * n < |k.rs|
    requires k.ps[2 * k.i].lsn < s && c.first <= s && OnPage(s - c.first) && ExposedAt(c, k, s, end, n)
    ensures Find(Interrupted(crc, k, k.rs[2 * n].lsn), s, end, k.loop - 1, 0) == Some(k.rs[2 * n].lsn)
  {
    var x := k.rs[2 * n].lsn;
    var dev := Interrupted(crc, k, x);
    assert OnPage(x - s) by {
      OldChunkOnPage(crc, c, k, n, s);
    }
    assert ChunkHeader(dev(x), x, k.loop - 1, k.boot) by {
      InterruptedKeeps(crc, c, k, n);
    }
    assert Newer(dev, s, x, k.loop, k.boot) by {
      InterruptedNewer(crc, c, k, s, x);
    }
    FoundBehindNewer(dev, s, x, end, k.loop - 1, k.boot, 0);
  }

  // ... and what the walk does.
  lemma InterruptedNext(crc: Crc, c: Cfg, k: Cut, end: nat, n: nat)
    requires Plausible(crc, c, k) && Older(c, k) && k.loop > 1 && 2 * n < |k.rs|
    requires k.ps[2 * k.i].lsn < k.rs[2 * n].lsn && NextOnItsWay(c, k, k.rs[2 * n], end)
    ensures MeetsOther(Interrupted(crc, k, k.rs[2 * n].lsn), c.half, k.rs[2 * n].lsn, end, k.loop - 1)
  {
    var r := k.rs[2 * n];
    var next := r.lsn + SECTORS_PER_PAGE;
    var dev := Interrupted(crc, k, r.lsn);
    assert dev(next).body.loop == k.loop by {
      NextIsNew(crc, c, k, n);
    }
    assert r.sectors > SECTORS_PER_PAGE ==> dev(r.lsn).body.pageNum > 1 by {
      InterruptedKeeps(crc, c, k, n);
      PairAt(k.rs, c, n);
      MoreThanOne(r.sectors);
    }
  }

  lemma NextIsNew(crc: Crc, c: Cfg, k: Cut, n: nat)
    requires Plausible(crc, c, k) && 2 * n < |k.rs|
    requires k.ps[2 * k.i].lsn < k.rs[2 * n].lsn && k.rs[2 * n].lsn + SECTORS_PER_PAGE < Behind(c, k)
    ensures Interrupted(crc, k, k.rs[2 * n].lsn)(k.rs[2 * n].lsn + SECTORS_PER_PAGE).body.loop == k.loop
  {
    var x := k.rs[2 * n].lsn;
    assert c.first <= x && OnPage(x - c.first) by {
      PairAt(k.rs, c, n);
    }
    StillOnPage(c.first, x, 1);
    InterruptedIsNew(crc, c, k, x, x + SECTORS_PER_PAGE);
  }

  lemma InterruptedOther(crc: Crc, c: Cfg, k: Cut, s: nat, end: nat, n: nat)
    requires Plausible(crc, c, k) && Older(c, k) && k.loop > 1 && 2 * n < |k.rs|
    requires k.ps[2 * k.i].lsn < s && ExposedAt(c, k, s, end, n)
    ensures MeetsOther(Interrupted(crc, k, k.rs[2 * n].lsn), c.half, k.rs[2 * n].lsn, end, k.loop - 1)
  {
    if Touched(k, k.rs[2 * n].lsn + c.half) {
      PairAt(k.rs, c, n);
      InterruptedMirror(crc, c, k, k.rs[2 * n].lsn);
    } else {
      InterruptedNext(crc, c, k, end, n);
    }
  }

  lemma MoreThanOne(sectors: nat)
    requires ChunkSized(sectors)
    ensures sectors > SECTORS_PER_PAGE ==> sectors / SECTORS_PER_PAGE > 1
  {
  }

  lemma InterruptedMarked(crc: Crc, c: Cfg, k: Cut, s: nat, end: nat, n: nat)
    requires Plausible(crc, c, k) && Older(c, k) && k.loop > 1 && 2 * n < |k.rs|
    requires k.ps[2 * k.i].lsn < s && ExposedAt(c, k, s, end, n)
    ensures !CleanScan(Interrupted(crc, k, k.rs[2 * n].lsn), crc, c.half, k.rs[2 * n].lsn, end, k.loop - 1)
  {
    var x := k.rs[2 * n].lsn;
    InterruptedOther(crc, c, k, s, end, n);
    OtherLoopIsMarked(Interrupted(crc, k, x), crc, c.half, x, end, k.loop - 1);
  }

  lemma MarkedAt(crc: Crc, c: Cfg, k: Cut, s: nat, end: nat, n: nat)
    requires Plausible(crc, c, k) && Older(c, k) && k.loop > 1 && 2 * n < |k.rs| && end <= c.End()
    requires k.ps[2 * k.i].lsn < s && c.first <= s && OnPage(s - c.first) && ExposedAt(c, k, s, end, n)
    ensures LeftInPages(Interrupted(crc, k, k.rs[2 * n].lsn), crc, k)
    ensures !CallClean(Interrupted(crc, k, k.rs[2 * n].lsn), crc, c, Call(s, end, k.loop - 1))
  {
    InterruptedIsLeft(crc, c, k, k.rs[2 * n].lsn);
    InterruptedFound(crc, c, k, s, end, n);
    InterruptedMarked(crc, c, k, s, end, n);
  }

  lemma MarkedWhenExposed(crc: Crc, c: Cfg, k: Cut, zone: nat, zones: nat) returns (dev: Device)
    requires Plausible(crc, c, k) && Older(c, k) && Exposed(crc, c, k, zone)
    requires c.half == zones * ZONE && zone < zones
    ensures LeftInPages(dev, crc, k) && !ZoneClean(dev, crc, c, zone, LossOf(crc, c, k))
  {
    var l, end := LossOf(crc, c, k), Pattern.FirstSectorInZone(c.first, zone + 1);
    var s := OldStart(c, zone, l).value;
    var n: nat :| 2 * n < |k.rs| && ExposedAt(c, k, s, end, n);
    dev := Interrupted(crc, k, k.rs[2 * n].lsn);
    OldStartBounds(crc, c, k, zone, zones, s);
    ZoneBounds(c, zone, zones);
    MarkedAt(crc, c, k, s, end, n);
    ZoneDecided(dev, crc, c, k, zone, zones);
  }

  // ----- Otherwise nothing is -----

  // A page of an earlier request, or on its way, is old or carries the new loop count.
  lemma OldOrNewLoop(dev: Device, crc: Crc, c: Cfg, k: Cut, i: nat, p: nat)
    requires Plausible(crc, c, k) && LeftBy(dev, crc, k) && OldOrNew(dev, crc, k)
    requires i <= k.j && p < k.ps[2 * i].sectors / SECTORS_PER_PAGE
    ensures var x := k.ps[2 * i].lsn + p * SECTORS_PER_PAGE;
            dev(x).body.loop == k.loop || (k.First() <= 2 * i && dev(x) == k.was(x))
  {
    if k.First() <= 2 * i {
      assert OldPageOf(dev, k, 2 * i, p) || NewPage(dev, crc, k, 2 * i, p);
    } else {
      assert RequestStamped(dev, crc, k.ps[2 * i], k.loop);
      assert Stamped(dev, crc, k.ps[2 * i], p, k.loop);
    }
  }

  lemma OldByLoop(dev: Device, crc: Crc, c: Cfg, k: Cut, y: nat)
    requires Plausible(crc, c, k) && LeftBy(dev, crc, k) && OldOrNew(dev, crc, k)
    requires c.first <= y < c.End() && OnPage(y - c.first) && dev(y).body.loop != k.loop
    ensures dev(y) == k.was(y) && (From(c, k) <= y || Behind(c, k) <= y)
  {
    if y < Behind(c, k) {
      var i, p := PageOnItsWay(crc, c, k, y);
      OldOrNewLoop(dev, crc, c, k, i, p);
    } else {
      NotTouchedBehind(crc, c, k, y);
    }
  }

  lemma OldPageFound(dev: Device, crc: Crc, c: Cfg, k: Cut, s: nat, end: nat) returns (y: nat)
    requires Plausible(crc, c, k) && LeftBy(dev, crc, k) && OldOrNew(dev, crc, k) && k.loop > 1
    requires c.first <= s && OnPage(s - c.first) && end <= c.End()
    requires Find(dev, s, end, k.loop - 1, 0).Some?
    ensures s <= y < end && OnPage(y - c.first) && dev(y) == k.was(y) && (From(c, k) <= y || Behind(c, k) <= y)
    ensures dev(y).body.loop == k.loop - 1 && dev(y).body.pageIndex == 0
    ensures Find(dev, s, end, k.loop - 1, 0) == Some(dev(y).body.start)
  {
    var j := FoundAt(dev, s, end, k.loop - 1, 0);
    y := s + j * SECTORS_PER_PAGE;
    StillOnPage(c.first, s, j);
    OldByLoop(dev, crc, c, k, y);
  }

  // So the search finds an old chunk.
  lemma FoundOld(dev: Device, crc: Crc, c: Cfg, k: Cut, s: nat, end: nat) returns (n: nat)
    requires Plausible(crc, c, k) && LeftBy(dev, crc, k) && OldOrNew(dev, crc, k) && k.loop > 1
    requires c.first <= s && OnPage(s - c.first) && end <= c.End()
    requires Find(dev, s, end, k.loop - 1, 0).Some?
    ensures 2 * n < |k.rs| && s <= k.rs[2 * n].lsn < end
    ensures Find(dev, s, end, k.loop - 1, 0) == Some(k.rs[2 * n].lsn)
    ensures var x := k.rs[2 * n].lsn; dev(x) == k.was(x) && (From(c, k) <= x || Behind(c, k) <= x)
  {
    var y := OldPageFound(dev, crc, c, k, s, end);
    var p;
    n, p := OldPage(k.was, k.was, crc, k.rs, c, c.first, c.End(), y, y, k.loop - 1);
  }

  ghost predicate SamePageAt(dev: Device, was: Device, r: Request, p: nat) {
    dev(r.lsn + p * SECTORS_PER_PAGE) == was(r.lsn + p * SECTORS_PER_PAGE)
  }

  lemma SameChunk(dev: Device, was: Device, crc: Crc, c: Cfg, r: Request, loop: nat)
    requires StampedChunk(was, crc, c, r, loop) && dev(r.lsn + c.half) == was(r.lsn + c.half)
    requires forall p: nat :: p < r.sectors / SECTORS_PER_PAGE ==> SamePageAt(dev, was, r, p)
    ensures StampedChunk(dev, crc, c, r, loop)
  {
    forall p: nat | p < r.sectors / SECTORS_PER_PAGE ensures Stamped(dev, crc, r, p, loop) {
      assert SamePageAt(dev, was, r, p) && Stamped(was, crc, r, p, loop);
    }
  }

  // An old chunk that is not exposed is whole ...
  lemma NotExposedIsSame(dev: Device, crc: Crc, c: Cfg, k: Cut, end: nat, r: Request, p: nat)
    requires Plausible(crc, c, k) && LeftBy(dev, crc, k) && dev(r.lsn) == k.was(r.lsn)
    requires r.lsn < end && r.lsn + r.sectors <= c.End() && p < r.sectors / SECTORS_PER_PAGE
    requires Behind(c, k) <= r.lsn || !NextOnItsWay(c, k, r, end)
    ensures SamePageAt(dev, k.was, r, p)
  {
    if p > 0 {
      NotTouchedBehind(crc, c, k, r.lsn + p * SECTORS_PER_PAGE);
    }
  }

  lemma NotExposedIsWhole(dev: Device, crc: Crc, c: Cfg, k: Cut, s: nat, end: nat, n: nat)
    requires Plausible(crc, c, k) && LeftBy(dev, crc, k) && k.loop > 1 && 2 * n < |k.rs|
    requires var x := k.rs[2 * n].lsn;
             && s <= x < end && dev(x) == k.was(x) && (From(c, k) <= x || Behind(c, k) <= x)
    requires !ExposedAt(c, k, s, end, n)
    ensures StampedChunk(dev, crc, c, k.rs[2 * n], k.loop - 1) && ChunkSized(k.rs[2 * n].sectors)
    ensures k.rs[2 * n].lsn + k.rs[2 * n].sectors < end ==> Behind(c, k) <= k.rs[2 * n].lsn + k.rs[2 * n].sectors
  {
    var r := k.rs[2 * n];
    OldChunk(crc, c, k, n);
    if Behind(c, k) <= r.lsn {
      NotTouchedBehind(crc, c, k, r.lsn + c.half);
    }
    forall p: nat | p < r.sectors / SECTORS_PER_PAGE ensures SamePageAt(dev, k.was, r, p) {
      NotExposedIsSame(dev, crc, c, k, end, r, p);
    }
    SameChunk(dev, k.was, crc, c, r, k.loop - 1);
  }

  // ... and so the walk from it ends and marks nothing.
  lemma ScanOver(dev: Device, crc: Crc, half: nat, s: nat, end: nat, loop: nat)
    requires s >= end
    ensures CleanScan(dev, crc, half, s, end, loop)
  {
  }

  lemma RestBehind(dev: Device, crc: Crc, c: Cfg, k: Cut, end: nat, n: nat)
    requires Plausible(crc, c, k) && LeftBy(dev, crc, k) && k.loop > 1 && 2 * n < |k.rs| && end <= c.End()
    requires Behind(c, k) <= k.rs[2 * n].lsn
    ensures CleanScan(dev, crc, c.half, k.rs[2 * n].lsn, end, k.loop - 1)
  {
    LossIsHealthy(dev, crc, c, k);
    ScanBehind(dev, k.was, crc, k.rs, c, c.first, c.End(), Behind(c, k), n, end, k.loop - 1);
  }

  lemma RestOfWalk(dev: Device, crc: Crc, c: Cfg, k: Cut, end: nat, n: nat, next: nat)
    requires Plausible(crc, c, k) && LeftBy(dev, crc, k) && k.loop > 1 && 2 * n < |k.rs| && end <= c.End()
    requires next == k.rs[2 * n].lsn + k.rs[2 * n].sectors && (next < end ==> Behind(c, k) <= next)
    ensures CleanScan(dev, crc, c.half, next, end, k.loop - 1)
  {
    if next < end {
      assert 2 * (n + 1) < |k.rs| && k.rs[2 * (n + 1)].lsn == next by {
        NextPair(k.rs, c, n);
      }
      RestBehind(dev, crc, c, k, end, n + 1);
    } else {
      ScanOver(dev, crc, c.half, next, end, k.loop - 1);
    }
  }

  lemma WholeScan(dev: Device, crc: Crc, c: Cfg, k: Cut, end: nat, n: nat, r: Request)
    requires Plausible(crc, c, k) && LeftBy(dev, crc, k) && k.loop > 1 && 2 * n < |k.rs| && end <= c.End()
    requires r == k.rs[2 * n] && StampedChunk(dev, crc, c, r, k.loop - 1) && ChunkSized(r.sectors) && r.lsn < end
    requires r.lsn + r.sectors < end ==> Behind(c, k) <= r.lsn + r.sectors
    ensures CleanScan(dev, crc, c.half, r.lsn, end, k.loop - 1)
  {
    RestOfWalk(dev, crc, c, k, end, n, r.lsn + r.sectors);
    CleanFrom(dev, crc, c, r, end, k.loop - 1);
  }

  lemma NextPair(rs: seq<Request>, c: Cfg, n: nat)
    requires TilesIn(rs, c, c.first, c.End()) && 2 * n < |rs| && rs[2 * n].lsn + rs[2 * n].sectors < c.End()
    ensures 2 * (n + 1) < |rs| && rs[2 * (n + 1)].lsn == rs[2 * n].lsn + rs[2 * n].sectors
  {
    PairAt(rs, c, n);
    FirstPairs(rs, c, c.first, c.End(), n + 1);
    if 2 * (n + 1) == |rs| {
      assert rs[..2 * (n + 1)] == rs;
      EndIsUnique(rs, c, c.first, EndOf(rs, c.first, n + 1), c.End());
    }
  }

  lemma {:induction false} EndIsUnique(rs: seq<Request>, c: Cfg, lo: nat, a: nat, b: nat)
    requires Tiles(rs, c, lo, a) && Tiles(rs, c, lo, b)
    ensures a == b
  {
    if rs != [] {
      EndIsUnique(rs[2..], c, lo + rs[0].sectors, a, b);
    }
  }

  lemma CleanAt(dev: Device, crc: Crc, c: Cfg, k: Cut, s: nat, end: nat)
    requires Plausible(crc, c, k) && LeftBy(dev, crc, k) && OldOrNew(dev, crc, k) && k.loop > 1
    requires c.first <= s && OnPage(s - c.first) && end <= c.End()
    requires forall n: nat :: 2 * n < |k.rs| ==> !ExposedAt(c, k, s, end, n)
    ensures CallClean(dev, crc, c, Call(s, end, k.loop - 1))
  {
    if s < end && Find(dev, s, end, k.loop - 1, 0).Some? {
      var n := FoundOld(dev, crc, c, k, s, end);
      NotExposedIsWhole(dev, crc, c, k, s, end, n);
      WholeScan(dev, crc, c, k, end, n, k.rs[2 * n]);
    }
  }

  lemma CleanWhenHidden(dev: Device, crc: Crc, c: Cfg, k: Cut, zone: nat, zones: nat)
    requires Plausible(crc, c, k) && LeftBy(dev, crc, k) && OldOrNew(dev, crc, k) && !Exposed(crc, c, k, zone)
    requires c.half == zones * ZONE && zone < zones
    ensures ZoneClean(dev, crc, c, zone, LossOf(crc, c, k))
  {
    var s := OldStart(c, zone, LossOf(crc, c, k));
    if s.Some? {
      OldCleanWhenHidden(dev, crc, c, k, zone, zones, s.value);
    }
    ZoneDecided(dev, crc, c, k, zone, zones);
  }

  lemma OldCleanWhenHidden(dev: Device, crc: Crc, c: Cfg, k: Cut, zone: nat, zones: nat, s: nat)
    requires Plausible(crc, c, k) && LeftBy(dev, crc, k) && OldOrNew(dev, crc, k) && !Exposed(crc, c, k, zone)
    requires c.half == zones * ZONE && zone < zones && OldStart(c, zone, LossOf(crc, c, k)) == Some(s)
    ensures CallClean(dev, crc, c, Call(s, Pattern.FirstSectorInZone(c.first, zone + 1), k.loop - 1))
  {
    if k.loop > 1 {
      OldStartBounds(crc, c, k, zone, zones, s);
      ZoneBounds(c, zone, zones);
      CleanAt(dev, crc, c, k, s, Pattern.FirstSectorInZone(c.first, zone + 1));
    } else {
      NothingChecked(dev, crc, c, Call(s, Pattern.FirstSectorInZone(c.first, zone + 1), k.loop - 1));
    }
  }

  ghost predicate NeverMarked(crc: Crc, c: Cfg, k: Cut, zone: nat)
    requires Plausible(crc, c, k)
  {
    forall dev: Device :: LeftInPages(dev, crc, k) ==> ZoneClean(dev, crc, c, zone, LossOf(crc, c, k))
  }

  // A power loss on a device that writes whole pages raises a false alarm in a zone,
  // for some choice of the pages that were written, exactly when a chunk of the older
  // pass is exposed there.
  lemma NoFalseAlarmIff(crc: Crc, c: Cfg, k: Cut, zone: nat, zones: nat)
    requires Plausible(crc, c, k) && Older(c, k) && c.half == zones * ZONE && zone < zones
    ensures NeverMarked(crc, c, k, zone) <==> !Exposed(crc, c, k, zone)
  {
    if Exposed(crc, c, k, zone) {
      var dev := MarkedWhenExposed(crc, c, k, zone, zones);
    } else {
      forall dev: Device | LeftInPages(dev, crc, k) ensures ZoneClean(dev, crc, c, zone, LossOf(crc, c, k)) {
        CleanWhenHidden(dev, crc, c, k, zone, zones);
      }
    }
  }

  // With nothing on its way but one pair there is none when both passes were cut up
  // alike.
  lemma SameRequestsHide(crc: Crc, c: Cfg, k: Cut, zone: nat, zones: nat)
    requires Plausible(crc, c, k) && k.rs == k.ps && k.i == k.j && c.half == zones * ZONE && zone < zones
    ensures !Exposed(crc, c, k, zone)
  {
    var s := OldStart(c, zone, LossOf(crc, c, k));
    if s.Some? {
      OldStartBounds(crc, c, k, zone, zones, s.value);
      var end := Pattern.FirstSectorInZone(c.first, zone + 1);
      forall n: nat | 2 * n < |k.rs| ensures !ExposedAt(c, k, s.value, end, n) {
        NoOtherStart(c, k, n);
      }
    }
  }

  lemma NoOtherStart(c: Cfg, k: Cut, n: nat)
    requires TilesIn(k.ps, c, c.first, c.End()) && k.Ordered() && k.i == k.j && 2 * n < |k.ps|
    ensures k.ps[2 * n].lsn <= k.ps[2 * k.i].lsn || Behind(c, k) <= k.ps[2 * n].lsn
  {
    if k.i < n {
      TilesApart(k.ps, c, c.first, c.End(), k.i, n);
    } else if n < k.i {
      TilesApart(k.ps, c, c.first, c.End(), n, k.i);
    }
  }
}
