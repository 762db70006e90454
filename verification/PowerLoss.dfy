// What a power loss leaves on the device, and where the extra verification marks
// nothing whatever that is.
module PowerLoss {
  import opened Types
  import opened Interleaving
  import opened ExtraCheck
  import opened ExtraVerification
  import Pattern
  import Prediction

  // Power was lost in the pass `loop` over requests ps, on a device as the pass before
  // it, over requests rs, left it.  The first request that verification finds not to be
  // what it should be is the large one of pair i, or the mirror page behind it.  With
  // packed requests or the cache on, everything up to the large request of pair j, or
  // to its mirror page, may have been on its way; else there is only the one.  The
  // large request of pair g, or its mirror page, is what verification predicts to be
  // the last one missing.
  datatype Cut = Cut(was: Device, rs: seq<Request>, ps: seq<Request>, loop: nat, boot: nat,
                     i: nat, mirror: bool, delayed: bool, j: nat, toMirror: bool, g: nat, guessMirror: bool)
  {
    // The first and the last request on their way, and the predicted last one.
    function First(): nat {
      Request(i, mirror)
    }

    function Last(): nat {
      Request(j, toMirror)
    }

    function Guess(): nat {
      Request(g, guessMirror)
    }

    static function Request(pair: nat, mirror: bool): nat {
      if mirror then 2 * pair + 1 else 2 * pair
    }

    // The pairs whose large request is complete.
    function Complete(): nat {
      if mirror then i + 1 else i
    }

    predicate OnlyMirror() {
      mirror && i == j
    }

    predicate Ordered() {
      && First() <= Last() && First() <= Guess() && 2 * j < |ps| && 2 * g < |ps| && |ps| % 2 == 0
      && (!delayed ==> First() == Last())
    }
  }

  ghost predicate Plausible(crc: Crc, c: Cfg, k: Cut) {
    && TilesIn(k.rs, c, c.first, c.End()) && (k.loop > 1 ==> StampedAll(k.was, crc, c, k.rs, k.loop - 1))
    && TilesIn(k.ps, c, c.first, c.End()) && k.Ordered()
  }

  ghost predicate RequestStamped(dev: Device, crc: Crc, r: Request, loop: nat) {
    forall i: nat :: i < r.sectors / SECTORS_PER_PAGE ==> Stamped(dev, crc, r, i, loop)
  }

  ghost predicate Touched(k: Cut, x: nat)
    requires k.Ordered()
  {
    exists n :: 0 <= n <= k.Last() && InPages(k.ps[n], x)
  }

  // Earlier requests are on the device, those on their way left anything at all in their
  // pages, and all other pages are as they were.
  ghost predicate LeftBy(dev: Device, crc: Crc, k: Cut)
    requires k.Ordered()
  {
    && (forall n :: 0 <= n < k.First() ==> RequestStamped(dev, crc, k.ps[n], k.loop))
    && (forall x: nat :: !Touched(k, x) ==> dev(x) == k.was(x))
  }

  // ----- Where the pairs of a pass begin and end -----

  // Where the first n large requests end.
  function EndOf(ps: seq<Request>, lo: nat, n: nat): nat
    requires 2 * n <= |ps| + 1
  {
    if n == 0 then lo else ps[2 * (n - 1)].lsn + ps[2 * (n - 1)].sectors
  }

  lemma {:induction false} FirstPairs(ps: seq<Request>, c: Cfg, lo: nat, hi: nat, n: nat)
    requires TilesIn(ps, c, lo, hi) && 2 * n <= |ps|
    ensures TilesIn(ps[..2 * n], c, lo, EndOf(ps, lo, n)) && EndOf(ps, lo, n) <= hi
    ensures 2 * n < |ps| ==> ps[2 * n].lsn == EndOf(ps, lo, n)
  {
    if n > 0 {
      assert ChunkSized(ps[2 * 0].sectors);
      TilesTail(ps, c, lo, hi);
      FirstPairs(ps[2..], c, lo + ps[0].sectors, hi, n - 1);
      assert ps[..2 * n][2..] == ps[2..][..2 * (n - 1)];
      assert EndOf(ps[2..], lo + ps[0].sectors, n - 1) == EndOf(ps, lo, n);
      forall i: nat | 2 * i < |ps[..2 * n]| ensures ChunkSized(ps[..2 * n][2 * i].sectors) {
        assert ps[..2 * n][2 * i] == ps[2 * i];
      }
    }
  }

  // A large request and its mirror page.
  lemma PairAt(ps: seq<Request>, c: Cfg, n: nat)
    requires TilesIn(ps, c, c.first, c.End()) && 2 * n < |ps|
    ensures var r := ps[2 * n];
            && ChunkSized(r.sectors) && c.first <= r.lsn && r.lsn + r.sectors <= c.End() && OnPage(r.lsn - c.first)
            && 2 * n + 1 < |ps| && ps[2 * n + 1] == Request(r.lsn + c.half, SECTORS_PER_PAGE, r.num + 1)
            && Adjusted(c, ps[2 * n].lsn) == r.lsn && Adjusted(c, ps[2 * n + 1].lsn) == r.lsn
  {
    TilesInside(ps, c, c.first, c.End(), n);
    AlignedStart(ps, c, c.first, c.End(), n);
    assert ChunkSized(ps[2 * n].sectors);
  }

  // What verification concludes from it.
  ghost function LossOf(crc: Crc, c: Cfg, k: Cut): (l: Loss)
    requires Plausible(crc, c, k)
    ensures Sensible(c, l)
  {
    PairAt(k.ps, c, k.i);
    PairAt(k.ps, c, k.g);
    var (r, last) := (k.ps[k.First()], k.ps[k.Guess()]);
    Loss(r.lsn, r.sectors, k.loop, k.delayed, last.lsn + last.sectors - SECTORS_PER_PAGE)
  }

  lemma LossAdjusted(crc: Crc, c: Cfg, k: Cut)
    requires Plausible(crc, c, k)
    ensures var (l, a, b) := (LossOf(crc, c, k), k.ps[2 * k.i], k.ps[2 * k.g]);
            && Adjusted(c, l.lsn) == a.lsn
            && Adjusted(c, l.last) == if k.guessMirror then b.lsn else b.lsn + b.sectors - SECTORS_PER_PAGE
  {
    PairAt(k.ps, c, k.i);
    PairAt(k.ps, c, k.g);
  }

  // Its predicted last request is the one that counting the requests predicts.
  lemma LossIsPredicted(crc: Crc, c: Cfg, k: Cut, cycle: nat)
    requires Plausible(crc, c, k) && Numbered(k.ps, 1) && cycle > 0
    requires k.Guess() + 1 == Prediction.Predicted(k.First() + 1, cycle)
    ensures Prediction.HavePages(k.ps[..k.Guess() + 1])
    ensures Prediction.CountAll(k.ps[..k.Guess() + 1], k.First() + 1, cycle).last == Some(LossOf(crc, c, k).last)
  {
    AllHavePages(c, k, k.Guess() + 1);
    LossLast(crc, c, k);
    Prediction.PredictedLast(k.ps, k.Guess(), k.First() + 1, cycle);
  }

  lemma LossLast(crc: Crc, c: Cfg, k: Cut)
    requires Plausible(crc, c, k)
    ensures k.ps[k.Guess()].sectors >= SECTORS_PER_PAGE
    ensures LossOf(crc, c, k).last == Prediction.LastPage(k.ps[k.Guess()])
  {
    PairAt(k.ps, c, k.g);
  }

  lemma AllHavePages(c: Cfg, k: Cut, n: nat)
    requires TilesIn(k.ps, c, c.first, c.End()) && n <= |k.ps|
    ensures Prediction.HavePages(k.ps[..n])
  {
    forall i | 0 <= i < n ensures k.ps[i].sectors >= SECTORS_PER_PAGE {
      PairAt(k.ps, c, i / 2);
    }
  }

  // From here on nothing was on its way.
  ghost function Behind(c: Cfg, k: Cut): nat
    requires k.Ordered()
  {
    EndOf(k.ps, c.first, k.j + 1)
  }

  // That sector, from what verification concludes: the end of the interrupted large
  // request, of the large request of the interrupted mirror page, or -- when the
  // prediction is not too early -- at most MAX_REQUEST_SECTORS behind it.
  lemma BehindOfLoss(crc: Crc, c: Cfg, k: Cut)
    requires Plausible(crc, c, k)
    ensures var (l, b) := (LossOf(crc, c, k), Behind(c, k));
            && (!k.delayed && !k.mirror ==> b == Adjusted(c, l.lsn) + l.sectors)
            && (!k.delayed && k.mirror ==> b == Adjusted(c, l.lsn) + k.ps[2 * k.i].sectors)
            && (k.j <= k.g ==> b <= Adjusted(c, l.last) + MAX_REQUEST_SECTORS)
  {
    LossAdjusted(crc, c, k);
    PairAt(k.ps, c, k.i);
    if k.j <= k.g {
      BehindGuess(c, k);
    }
  }

  lemma BehindGuess(c: Cfg, k: Cut)
    requires TilesIn(k.ps, c, c.first, c.End()) && k.Ordered() && k.j <= k.g
    ensures Behind(c, k) <= k.ps[2 * k.g].lsn + k.ps[2 * k.g].sectors <= k.ps[2 * k.g].lsn + MAX_REQUEST_SECTORS
    ensures k.ps[2 * k.g].sectors >= SECTORS_PER_PAGE
  {
    PairAt(k.ps, c, k.g);
    if k.j < k.g {
      TilesApart(k.ps, c, c.first, c.End(), k.j, k.g);
    }
  }

  lemma NotTouchedBehind(crc: Crc, c: Cfg, k: Cut, x: nat)
    requires Plausible(crc, c, k) && (Behind(c, k) <= x < c.End() || Behind(c, k) + c.half <= x)
    ensures !Touched(k, x)
  {
    PairAt(k.ps, c, k.j);
    var n := k.j + 1;
    FirstPairs(k.ps, c, c.first, c.End(), n);
    var done := k.ps[..2 * n];
    forall i | 0 <= i <= k.Last() ensures !InPages(k.ps[i], x) {
      if InPages(k.ps[i], x) {
        assert done[i] == k.ps[i];
        RequestRange(done, c, c.first, Behind(c, k), i, x);
      }
    }
  }

  lemma PairStamped(dev: Device, crc: Crc, c: Cfg, k: Cut, i: nat)
    requires Plausible(crc, c, k) && LeftBy(dev, crc, k) && 2 * i + 1 < k.First()
    ensures StampedChunk(dev, crc, c, k.ps[2 * i], k.loop)
  {
    PairAt(k.ps, c, i);
    assert RequestStamped(dev, crc, k.ps[2 * i], k.loop) && RequestStamped(dev, crc, k.ps[2 * i + 1], k.loop);
    assert Stamped(dev, crc, k.ps[2 * i + 1], 0, k.loop);
  }

  lemma PairsStamped(dev: Device, crc: Crc, c: Cfg, k: Cut, n: nat)
    requires Plausible(crc, c, k) && LeftBy(dev, crc, k) && 2 * n <= k.First()
    ensures StampedAll(dev, crc, c, k.ps[..2 * n], k.loop)
  {
    var done := k.ps[..2 * n];
    forall i: nat | 2 * i < |done| ensures StampedChunk(dev, crc, c, done[2 * i], k.loop) {
      assert done[2 * i] == k.ps[2 * i];
      PairStamped(dev, crc, c, k, i);
    }
  }

  // The requests before the interrupted pair, and what lies from `behind` on.
  lemma HealthyFrom(dev: Device, crc: Crc, c: Cfg, k: Cut, behind: nat)
    requires Plausible(crc, c, k) && LeftBy(dev, crc, k) && SameBehind(dev, k.was, c, behind)
    ensures Healthy(dev, crc, c, k.ps[..2 * k.i], k.was, k.rs, behind, LossOf(crc, c, k))
  {
    LossAdjusted(crc, c, k);
    FirstPairs(k.ps, c, c.first, c.End(), k.i);
    PairsStamped(dev, crc, c, k, k.i);
  }

  lemma LossIsHealthy(dev: Device, crc: Crc, c: Cfg, k: Cut)
    requires Plausible(crc, c, k) && LeftBy(dev, crc, k)
    ensures Healthy(dev, crc, c, k.ps[..2 * k.i], k.was, k.rs, Behind(c, k), LossOf(crc, c, k))
  {
    forall x: nat | Behind(c, k) <= x < c.End() || Behind(c, k) + c.half <= x ensures dev(x) == k.was(x) {
      NotTouchedBehind(crc, c, k, x);
    }
    HealthyFrom(dev, crc, c, k, Behind(c, k));
  }

  // ----- Zones that nothing on its way can reach into -----

  // Safe are: the first pass, a zone whose older pages are not checked, the loss of
  // nothing but a mirror page, and a zone whose older pages are checked only from
  // where nothing was on its way.
  ghost predicate Safe(crc: Crc, c: Cfg, k: Cut, zone: nat)
    requires Plausible(crc, c, k)
  {
    match OldStart(c, zone, LossOf(crc, c, k))
    case None => true
    case Some(s) =>
      || k.loop <= 1 || k.OnlyMirror() || Behind(c, k) <= s
      || Pattern.FirstSectorInZone(c.first, zone + 1) <= s
  }

  // The pages of the pair whose mirror page was lost carry the new loop count.
  lemma NewInPair(dev: Device, crc: Crc, c: Cfg, k: Cut, x: nat)
    requires Plausible(crc, c, k) && LeftBy(dev, crc, k) && k.mirror
    requires var r := k.ps[2 * k.i]; r.lsn <= x < r.lsn + r.sectors && OnPage(x - r.lsn)
    ensures dev(x).body.loop == k.loop
  {
    var r := k.ps[2 * k.i];
    PairAt(k.ps, c, k.i);
    var i := PageIn(r.lsn, r.sectors, x);
    assert RequestStamped(dev, crc, r, k.loop);
    assert Stamped(dev, crc, r, i, k.loop);
  }

  lemma PageIn(lsn: nat, sectors: nat, x: nat) returns (i: nat)
    requires lsn <= x < lsn + sectors && OnPage(x - lsn) && OnPage(sectors)
    ensures x == lsn + i * SECTORS_PER_PAGE && i < sectors / SECTORS_PER_PAGE
  {
    i := (x - lsn) / SECTORS_PER_PAGE;
  }

  lemma StillOnPage(a: nat, s: nat, j: nat)
    requires a <= s && OnPage(s - a)
    ensures OnPage(s + j * SECTORS_PER_PAGE - a)
  {
  }

  lemma NoneOfOldLoop(dev: Device, crc: Crc, c: Cfg, k: Cut, s: nat)
    requires Plausible(crc, c, k) && LeftBy(dev, crc, k) && k.loop > 1 && k.OnlyMirror()
    requires k.ps[2 * k.i].lsn <= s && OnPage(s - k.ps[2 * k.i].lsn)
    ensures NoneBefore(dev, s, Behind(c, k), k.loop - 1)
  {
    var r := k.ps[2 * k.i];
    assert Behind(c, k) == r.lsn + r.sectors;
    forall j: nat | s + j * SECTORS_PER_PAGE < Behind(c, k)
      ensures dev(s + j * SECTORS_PER_PAGE).body.loop != k.loop - 1
    {
      StillOnPage(r.lsn, s, j);
      NewInPair(dev, crc, c, k, s + j * SECTORS_PER_PAGE);
    }
  }

  lemma NoneUpToBehind(dev: Device, crc: Crc, c: Cfg, k: Cut, s: nat)
    requires Plausible(crc, c, k) && LeftBy(dev, crc, k) && k.loop > 1 && (k.OnlyMirror() || Behind(c, k) <= s)
    requires k.ps[2 * k.i].lsn <= s && OnPage(s - k.ps[2 * k.i].lsn)
    ensures NoneBefore(dev, s, Behind(c, k), k.loop - 1)
  {
    if k.OnlyMirror() {
      NoneOfOldLoop(dev, crc, c, k, s);
    }
  }

  // Where the check of the older loop count begins.
  lemma OldStartOnPage(c: Cfg, zone: nat, zones: nat, l: Loss)
    requires Sensible(c, l) && c.half == zones * ZONE && zone < zones
    requires OnPage(Adjusted(c, l.lsn) - c.first) && OnPage(l.sectors) && l.sectors > 0
    requires l.delayed ==> Adjusted(c, l.lsn) <= Adjusted(c, l.last) && OnPage(Adjusted(c, l.last) - c.first)
    ensures var s := OldStart(c, zone, l);
            s.Some? ==> Adjusted(c, l.lsn) < s.value && OnPage(s.value - c.first)
  {
    ZoneBounds(c, zone, zones);
    if zone > CurrentZone(c, l) {
      EarlierSector(c.first, zone, Adjusted(c, l.lsn));
    }
    if OldStart(c, zone, l).Some? {
      if LastIn(c, l, zone) {
        SumOnPage(Adjusted(c, l.last) - c.first, MAX_REQUEST_SECTORS);
      } else if zone <= CurrentZone(c, l) {
        SumOnPage(Adjusted(c, l.lsn) - c.first, l.sectors);
      }
    }
  }

  lemma OldStartBounds(crc: Crc, c: Cfg, k: Cut, zone: nat, zones: nat, s: nat)
    requires Plausible(crc, c, k) && c.half == zones * ZONE && zone < zones
    requires OldStart(c, zone, LossOf(crc, c, k)) == Some(s)
    ensures c.first <= k.ps[2 * k.i].lsn < s && OnPage(s - c.first) && OnPage(s - k.ps[2 * k.i].lsn)
  {
    LossOnPage(crc, c, k);
    OldStartOnPage(c, zone, zones, LossOf(crc, c, k));
    SumOnPage(s - c.first, k.ps[2 * k.i].lsn - c.first);
  }

  lemma LossOnPage(crc: Crc, c: Cfg, k: Cut)
    requires Plausible(crc, c, k)
    ensures var (l, r) := (LossOf(crc, c, k), k.ps[2 * k.i]);
            && Adjusted(c, l.lsn) == r.lsn && c.first <= r.lsn
            && OnPage(r.lsn - c.first) && OnPage(l.sectors) && l.sectors > 0
            && r.lsn <= Adjusted(c, l.last) && OnPage(Adjusted(c, l.last) - c.first)
  {
    LossAdjusted(crc, c, k);
    PairAt(k.ps, c, k.i);
    GuessOnPage(c, k);
  }

  lemma GuessOnPage(c: Cfg, k: Cut)
    requires TilesIn(k.ps, c, c.first, c.End()) && k.Ordered()
    ensures var b := k.ps[2 * k.g];
            && c.first <= k.ps[2 * k.i].lsn <= b.lsn && OnPage(b.lsn - c.first)
            && b.sectors >= SECTORS_PER_PAGE && OnPage(b.lsn + b.sectors - SECTORS_PER_PAGE - c.first)
  {
    var b := k.ps[2 * k.g];
    PairAt(k.ps, c, k.i);
    PairAt(k.ps, c, k.g);
    if k.i < k.g {
      TilesApart(k.ps, c, c.first, c.End(), k.i, k.g);
    }
    LastPageOnPage(b.lsn - c.first, b.sectors);
  }

  lemma LastPageOnPage(a: nat, sectors: nat)
    requires OnPage(a) && ChunkSized(sectors)
    ensures OnPage(a + sectors - SECTORS_PER_PAGE)
  {
  }

  lemma EarlierSector(first: nat, zone: nat, x: nat)
    requires first <= x && Pattern.ZoneNum(first, x) < zone
    ensures x < Pattern.FirstSectorInZone(first, zone)
  {
    var z := Pattern.ZoneNum(first, x);
    assert x - first == z * ZONE + (x - first) % ZONE;
    assert zone * ZONE == (z + 1) * ZONE + (zone - z - 1) * ZONE;
  }

  lemma OldCleanBehind(dev: Device, crc: Crc, c: Cfg, k: Cut, zone: nat, zones: nat, s: nat)
    requires Plausible(crc, c, k) && LeftBy(dev, crc, k) && c.half == zones * ZONE && zone < zones
    requires OldStart(c, zone, LossOf(crc, c, k)) == Some(s) && k.loop > 1
    requires k.OnlyMirror() || Behind(c, k) <= s
    ensures CallClean(dev, crc, c, Call(s, Pattern.FirstSectorInZone(c.first, zone + 1), k.loop - 1))
  {
    var (l, behind) := (LossOf(crc, c, k), Behind(c, k));
    assert c.first <= s && OnPage(s - c.first) && NoneBefore(dev, s, behind, k.loop - 1) by {
      OldStartBounds(crc, c, k, zone, zones, s);
      NoneUpToBehind(dev, crc, c, k, s);
    }
    LossIsHealthy(dev, crc, c, k);
    BackClean(dev, crc, c, k.ps[..2 * k.i], k.was, k.rs, behind, zone, zones, l, s);
  }

  lemma OldCleanWhenSafe(dev: Device, crc: Crc, c: Cfg, k: Cut, zone: nat, zones: nat, s: nat)
    requires Plausible(crc, c, k) && LeftBy(dev, crc, k) && c.half == zones * ZONE && zone < zones
    requires OldStart(c, zone, LossOf(crc, c, k)) == Some(s) && Safe(crc, c, k, zone)
    ensures CallClean(dev, crc, c, Call(s, Pattern.FirstSectorInZone(c.first, zone + 1), k.loop - 1))
  {
    if k.loop > 1 && s < Pattern.FirstSectorInZone(c.first, zone + 1) {
      OldCleanBehind(dev, crc, c, k, zone, zones, s);
    } else {
      NothingChecked(dev, crc, c, Call(s, Pattern.FirstSectorInZone(c.first, zone + 1), k.loop - 1));
    }
  }

  lemma NothingChecked(dev: Device, crc: Crc, c: Cfg, call: Call)
    requires call.loop <= 0 || call.end <= call.start
    ensures CallClean(dev, crc, c, call)
  {
  }

  // In a safe zone the checks end and mark nothing, whatever the pages on their way hold.
  lemma CleanWhenSafe(dev: Device, crc: Crc, c: Cfg, k: Cut, zone: nat, zones: nat)
    requires Plausible(crc, c, k) && LeftBy(dev, crc, k) && Safe(crc, c, k, zone)
    requires c.half == zones * ZONE && zone < zones
    ensures ZoneClean(dev, crc, c, zone, LossOf(crc, c, k))
  {
    var s := OldStart(c, zone, LossOf(crc, c, k));
    if s.Some? {
      OldCleanWhenSafe(dev, crc, c, k, zone, zones, s.value);
    }
    ZoneDecided(dev, crc, c, k, zone, zones);
  }

  lemma ZoneDecided(dev: Device, crc: Crc, c: Cfg, k: Cut, zone: nat, zones: nat)
    requires Plausible(crc, c, k) && LeftBy(dev, crc, k) && c.half == zones * ZONE && zone < zones
    ensures ZoneClean(dev, crc, c, zone, LossOf(crc, c, k)) <==> OldClean(dev, crc, c, zone, LossOf(crc, c, k))
  {
    LossIsHealthy(dev, crc, c, k);
    ZoneCleanIff(dev, crc, c, k.ps[..2 * k.i], k.was, k.rs, Behind(c, k), zone, zones, LossOf(crc, c, k));
  }

  // ----- Requests torn in order -----

  // The interrupted request was written page by page up to y and no further.
  ghost predicate TornAt(dev: Device, crc: Crc, k: Cut, y: nat)
    requires k.Ordered()
  {
    var r := k.ps[2 * k.i];
    && r.lsn <= y <= r.lsn + r.sectors
    && (forall i: nat :: r.lsn + i * SECTORS_PER_PAGE < y ==> Stamped(dev, crc, r, i, k.loop))
    && (forall x: nat :: y <= x < r.lsn + r.sectors ==> dev(x) == k.was(x))
  }

  lemma TornBehind(dev: Device, crc: Crc, c: Cfg, k: Cut, y: nat)
    requires Plausible(crc, c, k) && LeftBy(dev, crc, k) && !k.delayed && !k.mirror && TornAt(dev, crc, k, y)
    ensures SameBehind(dev, k.was, c, y)
  {
    PairAt(k.ps, c, k.i);
    FirstPairs(k.ps, c, c.first, c.End(), k.i);
    var done := k.ps[..2 * k.i];
    forall x: nat | y <= x < c.End() || y + c.half <= x ensures dev(x) == k.was(x) {
      if Touched(k, x) {
        var n :| 0 <= n <= k.Last() && InPages(k.ps[n], x);
        if n < 2 * k.i {
          assert done[n] == k.ps[n];
          RequestRange(done, c, c.first, k.ps[2 * k.i].lsn, n, x);
        }
      }
    }
  }

  lemma NoneOfOldLoopTorn(dev: Device, crc: Crc, c: Cfg, k: Cut, y: nat, s: nat)
    requires Plausible(crc, c, k) && !k.mirror && TornAt(dev, crc, k, y) && k.loop > 1
    requires k.ps[2 * k.i].lsn <= s && OnPage(s - k.ps[2 * k.i].lsn)
    ensures NoneBefore(dev, s, y, k.loop - 1)
  {
    var r := k.ps[2 * k.i];
    PairAt(k.ps, c, k.i);
    forall j: nat | s + j * SECTORS_PER_PAGE < y ensures dev(s + j * SECTORS_PER_PAGE).body.loop != k.loop - 1 {
      StillOnPage(r.lsn, s, j);
      var i := PageIn(r.lsn, r.sectors, s + j * SECTORS_PER_PAGE);
      assert Stamped(dev, crc, r, i, k.loop);
    }
  }

  // Then nothing is marked in any zone.
  lemma TornInOrderIsClean(dev: Device, crc: Crc, c: Cfg, k: Cut, y: nat, zone: nat, zones: nat)
    requires Plausible(crc, c, k) && LeftBy(dev, crc, k) && !k.delayed && !k.mirror && TornAt(dev, crc, k, y)
    requires c.half == zones * ZONE && zone < zones
    ensures ZoneClean(dev, crc, c, zone, LossOf(crc, c, k))
  {
    TornBehind(dev, crc, c, k, y);
    HealthyFrom(dev, crc, c, k, y);
    var s := OldStart(c, zone, LossOf(crc, c, k));
    if s.Some? {
      OldStartBounds(crc, c, k, zone, zones, s.value);
      if k.loop > 1 {
        NoneOfOldLoopTorn(dev, crc, c, k, y, s.value);
      }
    }
    ExtraIsClean(dev, crc, c, k.ps[..2 * k.i], k.was, k.rs, y, zone, zones, LossOf(crc, c, k));
  }
}
