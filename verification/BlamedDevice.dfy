// A healthy device that the extra verification blames, from the seeds on: two passes
// of the pattern with the cache on, a power loss in the second, and a marked page.
module BlamedDevice {
  import opened Types
  import opened Well512
  import opened SectorCount
  import opened Interleaving
  import opened Pattern
  import opened ExtraCheck
  import opened ExtraVerification
  import opened PowerLoss
  import opened FalseAlarm
  import ZoneCheck
  import Prediction

  // ----- While the cache fills all requests but the first are of the largest size -----

  lemma {:induction false} FillStarts(c: Cfg, lsn: nat, size: nat, num: nat, sizes: Sizes, k: nat, i: nat)
    requires InRange(sizes) && c.cached && 0 < size <= MAX_REQUEST_SECTORS && i > 0
    requires num + 2 * (i - 1) <= c.flushCycle
    requires lsn + size + (i - 1) * MAX_REQUEST_SECTORS < c.End()
    ensures var (rs, x) := (Rest(c, lsn, size, num, sizes, k).requests, lsn + size + (i - 1) * MAX_REQUEST_SECTORS);
            && 2 * i < |rs| && rs[2 * i].lsn == x
            && (num + 2 * i <= c.flushCycle && x + MAX_REQUEST_SECTORS <= c.End() ==>
                  rs[2 * i].sectors == MAX_REQUEST_SECTORS)
    decreases i
  {
    NextInRange(c, num + 2, sizes, k);
    var (n, k') := (NextSize(c, num + 2, sizes, k), NextDraws(c, num + 2, k));
    var more := Rest(c, lsn + size, n, num + 2, sizes, k').requests;
    var pair := Pair(c, lsn, size, num);
    if i > 1 {
      FillStarts(c, lsn + size, n, num + 2, sizes, k', i - 1);
    }
    assert (pair + more)[2 * i] == more[2 * (i - 1)];
  }

  // ----- One seed -----

  const SEED := KNOWN_SEED

  // The first size it gives.
  lemma SeedSize()
    ensures SizesOf(Seeded(SEED))(0) == 64
  {
    KnownDraw();
    assert After(Seeded(SEED), 0) == Seeded(SEED);
    assert (0x2650becb as bv32) as nat == 0x2650becb;
    assert 0x2650becb % 121 == 0;
  }

  // ----- The two passes -----

  const CYCLE := 258
  const CACHED := Cfg(0, 2 * ZONE, true, CYCLE)
  const BLANK: Device := (x: nat) => Header(0, Body(0, 0, 0, 0, 0, 0, 0, 0), 0)

  // The first pass was interrupted at the mirror page of its first request, and the
  // next boot goes on from there: back to the first half, with a drawn size.
  ghost function FirstPass(): seq<Request> {
    Recorded(CACHED, WriteInfo(CACHED.half, SECTORS_PER_PAGE, SEED))
  }

  // The second pass begins at the first sector with the size all passes begin with.
  ghost function SecondPass(seed: bv32): seq<Request> {
    Recorded(CACHED, WriteInfo(CACHED.first, 16 * SECTORS_PER_PAGE, seed))
  }

  lemma FirstPassIs()
    ensures FirstPass() == Rest(CACHED, 0, 64, 1, SizesOf(Seeded(SEED)), 1).requests
    ensures TilesIn(FirstPass(), CACHED, 0, CACHED.End())
  {
    SeedSize();
    var sizes := SizesOf(Seeded(SEED));
    RestTiles(CACHED, 0, 64, 1, sizes, 1);
    RestSizes(CACHED, 0, 64, 1, sizes, 1);
  }

  // It has a chunk that begins 64 sectors into zone 1.
  lemma OldChunkStart()
    ensures 2 * 129 < |FirstPass()| && FirstPass()[2 * 129].lsn == ZONE + 64
  {
    FirstPassIs();
    FillStarts(CACHED, 0, 64, 1, SizesOf(Seeded(SEED)), 1, 129);
  }

  // Its request 257 reaches 128 sectors into zone 1, whatever the seed.
  lemma CrossingRequest(seed: bv32)
    ensures TilesIn(SecondPass(seed), CACHED, 0, CACHED.End()) && |SecondPass(seed)| % 2 == 0
    ensures 2 * 128 < |SecondPass(seed)|
    ensures SecondPass(seed)[2 * 128].lsn == ZONE - 896 && SecondPass(seed)[2 * 128].sectors == MAX_REQUEST_SECTORS
  {
    var sizes := SizesOf(Seeded(seed));
    PassIsCheckable(CACHED, 0, 16 * SECTORS_PER_PAGE, sizes);
    EvenLength(SecondPass(seed), CACHED, 0, CACHED.End());
    FillStarts(CACHED, 0, 16 * SECTORS_PER_PAGE, 1, sizes, 0, 128);
  }

  lemma {:induction false} EvenLength(rs: seq<Request>, c: Cfg, lo: nat, hi: nat)
    requires Tiles(rs, c, lo, hi)
    ensures |rs| % 2 == 0
  {
    if rs != [] {
      EvenLength(rs[2..], c, lo + rs[0].sectors, hi);
    }
  }

  // ----- Power is lost before the cache is flushed -----

  lemma {:induction false} WrittenOrBefore(dev: Device, w: Writer, rs: seq<Request>, x: nat)
    ensures var h := WriteAll(dev, w, rs)(x); h == dev(x) || (h.body.loop == w.loop && h.body.boot == w.boot)
  {
    if rs != [] {
      WrittenOrBefore(dev, w, rs[..|rs| - 1], x);
    }
  }

  // Request 257 was on its way; 258 is the flush, which did not begin, and is predicted.
  ghost function Story(crc: Crc, commit: Request -> bool, seed: bv32): Cut {
    Cut(WriteAll(BLANK, Writer(crc, 1, 2, commit), FirstPass()), FirstPass(), SecondPass(seed), 2, 2,
        128, false, true, 128, false, 128, true)
  }

  lemma StoryIsPlausible(crc: Crc, commit: Request -> bool, seed: bv32)
    ensures Plausible(crc, CACHED, Story(crc, commit, seed)) && Older(CACHED, Story(crc, commit, seed))
  {
    var w := Writer(crc, 1, 2, commit);
    FirstPassIs();
    PassStamps(BLANK, w, FirstPass(), CACHED, 0, CACHED.End());
    CrossingRequest(seed);
    forall x: nat ensures var h := WriteAll(BLANK, w, FirstPass())(x).body; h.loop != 2 && h.boot <= 2 {
      WrittenOrBefore(BLANK, w, FirstPass(), x);
    }
  }

  // The predicted request is the one verification counts, and the end of its group.
  ghost predicate PredictedRight(k: Cut) {
    Prediction.Predicted(k.First() + 1, CYCLE) == k.Guess() + 1 == Prediction.GroupEnd(k.First() + 1, CYCLE)
  }

  lemma StoryExposesAt(crc: Crc, commit: Request -> bool, seed: bv32)
    requires Plausible(crc, CACHED, Story(crc, commit, seed))
    ensures 2 * 129 < |FirstPass()| && ExposedAt(CACHED, Story(crc, commit, seed), ZONE, 2 * ZONE, 129)
  {
    var k := Story(crc, commit, seed);
    CrossingRequest(seed);
    OldChunkStart();
    FirstPairs(k.ps, CACHED, 0, CACHED.End(), 128);
    assert NextOnItsWay(CACHED, k, k.rs[2 * 129], 2 * ZONE);
  }

  // The loss and the prediction are in zone 0, so zone 1 is checked from its start.
  lemma StoryInZone(crc: Crc, commit: Request -> bool, seed: bv32)
    requires Plausible(crc, CACHED, Story(crc, commit, seed))
    ensures var l := LossOf(crc, CACHED, Story(crc, commit, seed));
            Adjusted(CACHED, l.lsn) < ZONE && Adjusted(CACHED, l.last) < ZONE
  {
    CrossingRequest(seed);
    LossAdjusted(crc, CACHED, Story(crc, commit, seed));
  }

  lemma NextFromStart(l: Loss)
    requires Sensible(CACHED, l) && Adjusted(CACHED, l.lsn) < ZONE && Adjusted(CACHED, l.last) < ZONE
    ensures OldStart(CACHED, 1, l) == Some(ZONE)
  {
  }

  lemma StoryExposes(crc: Crc, commit: Request -> bool, seed: bv32)
    requires Plausible(crc, CACHED, Story(crc, commit, seed))
    ensures Exposed(crc, CACHED, Story(crc, commit, seed), 1)
  {
    StoryInZone(crc, commit, seed);
    NextFromStart(LossOf(crc, CACHED, Story(crc, commit, seed)));
    StoryExposesAt(crc, commit, seed);
  }

  // Every page of zone 1 was right before.
  lemma StoryIsSound(crc: Crc, commit: Request -> bool, seed: bv32)
    requires Plausible(crc, CACHED, Story(crc, commit, seed))
    ensures ZoneCheck.SoundBefore(crc, CACHED, Story(crc, commit, seed), 1)
  {
    ZoneCheck.OldPassSoundBefore(crc, CACHED, Story(crc, commit, seed), 1, 2);
  }

  // So a device that did nothing but write each page or not is blamed, though neither
  // the replay confirms a crash nor the check of the zone's sector numbers and checksums
  // marks a page: for any checksum, flush marks and seed of the second pass.
  lemma HealthyDeviceBlamed(crc: Crc, commit: Request -> bool, seed: bv32) returns (dev: Device)
    ensures Plausible(crc, CACHED, Story(crc, commit, seed)) && LeftInPages(dev, crc, Story(crc, commit, seed))
    ensures Unconfirmed(CACHED, Story(crc, commit, seed)) && PredictedRight(Story(crc, commit, seed))
    ensures ZoneCheck.ZonePagesClean(dev, crc, CACHED, 1)
    ensures !ZoneClean(dev, crc, CACHED, 1, LossOf(crc, CACHED, Story(crc, commit, seed)))
  {
    StoryIsPlausible(crc, commit, seed);
    StoryIsSound(crc, commit, seed);
    StoryExposes(crc, commit, seed);
    dev := MarkedWhenExposed(crc, CACHED, Story(crc, commit, seed), 1, 2);
    ZoneCheck.SoundStaysClean(dev, crc, CACHED, Story(crc, commit, seed), 1);
  }
}
