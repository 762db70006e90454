// The check of sector numbers and checksums over a whole zone that follows the replay,
// and when it marks a page after a power loss.
module ZoneCheck {
  import opened Types
  import opened Interleaving
  import opened ExtraCheck
  import opened PowerLoss
  import opened ExtraVerification
  import opened Findings
  import opened FalseAlarm
  import Pattern

  predicate HeaderOk(crc: Crc, h: Header, lsn: nat, expectedLoop: Option<nat>) {
    PageOk(crc, h, lsn) && (expectedLoop.Some? ==> h.body.loop == expectedLoop.value)
  }

  // What is filed about the pages from s on.
  function Pages(dev: Device, crc: Crc, s: nat, end: nat, expectedLoop: Option<nat>): seq<Finding>
    decreases end - s
  {
    if s >= end then []
    else
      [Finding(s, SECTORS_PER_PAGE, !HeaderOk(crc, dev(s), s, expectedLoop))] +
      Pages(dev, crc, s + SECTORS_PER_PAGE, end, expectedLoop)
  }

  // Reading 8 MB at a time gives that.
  method VerifyCheckPages(dev: Device, crc: Crc, start: nat, end: nat, expectedLoop: Option<nat>)
    returns (fs: seq<Finding>, crashed: bool)
    ensures fs == Pages(dev, crc, start, end, expectedLoop)
    ensures crashed <==> !Clean(fs)
  {
    var s: nat := start;
    var length := NUM_OF_SECTORS_PER_8MB;
    fs, crashed := [], false;
    PagesFrom([], Pages(dev, crc, start, end, expectedLoop));
    while s < end
      invariant Pages(dev, crc, start, end, expectedLoop) == fs + Pages(dev, crc, s, end, expectedLoop)
      invariant s < end ==> length == NUM_OF_SECTORS_PER_8MB
      invariant crashed <==> !Clean(fs)
      decreases end - s
    {
      if s + NUM_OF_SECTORS_PER_8MB >= end {
        length := end - s;
      }
      var e := s + length;
      while s < e
        invariant Pages(dev, crc, start, end, expectedLoop) == fs + Pages(dev, crc, s, end, expectedLoop)
        invariant e <= end && (e < end ==> length == NUM_OF_SECTORS_PER_8MB)
        invariant crashed <==> !Clean(fs)
        decreases e - s
      {
        var f := CheckOne(dev, crc, s, expectedLoop);
        PagesNext(fs, f, Pages(dev, crc, s + SECTORS_PER_PAGE, end, expectedLoop));
        fs := fs + [f];
        crashed := crashed || f.crashed;
        s := s + SECTORS_PER_PAGE;
      }
    }
    PagesFrom(fs, []);
  }

  method CheckOne(dev: Device, crc: Crc, s: nat, expectedLoop: Option<nat>) returns (f: Finding)
    ensures f == Finding(s, SECTORS_PER_PAGE, !HeaderOk(crc, dev(s), s, expectedLoop))
  {
    var h := dev(s);
    var crashed := !PageOk(crc, h, s);
    if expectedLoop.Some? && h.body.loop != expectedLoop.value {
      crashed := true;
    }
    f := Finding(s, SECTORS_PER_PAGE, crashed);
  }

  lemma PagesFrom(a: seq<Finding>, b: seq<Finding>)
    ensures [] + b == b && a + [] == a
  {
  }

  lemma PagesNext(fs: seq<Finding>, f: Finding, rest: seq<Finding>)
    ensures fs + ([f] + rest) == fs + [f] + rest
    ensures Clean(fs + [f]) <==> Clean(fs) && !f.crashed
  {
    if Clean(fs + [f]) {
      CleanParts(fs, [f]);
      assert [f][0] == f;
    }
  }

  // One finding a page, each with its own sector and size.
  lemma {:induction false} PagesAre(dev: Device, crc: Crc, s: nat, end: nat, expectedLoop: Option<nat>, k: nat)
    ensures var fs := Pages(dev, crc, s, end, expectedLoop);
            && (k < |fs| <==> s + 8 * k < end)
            && (k < |fs| ==> Says(fs[k], s + 8 * k, 8, Sound(crc, dev(s + 8 * k), s + 8 * k)
                                  && (expectedLoop.Some? ==> dev(s + 8 * k).body.loop == expectedLoop.value)))
    decreases k
  {
    if s < end && k > 0 {
      PagesAre(dev, crc, s + 8, end, expectedLoop, k - 1);
    }
  }

  ghost predicate PageAtOk(dev: Device, crc: Crc, x: nat, expectedLoop: Option<nat>) {
    HeaderOk(crc, dev(x), x, expectedLoop)
  }

  // Nothing is filed as a crash exactly when every page is right.
  lemma {:induction false} PagesCleanIff(dev: Device, crc: Crc, s: nat, end: nat, expectedLoop: Option<nat>)
    ensures Clean(Pages(dev, crc, s, end, expectedLoop)) <==>
            forall x: nat :: s <= x < end && OnPage(x - s) ==> PageAtOk(dev, crc, x, expectedLoop)
    decreases end - s
  {
    if s < end {
      var next := s + SECTORS_PER_PAGE;
      var f := Finding(s, SECTORS_PER_PAGE, !HeaderOk(crc, dev(s), s, expectedLoop));
      PagesCleanIff(dev, crc, next, end, expectedLoop);
      CleanFront(f, Pages(dev, crc, next, end, expectedLoop));
      if Clean(Pages(dev, crc, s, end, expectedLoop)) {
        forall x: nat | s <= x < end && OnPage(x - s) ensures PageAtOk(dev, crc, x, expectedLoop) {
          if x != s {
            NotFirst(s, x);
          }
        }
      }
      if forall x: nat :: s <= x < end && OnPage(x - s) ==> PageAtOk(dev, crc, x, expectedLoop) {
        assert OnPage(s - s) && PageAtOk(dev, crc, s, expectedLoop);
        forall x: nat | next <= x < end && OnPage(x - next) ensures PageAtOk(dev, crc, x, expectedLoop) {
          SumOnPage(x - next, SECTORS_PER_PAGE);
        }
      }
    }
  }

  lemma NotFirst(s: nat, x: nat)
    requires s < x && OnPage(x - s)
    ensures s + SECTORS_PER_PAGE <= x && OnPage(x - (s + SECTORS_PER_PAGE))
  {
  }

  lemma CleanFront(f: Finding, rest: seq<Finding>)
    ensures Clean([f] + rest) <==> !f.crashed && Clean(rest)
  {
    if Clean([f] + rest) {
      CleanParts([f], rest);
      assert [f][0] == f;
    }
  }

  // ----- After a power loss -----

  // The page belongs to a request that was complete.
  ghost predicate Rewritten(k: Cut, x: nat)
    requires k.Ordered()
  {
    exists n :: 0 <= n < k.First() && InPages(k.ps[n], x)
  }

  // The request and its page that a touched page belongs to.
  lemma TouchedPage(crc: Crc, c: Cfg, k: Cut, x: nat, n: nat) returns (p: nat)
    requires Plausible(crc, c, k) && OnPage(c.half) && n <= k.Last() && InPages(k.ps[n], x)
    requires c.first <= x && OnPage(x - c.first)
    ensures p < k.ps[n].sectors / SECTORS_PER_PAGE && x == k.ps[n].lsn + p * SECTORS_PER_PAGE
  {
    var r := k.ps[n];
    PairAt(k.ps, c, n / 2);
    var a := k.ps[2 * (n / 2)].lsn;
    SumOnPage(a - c.first, c.half);
    SumOnPage(x - c.first, r.lsn - c.first);
    p := PageIn(r.lsn, r.sectors, x);
  }

  lemma TouchedIsOk(dev: Device, crc: Crc, c: Cfg, k: Cut, x: nat, n: nat)
    requires Plausible(crc, c, k) && LeftBy(dev, crc, k) && OldOrNew(dev, crc, k) && OnPage(c.half)
    requires c.first <= x && OnPage(x - c.first) && n <= k.Last() && InPages(k.ps[n], x)
    requires Rewritten(k, x) || PageAtOk(k.was, crc, x, None)
    ensures PageAtOk(dev, crc, x, None)
  {
    var p := TouchedPage(crc, c, k, x, n);
    if n < k.First() {
      assert RequestStamped(dev, crc, k.ps[n], k.loop);
      assert Stamped(dev, crc, k.ps[n], p, k.loop);
    } else {
      if Rewritten(k, x) {
        var m :| 0 <= m < k.First() && InPages(k.ps[m], x);
        OneOwner(k.ps, c, c.first, c.End(), m, n, x);
      }
      assert OldPageOf(dev, k, n, p) || NewPage(dev, crc, k, n, p);
    }
  }

  lemma PageStaysOk(dev: Device, crc: Crc, c: Cfg, k: Cut, x: nat)
    requires Plausible(crc, c, k) && LeftBy(dev, crc, k) && OldOrNew(dev, crc, k) && OnPage(c.half)
    requires c.first <= x && OnPage(x - c.first)
    requires Rewritten(k, x) || PageAtOk(k.was, crc, x, None)
    ensures PageAtOk(dev, crc, x, None)
  {
    if Touched(k, x) {
      var n :| 0 <= n <= k.Last() && InPages(k.ps[n], x);
      TouchedIsOk(dev, crc, c, k, x, n);
    }
  }

  // The device on which no request on its way wrote anything.
  ghost function Unwritten(crc: Crc, k: Cut): Device
    requires k.Ordered()
  {
    Mixed(crc, k, (y: nat) => !Rewritten(k, y))
  }

  lemma UnwrittenIsLeft(crc: Crc, c: Cfg, k: Cut)
    requires Plausible(crc, c, k) && Older(c, k)
    ensures LeftInPages(Unwritten(crc, k), crc, k)
  {
    var keep := (y: nat) => !Rewritten(k, y);
    forall n: nat, p: nat | n < k.First() && p < k.ps[n].sectors / SECTORS_PER_PAGE ensures !KeptPage(k, keep, n, p) {
      assert InPages(k.ps[n], k.ps[n].lsn + p * SECTORS_PER_PAGE);
    }
    FirstNotRewritten(crc, c, k);
    MixedIsLeft(crc, c, k, keep);
  }

  lemma FirstNotRewritten(crc: Crc, c: Cfg, k: Cut)
    requires Plausible(crc, c, k)
    ensures !Rewritten(k, k.ps[k.First()].lsn)
  {
    PairAt(k.ps, c, k.i);
    assert InPages(k.ps[k.First()], k.ps[k.First()].lsn);
    if Rewritten(k, k.ps[k.First()].lsn) {
      var m :| 0 <= m < k.First() && InPages(k.ps[m], k.ps[k.First()].lsn);
      OneOwner(k.ps, c, c.first, c.End(), m, k.First(), k.ps[k.First()].lsn);
    }
  }

  ghost predicate ZonePagesClean(dev: Device, crc: Crc, c: Cfg, zone: nat) {
    Clean(Pages(dev, crc, Pattern.FirstSectorInZone(c.first, zone), Pattern.FirstSectorInZone(c.first, zone + 1), None))
  }

  ghost predicate ZoneNeverMarked(crc: Crc, c: Cfg, k: Cut, zone: nat)
    requires k.Ordered()
  {
    forall dev: Device :: LeftInPages(dev, crc, k) ==> ZonePagesClean(dev, crc, c, zone)
  }

  ghost predicate SoundBefore(crc: Crc, c: Cfg, k: Cut, zone: nat)
    requires k.Ordered()
  {
    forall x: nat :: InZone(c, zone, x) ==> Rewritten(k, x) || PageAtOk(k.was, crc, x, None)
  }

  ghost predicate InZone(c: Cfg, zone: nat, x: nat) {
    var z := Pattern.FirstSectorInZone(c.first, zone);
    z <= x < Pattern.FirstSectorInZone(c.first, zone + 1) && OnPage(x - z)
  }

  lemma ZonePage(c: Cfg, zone: nat, x: nat)
    requires InZone(c, zone, x)
    ensures c.first <= x && OnPage(x - c.first)
  {
    assert zone * ZONE == zone * (ZONE / SECTORS_PER_PAGE) * SECTORS_PER_PAGE;
  }

  // After a complete older pass every page of the first half is right.
  lemma OldPassIsSound(crc: Crc, c: Cfg, k: Cut, x: nat)
    requires Plausible(crc, c, k) && k.loop > 1 && c.first <= x < c.End() && OnPage(x - c.first)
    ensures PageAtOk(k.was, crc, x, None)
  {
    var i, p := OldPage(k.was, k.was, crc, k.rs, c, c.first, c.End(), x, x, k.loop - 1);
  }

  lemma OldPassSoundBefore(crc: Crc, c: Cfg, k: Cut, zone: nat, zones: nat)
    requires Plausible(crc, c, k) && k.loop > 1 && c.half == zones * ZONE && zone < zones
    ensures SoundBefore(crc, c, k, zone)
  {
    ZoneBounds(c, zone, zones);
    forall x: nat | InZone(c, zone, x) ensures PageAtOk(k.was, crc, x, None) {
      ZonePage(c, zone, x);
      OldPassIsSound(crc, c, k, x);
    }
  }

  // Whichever of the pages on their way were written, no page of a zone is marked
  // exactly when each was right before the pass, or belongs to a complete request.
  lemma ZoneNeverMarkedIff(crc: Crc, c: Cfg, k: Cut, zone: nat)
    requires Plausible(crc, c, k) && Older(c, k) && OnPage(c.half)
    ensures ZoneNeverMarked(crc, c, k, zone) <==> SoundBefore(crc, c, k, zone)
  {
    if SoundBefore(crc, c, k, zone) {
      forall dev: Device | LeftInPages(dev, crc, k) ensures ZonePagesClean(dev, crc, c, zone) {
        SoundStaysClean(dev, crc, c, k, zone);
      }
    }
    if ZoneNeverMarked(crc, c, k, zone) {
      UnwrittenIsLeft(crc, c, k);
      CleanWasSound(crc, c, k, zone);
    }
  }

  lemma CleanWasSound(crc: Crc, c: Cfg, k: Cut, zone: nat)
    requires k.Ordered() && ZonePagesClean(Unwritten(crc, k), crc, c, zone)
    ensures SoundBefore(crc, c, k, zone)
  {
    var dev := Unwritten(crc, k);
    PagesCleanIff(dev, crc, Pattern.FirstSectorInZone(c.first, zone), Pattern.FirstSectorInZone(c.first, zone + 1),
                  None);
    forall x: nat | InZone(c, zone, x) ensures Rewritten(k, x) || PageAtOk(k.was, crc, x, None) {
      assert PageAtOk(dev, crc, x, None);
    }
  }

  lemma SoundStaysClean(dev: Device, crc: Crc, c: Cfg, k: Cut, zone: nat)
    requires Plausible(crc, c, k) && LeftInPages(dev, crc, k) && OnPage(c.half) && SoundBefore(crc, c, k, zone)
    ensures ZonePagesClean(dev, crc, c, zone)
  {
    var (z, end) := (Pattern.FirstSectorInZone(c.first, zone), Pattern.FirstSectorInZone(c.first, zone + 1));
    PagesCleanIff(dev, crc, z, end, None);
    forall x: nat | z <= x < end && OnPage(x - z) ensures PageAtOk(dev, crc, x, None) {
      assert InZone(c, zone, x);
      ZonePage(c, zone, x);
      PageStaysOk(dev, crc, c, k, x);
    }
  }
}
