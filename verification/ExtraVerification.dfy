// Which parts of a zone the extra verification checks after a power loss, and with
// which loop count.
module ExtraVerification {
  import opened Types
  import opened Interleaving
  import opened ExtraCheck
  import opened Findings
  import Pattern

  const ZONE := Pattern.ZONE_SECTORS

  // Where power was lost: the predicted start and size of the last request, the loop
  // count of the pass, and -- with packed requests or the cache on -- the predicted
  // last request that may still be missing.
  datatype Loss = Loss(lsn: nat, sectors: nat, loop: nat, delayed: bool, last: nat)

  datatype Call = Call(start: nat, end: nat, loop: int)

  // A sector of the second half stands for the one it mirrors.
  function Adjusted(c: Cfg, lsn: nat): nat {
    if lsn >= c.End() then lsn - c.half else lsn
  }

  function CurrentZone(c: Cfg, l: Loss): nat
    requires c.first <= Adjusted(c, l.lsn)
  {
    Pattern.ZoneNum(c.first, Adjusted(c, l.lsn))
  }

  predicate Sensible(c: Cfg, l: Loss) {
    c.first <= Adjusted(c, l.lsn) && (l.delayed ==> c.first <= Adjusted(c, l.last))
  }

  predicate LastIn(c: Cfg, l: Loss, zone: nat)
    requires Sensible(c, l)
  {
    l.delayed && zone == Pattern.ZoneNum(c.first, Adjusted(c, l.last))
  }

  // Where the part with the older loop count begins; None when it is not checked.
  function OldStart(c: Cfg, zone: nat, l: Loss): Option<nat>
    requires Sensible(c, l)
  {
    if zone < CurrentZone(c, l) then None
    else if LastIn(c, l, zone) then Some(Adjusted(c, l.last) + MAX_REQUEST_SECTORS)
    else if zone > CurrentZone(c, l) then Some(Pattern.FirstSectorInZone(c.first, zone))
    else if l.delayed then None
    else Some(Adjusted(c, l.lsn) + l.sectors)
  }

  // The checks made in a zone, in order.
  function Calls(c: Cfg, zone: nat, l: Loss): seq<Call>
    requires Sensible(c, l)
  {
    var start := Pattern.FirstSectorInZone(c.first, zone);
    var end := Pattern.FirstSectorInZone(c.first, zone + 1);
    var front := if zone > CurrentZone(c, l) then []
                 else [Call(start, if zone == CurrentZone(c, l) then Adjusted(c, l.lsn) else end, l.loop)];
    match OldStart(c, zone, l)
    case None => front
    case Some(s) => front + [Call(s, end, l.loop - 1)]
  }

  function CheckCall(dev: Device, crc: Crc, c: Cfg, call: Call): Walk {
    Check(dev, crc, c, call.start, call.end, call.loop)
  }

  // Some of the calls are made, in order; each but the last of them ended.
  ghost predicate Made(dev: Device, crc: Crc, c: Cfg, calls: seq<Call>, made: seq<Walk>) {
    && |made| <= |calls|
    && forall k :: 0 <= k < |made| ==>
                     made[k] == CheckCall(dev, crc, c, calls[k]) && (k < |made| - 1 ==> made[k].ended)
  }

  // Makes them, up to the first whose walk does not end.
  method ExtraVerification(dev: Device, crc: Crc, c: Cfg, zone: nat, l: Loss) returns (made: seq<Walk>)
    requires Sensible(c, l)
    ensures Made(dev, crc, c, Calls(c, zone, l), made) && made != []
    ensures made[|made| - 1].ended ==> |made| == |Calls(c, zone, l)|
  {
    var adjusted := Adjusted(c, l.lsn);
    var current := Pattern.ZoneNum(c.first, adjusted);
    var start := Pattern.FirstSectorInZone(c.first, zone);
    var end := Pattern.FirstSectorInZone(c.first, zone + 1);
    made := [];
    if zone == current {
      made := OneMore(dev, crc, c, Calls(c, zone, l), made, start, adjusted, l.loop);
      if !made[0].ended {
        return;
      }
      if l.delayed {
        if zone == Pattern.ZoneNum(c.first, Adjusted(c, l.last)) {
          start := Adjusted(c, l.last) + MAX_REQUEST_SECTORS;
        } else {
          return;
        }
      } else {
        start := adjusted + l.sectors;
      }
      made := OneMore(dev, crc, c, Calls(c, zone, l), made, start, end, l.loop - 1);
    }
    if zone < current {
      made := OneMore(dev, crc, c, Calls(c, zone, l), made, start, end, l.loop);
    }
    if zone > current {
      if l.delayed && zone == Pattern.ZoneNum(c.first, Adjusted(c, l.last)) {
        start := Adjusted(c, l.last) + MAX_REQUEST_SECTORS;
      }
      made := OneMore(dev, crc, c, Calls(c, zone, l), made, start, end, l.loop - 1);
    }
  }

  // One check behind the earlier ones.
  method OneMore(dev: Device, crc: Crc, c: Cfg, ghost calls: seq<Call>, made: seq<Walk>,
                 start: nat, end: nat, loop: int)
    returns (made': seq<Walk>)
    requires Made(dev, crc, c, calls, made) && (made != [] ==> made[|made| - 1].ended)
    requires |made| < |calls| && calls[|made|] == Call(start, end, loop)
    ensures Made(dev, crc, c, calls, made') && |made'| == |made| + 1
  {
    var w := VerifyCustomizing(dev, crc, c, start, end, loop);
    made' := made + [w];
  }

  ghost predicate CallClean(dev: Device, crc: Crc, c: Cfg, call: Call) {
    CleanWalk(CheckCall(dev, crc, c, call))
  }

  // All checks made in a zone end and mark nothing.
  ghost predicate ZoneClean(dev: Device, crc: Crc, c: Cfg, zone: nat, l: Loss)
    requires Sensible(c, l)
  {
    forall k :: 0 <= k < |Calls(c, zone, l)| ==> CallClean(dev, crc, c, Calls(c, zone, l)[k])
  }

  // ----- What is covered -----

  // The parts of a zone, said of the sectors a and b that the loss and the predicted last
  // request adjust to: what the pass wrote before the loss, and what the pass before left
  // behind it.
  ghost predicate Part(c: Cfg, zone: nat, l: Loss, a: nat, b: nat, start: nat, end: nat, loop: int)
    requires c.first <= a && (l.delayed ==> c.first <= b)
  {
    var (first, next) := (c.first + zone * 0x20000, c.first + (zone + 1) * 0x20000);
    var current := (a - c.first) / 0x20000;
    var lastHere := l.delayed && zone == (b - c.first) / 0x20000;
    || (zone < current && (start, end, loop) == (first, next, l.loop))
    || (zone == current && (start, end, loop) == (first, a, l.loop))
    || (zone == current && !l.delayed && (start, end, loop) == (a + l.sectors, next, l.loop - 1))
    || (zone >= current && lastHere && (start, end, loop) == (b + 1024, next, l.loop - 1))
    || (zone > current && !lastHere && (start, end, loop) == (first, next, l.loop - 1))
  }

  // The first half stands for the second.
  function FirstHalf(c: Cfg, lsn: nat): nat {
    if lsn >= c.first + c.half then lsn - c.half else lsn
  }

  // Page x of a part is sound and carries its loop count, once the part has a chunk that
  // begins at or before it.
  ghost predicate Covered(dev: Device, crc: Crc, c: Cfg, zone: nat, l: Loss)
    requires c.first <= FirstHalf(c, l.lsn) && (l.delayed ==> c.first <= FirstHalf(c, l.last))
  {
    forall start: nat, end: nat, loop: nat, k: nat ::
      Part(c, zone, l, FirstHalf(c, l.lsn), FirstHalf(c, l.last), start, end, loop)
      && start < c.first + c.half && loop > 0 && FirstHit(dev, start, end, loop, k) ==>
        SoundFrom(dev, crc, dev(start + 8 * k).body.start, end, loop)
  }

  ghost predicate SoundFrom(dev: Device, crc: Crc, s: nat, end: nat, loop: nat) {
    forall j: nat :: s + 8 * j < end ==> SoundIn(dev, crc, s + 8 * j, loop)
  }

  lemma CleanIsSound(dev: Device, crc: Crc, c: Cfg, start: nat, end: nat, loop: nat, k: nat)
    requires CallClean(dev, crc, c, Call(start, end, loop)) && loop > 0 && start < c.first + c.half
    requires FirstHit(dev, start, end, loop, k)
    ensures SoundFrom(dev, crc, dev(start + 8 * k).body.start, end, loop)
  {
    FindIs(dev, start, end, loop);
    var s := dev(start + 8 * k).body.start;
    forall j: nat | s + 8 * j < end ensures SoundIn(dev, crc, s + 8 * j, loop) {
      var chunk := CleanScanIsRight(dev, crc, c.half, s, end, loop, j);
      SoundIff(crc, dev(s + 8 * j), s + 8 * j);
    }
  }

  // The calls are the parts, one each.
  lemma PartIsCall(c: Cfg, zone: nat, l: Loss, start: nat, end: nat, loop: int)
    requires Sensible(c, l)
    ensures Part(c, zone, l, FirstHalf(c, l.lsn), FirstHalf(c, l.last), start, end, loop) <==>
            Call(start, end, loop) in Calls(c, zone, l)
    ensures |Calls(c, zone, l)| <= 2 && (|Calls(c, zone, l)| == 2 ==> Calls(c, zone, l)[0] != Calls(c, zone, l)[1])
  {
  }

  // When all the checks of a zone end and mark nothing, every part of it is sound from
  // the first chunk found in it on.
  lemma CleanIsCovered(dev: Device, crc: Crc, c: Cfg, zone: nat, l: Loss)
    requires Sensible(c, l) && ZoneClean(dev, crc, c, zone, l)
    ensures Covered(dev, crc, c, zone, l)
  {
    forall start: nat, end: nat, loop: nat, k: nat |
      Part(c, zone, l, FirstHalf(c, l.lsn), FirstHalf(c, l.last), start, end, loop)
      && start < c.first + c.half && loop > 0 && FirstHit(dev, start, end, loop, k)
      ensures SoundFrom(dev, crc, dev(start + 8 * k).body.start, end, loop)
    {
      PartIsCall(c, zone, l, start, end, loop);
      CleanIsSound(dev, crc, c, start, end, loop, k);
    }
  }

  // So it is when nothing that was made is marked or does not end.
  lemma MadeIsCovered(dev: Device, crc: Crc, c: Cfg, zone: nat, l: Loss, made: seq<Walk>)
    requires Sensible(c, l) && Made(dev, crc, c, Calls(c, zone, l), made) && made != []
    requires made[|made| - 1].ended ==> |made| == |Calls(c, zone, l)|
    requires forall k :: 0 <= k < |made| ==> CleanWalk(made[k])
    ensures Covered(dev, crc, c, zone, l)
  {
    var calls := Calls(c, zone, l);
    forall k | 0 <= k < |calls| ensures CallClean(dev, crc, c, calls[k]) {
      assert CleanWalk(made[k]) && made[k] == CheckCall(dev, crc, c, calls[k]);
    }
    CleanIsCovered(dev, crc, c, zone, l);
  }

  // The device after a power loss in a healthy run: the pass of loop l.loop is complete
  // up to the sector where power was lost, the pass before it -- if there was one -- is
  // untouched from `behind` on, and between the two anything may be found.
  ghost predicate Healthy(dev: Device, crc: Crc, c: Cfg, part: seq<Request>, was: Device, rs: seq<Request>,
                          behind: nat, l: Loss)
  {
    && TilesIn(part, c, c.first, Adjusted(c, l.lsn)) && StampedAll(dev, crc, c, part, l.loop)
    && TilesIn(rs, c, c.first, c.End()) && (l.loop > 1 ==> StampedAll(was, crc, c, rs, l.loop - 1))
    && SameBehind(dev, was, c, behind)
  }

  lemma ZoneBounds(c: Cfg, zone: nat, zones: nat)
    requires c.half == zones * ZONE && zone < zones
    ensures Pattern.FirstSectorInZone(c.first, zone + 1) <= c.End()
    ensures OnPage(Pattern.FirstSectorInZone(c.first, zone) - c.first)
  {
    assert zones * ZONE == (zone + 1) * ZONE + (zones - zone - 1) * ZONE;
    assert zone * ZONE == zone * (ZONE / SECTORS_PER_PAGE) * SECTORS_PER_PAGE;
  }

  lemma EarlierZoneEnds(first: nat, zone: nat, x: nat)
    requires first <= x && zone < Pattern.ZoneNum(first, x)
    ensures Pattern.FirstSectorInZone(first, zone + 1) <= x
  {
    var z := Pattern.ZoneNum(first, x);
    assert x - first >= z * ZONE;
  }

  lemma FrontClean(dev: Device, crc: Crc, c: Cfg, part: seq<Request>, was: Device, rs: seq<Request>, behind: nat,
                   zone: nat, zones: nat, l: Loss)
    requires Sensible(c, l) && Healthy(dev, crc, c, part, was, rs, behind, l)
    requires c.half == zones * ZONE && zone < zones && zone <= CurrentZone(c, l)
    ensures CallClean(dev, crc, c, Calls(c, zone, l)[0])
  {
    ZoneBounds(c, zone, zones);
    if zone < CurrentZone(c, l) {
      EarlierZoneEnds(c.first, zone, Adjusted(c, l.lsn));
    }
    StampedCheck(dev, crc, part, c, c.first, Adjusted(c, l.lsn), Calls(c, zone, l)[0].start,
        Calls(c, zone, l)[0].end, l.loop);
  }

  lemma BackClean(dev: Device, crc: Crc, c: Cfg, part: seq<Request>, was: Device, rs: seq<Request>, behind: nat,
                  zone: nat, zones: nat, l: Loss, start: nat)
    requires Sensible(c, l) && Healthy(dev, crc, c, part, was, rs, behind, l)
    requires c.half == zones * ZONE && zone < zones && c.first <= start && OnPage(start - c.first)
    requires l.loop > 1 ==> NoneBefore(dev, start, behind, l.loop - 1)
    ensures CallClean(dev, crc, c, Call(start, Pattern.FirstSectorInZone(c.first, zone + 1), l.loop - 1))
  {
    ZoneBounds(c, zone, zones);
    if l.loop > 1 {
      CheckBehindIsClean(dev, was, crc, rs, c, c.first, c.End(), behind, start,
                         Pattern.FirstSectorInZone(c.first, zone + 1), l.loop - 1);
    }
  }

  // The check of the older loop count, where there is one, is clean.
  ghost predicate OldClean(dev: Device, crc: Crc, c: Cfg, zone: nat, l: Loss)
    requires Sensible(c, l)
  {
    var s := OldStart(c, zone, l);
    s.Some? ==> CallClean(dev, crc, c, Call(s.value, Pattern.FirstSectorInZone(c.first, zone + 1), l.loop - 1))
  }

  // The checks of the current loop count always are, so that one decides.
  lemma ZoneCleanIff(dev: Device, crc: Crc, c: Cfg, part: seq<Request>, was: Device, rs: seq<Request>, behind: nat,
                     zone: nat, zones: nat, l: Loss)
    requires Sensible(c, l) && Healthy(dev, crc, c, part, was, rs, behind, l)
    requires c.half == zones * ZONE && zone < zones
    ensures ZoneClean(dev, crc, c, zone, l) <==> OldClean(dev, crc, c, zone, l)
  {
    var calls := Calls(c, zone, l);
    if zone <= CurrentZone(c, l) {
      FrontClean(dev, crc, c, part, was, rs, behind, zone, zones, l);
    }
    var (s, end) := (OldStart(c, zone, l), Pattern.FirstSectorInZone(c.first, zone + 1));
    assert s.Some? ==> calls[|calls| - 1] == Call(s.value, end, l.loop - 1);
  }

  // After a power loss, in every zone of the first half all the checks of the extra
  // verification end and mark nothing, as long as no page with the older loop count
  // lies between where the check of that count begins and `behind`.
  lemma ExtraIsClean(dev: Device, crc: Crc, c: Cfg, part: seq<Request>, was: Device, rs: seq<Request>, behind: nat,
                     zone: nat, zones: nat, l: Loss)
    requires Sensible(c, l) && Healthy(dev, crc, c, part, was, rs, behind, l)
    requires c.half == zones * ZONE && zone < zones
    requires var s := OldStart(c, zone, l);
             s.Some? ==> c.first <= s.value && OnPage(s.value - c.first)
                         && (l.loop > 1 ==> NoneBefore(dev, s.value, behind, l.loop - 1))
    ensures ZoneClean(dev, crc, c, zone, l)
  {
    var s := OldStart(c, zone, l);
    if s.Some? {
      BackClean(dev, crc, c, part, was, rs, behind, zone, zones, l, s.value);
    }
    ZoneCleanIff(dev, crc, c, part, was, rs, behind, zone, zones, l);
  }
}
