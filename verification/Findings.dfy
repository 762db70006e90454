// What the header check finds and files, said of each page by itself.
module Findings {
  import opened Types
  import opened Interleaving
  import opened ExtraCheck

  // ----- Pages -----

  // A blank page, or one written to its own sector whose checksum is that of its words.
  ghost predicate Sound(crc: Crc, h: Header, x: nat) {
    || (h.magic == 0 && h.body.lsn == 0 && h.body.loop == 0 && h.crc == 0)
    || ((h.magic == 0xFFEF0815 || h.magic == 0xFFEF1128) && h.body.lsn == x && h.crc == crc(h.body))
  }

  lemma SoundIff(crc: Crc, h: Header, x: nat)
    ensures PageOk(crc, h, x) <==> Sound(crc, h, x)
  {
  }

  ghost predicate SoundIn(dev: Device, crc: Crc, x: nat, loop: nat) {
    Sound(crc, dev(x), x) && dev(x).body.loop == loop
  }

  // Page k of the chunk at s.
  ghost predicate InChunk(dev: Device, crc: Crc, s: nat, k: nat, loop: nat) {
    SoundIn(dev, crc, s + 8 * k, loop) && dev(s + 8 * k).body.pageIndex == k
  }

  // What a pass writes into page k of its m-th request.
  lemma PassWrites(dev: Device, w: Writer, rs: seq<Request>, c: Cfg, lo: nat, hi: nat, m: nat, k: nat)
    requires TilesIn(rs, c, lo, hi) && m < |rs| && k < rs[m].sectors / 8
    ensures var (r, h) := (rs[m], WriteAll(dev, w, rs)(rs[m].lsn + 8 * k));
            && h.magic == (if w.commit(r) then 0xFFEF1128 else 0xFFEF0815) && h.crc == w.crc(h.body)
            && h.body == Body(r.lsn + 8 * k, w.boot, w.loop, r.num, r.lsn, r.sectors / 8, k, 0)
  {
    PageWritten(dev, w, rs, c, lo, hi, m, k);
  }

  // ----- The header that tells where a chunk starts -----

  function BootAt(dev: Device, s: nat, k: nat): nat {
    dev(s + 8 * k).body.boot
  }

  ghost predicate ZeroBoot(dev: Device, s: nat, j: nat, k: nat) {
    exists m: nat :: j <= m < k && BootAt(dev, s, m) == 0
  }

  ghost predicate Allows(dev: Device, s: nat, j: nat, k: nat) {
    BootAt(dev, s, j) >= BootAt(dev, s, k) || ZeroBoot(dev, s, j, k)
  }

  // Page k counts when none before it, since the last page without a boot count, was
  // written in an earlier boot.
  ghost predicate Counts(dev: Device, s: nat, k: nat) {
    forall j: nat :: j < k ==> Allows(dev, s, j, k)
  }

  ghost predicate Begins(h: Header, loop: nat) {
    (h.magic == 0xFFEF0815 || h.magic == 0xFFEF1128) && h.body.loop == loop && h.body.pageIndex == 0
  }

  // The first page from s on that counts and is the first of a chunk with this loop count.
  ghost predicate FirstHit(dev: Device, s: nat, end: nat, loop: nat, k: nat) {
    && s + 8 * k < end && Hit(dev, s, loop, k)
    && forall j: nat :: j < k ==> !Hit(dev, s, loop, j)
  }

  ghost predicate Hit(dev: Device, s: nat, loop: nat, k: nat) {
    Counts(dev, s, k) && Begins(dev(s + 8 * k), loop)
  }

  // ... when the pages before s left this boot count.
  ghost predicate CountsFrom(dev: Device, s: nat, boot: nat, k: nat) {
    Counts(dev, s, k) && (boot == 0 || boot >= BootAt(dev, s, k) || ZeroBoot(dev, s, 0, k))
  }

  function NextBoot(dev: Device, s: nat, boot: nat): nat {
    var h := dev(s).body.boot;
    if boot == 0 || boot >= h then h else boot
  }

  lemma ZeroBootNext(dev: Device, s: nat, j: nat, k: nat)
    requires 0 < k
    ensures 0 < j ==> (ZeroBoot(dev, s, j, k) <==> ZeroBoot(dev, s + 8, j - 1, k - 1))
    ensures ZeroBoot(dev, s, 0, k) <==> BootAt(dev, s, 0) == 0 || ZeroBoot(dev, s + 8, 0, k - 1)
  {
    assert forall m: nat :: m > 0 ==> BootAt(dev, s, m) == BootAt(dev, s + 8, m - 1);
    if ZeroBoot(dev, s, j, k) {
      var m: nat :| j <= m < k && BootAt(dev, s, m) == 0;
      if m > 0 {
        assert BootAt(dev, s + 8, m - 1) == 0;
      }
    }
    if ZeroBoot(dev, s, 0, k) {
      var m: nat :| 0 <= m < k && BootAt(dev, s, m) == 0;
      if m > 0 {
        assert BootAt(dev, s + 8, m - 1) == 0;
      }
    }
    if 0 < j && ZeroBoot(dev, s + 8, j - 1, k - 1) {
      var m: nat :| j - 1 <= m < k - 1 && BootAt(dev, s + 8, m) == 0;
      assert BootAt(dev, s, m + 1) == 0;
    }
    if ZeroBoot(dev, s + 8, 0, k - 1) {
      var m: nat :| 0 <= m < k - 1 && BootAt(dev, s + 8, m) == 0;
      assert BootAt(dev, s, m + 1) == 0;
    }
  }

  lemma AllowsNext(dev: Device, s: nat, j: nat, k: nat)
    requires j < k
    ensures Allows(dev, s, j + 1, k + 1) <==> Allows(dev, s + 8, j, k)
  {
    assert BootAt(dev, s, k + 1) == BootAt(dev, s + 8, k) && BootAt(dev, s, j + 1) == BootAt(dev, s + 8, j);
    ZeroBootNext(dev, s, j + 1, k + 1);
  }

  lemma CountsNext(dev: Device, s: nat, boot: nat, k: nat)
    ensures CountsFrom(dev, s, boot, k + 1) <==> CountsFrom(dev, s + 8, NextBoot(dev, s, boot), k)
  {
    var (next, n) := (s + 8, k + 1);
    assert BootAt(dev, s, n) == BootAt(dev, next, k);
    ZeroBootNext(dev, s, 0, n);
    if Counts(dev, s, n) {
      assert Allows(dev, s, 0, n);
      forall j: nat | j < k ensures Allows(dev, next, j, k) {
        assert Allows(dev, s, j + 1, n);
        AllowsNext(dev, s, j, k);
      }
    }
    if CountsFrom(dev, next, NextBoot(dev, s, boot), k) {
      forall j: nat | j < n ensures Allows(dev, s, j, n) {
        if j > 0 {
          assert Allows(dev, next, j - 1, k);
          AllowsNext(dev, s, j - 1, k);
        }
      }
    }
  }

  ghost predicate HitFrom(dev: Device, s: nat, boot: nat, loop: nat, k: nat) {
    CountsFrom(dev, s, boot, k) && Begins(dev(s + 8 * k), loop)
  }

  // The search stops at the first of these, and gives what that page says.
  ghost predicate StopsAt(dev: Device, s: nat, end: nat, loop: nat, boot: nat, k: nat, found: Option<nat>) {
    match found
    case None => forall j: nat :: s + 8 * j < end ==> !HitFrom(dev, s, boot, loop, j)
    case Some(v) =>
      && s + 8 * k < end && HitFrom(dev, s, boot, loop, k) && v == dev(s + 8 * k).body.start
      && forall j: nat :: j < k ==> !HitFrom(dev, s, boot, loop, j)
  }

  lemma HitNext(dev: Device, s: nat, boot: nat, loop: nat, k: nat)
    ensures HitFrom(dev, s, boot, loop, k + 1) <==> HitFrom(dev, s + 8, NextBoot(dev, s, boot), loop, k)
  {
    CountsNext(dev, s, boot, k);
  }

  lemma StopsNext(dev: Device, s: nat, end: nat, loop: nat, boot: nat, k: nat, found: Option<nat>)
    requires StopsAt(dev, s + 8, end, loop, NextBoot(dev, s, boot), k, found)
    requires !HitFrom(dev, s, boot, loop, 0)
    ensures StopsAt(dev, s, end, loop, boot, k + 1, found)
  {
    HitNext(dev, s, boot, loop, k);
    forall j: nat | j > 0 && (found == None ==> s + 8 * j < end) && (found != None ==> j < k + 1)
      ensures !HitFrom(dev, s, boot, loop, j)
    {
      HitNext(dev, s, boot, loop, j - 1);
    }
  }

  lemma {:induction false} FindStops(dev: Device, s: nat, end: nat, loop: nat, boot: nat) returns (k: nat)
    ensures StopsAt(dev, s, end, loop, boot, k, Find(dev, s, end, loop, boot))
    decreases end - s
  {
    k := 0;
    if s < end {
      assert CountsFrom(dev, s, boot, 0) <==> boot == 0 || boot >= BootAt(dev, s, 0);
      if !HitFrom(dev, s, boot, loop, 0) {
        k := FindStops(dev, s + 8, end, loop, NextBoot(dev, s, boot));
        StopsNext(dev, s, end, loop, boot, k, Find(dev, s + 8, end, loop, NextBoot(dev, s, boot)));
        k := k + 1;
      }
    }
  }

  // The search gives the start that the first hit names, and nothing when there is none.
  lemma FindIs(dev: Device, s: nat, end: nat, loop: nat)
    ensures Find(dev, s, end, loop, 0) == None <==> forall k: nat :: s + 8 * k < end ==> !Hit(dev, s, loop, k)
    ensures forall k: nat ::
              FirstHit(dev, s, end, loop, k) ==> Find(dev, s, end, loop, 0) == Some(dev(s + 8 * k).body.start)
  {
    var k := FindStops(dev, s, end, loop, 0);
    forall j: nat ensures HitFrom(dev, s, 0, loop, j) <==> Hit(dev, s, loop, j) {
    }
    forall j: nat | FirstHit(dev, s, end, loop, j)
      ensures Find(dev, s, end, loop, 0) == Some(dev(s + 8 * j).body.start)
    {
      assert j == k;
    }
  }

  // ----- What a walk files -----

  ghost predicate Says(f: Finding, lsn: nat, sectors: nat, right: bool) {
    f.lsn == lsn && f.sectors == sectors && (f.crashed <==> !right)
  }

  function PagesOf(dev: Device, s: nat): nat {
    dev(s).body.pageNum
  }

  // A chunk of no page, or of more than the 128 that are read, is where a walk gets stuck.
  predicate Whole(dev: Device, s: nat) {
    1 <= PagesOf(dev, s) <= 128
  }

  function Seen(dev: Device, s: nat): nat {
    if PagesOf(dev, s) <= 128 then PagesOf(dev, s) else 128
  }

  ghost predicate PageFiled(dev: Device, crc: Crc, s: nat, k: nat, loop: nat, fs: seq<Finding>, at: nat) {
    at + 1 + k < |fs| && Says(fs[at + 1 + k], s + 8 * k, 8 * PagesOf(dev, s), InChunk(dev, crc, s, k, loop))
  }

  // From finding `at` on: the mirror page of the chunk at s by itself, then the pages of
  // the chunk, each with its own sector and the size of the chunk.
  ghost predicate ChunkFiled(dev: Device, crc: Crc, half: nat, s: nat, loop: nat, fs: seq<Finding>, at: nat) {
    && at < |fs| && Says(fs[at], s + half, 8, SoundIn(dev, crc, s + half, loop))
    && forall k: nat :: k < Seen(dev, s) ==> PageFiled(dev, crc, s, k, loop, fs, at)
  }

  ghost predicate WalkedTo(dev: Device, crc: Crc, half: nat, end: nat, loop: nat, w: Walk,
                           starts: seq<nat>, at: seq<nat>, m: nat)
    requires m < |starts| && |at| == |starts| + 1
  {
    var s := starts[m];
    && s < end && at[m + 1] == at[m] + 1 + Seen(dev, s) && ChunkFiled(dev, crc, half, s, loop, w.filed, at[m])
    && if m + 1 < |starts| then Whole(dev, s) && starts[m + 1] == s + 8 * PagesOf(dev, s)
       else w.ended == Whole(dev, s) && (w.ended ==> end <= s + 8 * PagesOf(dev, s))
  }

  // The chunks lie one behind the other from s on, and are filed one after another.
  ghost predicate Walked(dev: Device, crc: Crc, half: nat, s: nat, end: nat, loop: nat, w: Walk,
                         starts: seq<nat>, at: seq<nat>)
  {
    && |at| == |starts| + 1 && at[0] == 0 && at[|starts|] == |w.filed|
    && (if starts == [] then s >= end && w.ended else starts[0] == s)
    && forall m: nat :: m < |starts| ==> WalkedTo(dev, crc, half, end, loop, w, starts, at, m)
  }

  lemma {:induction false} PagesFiled(dev: Device, crc: Crc, s: nat, n: nat, loop: nat, k: nat)
    requires k < n
    ensures Says(CheckPages(dev, crc, s, PagesOf(dev, s), n, loop)[k], s + 8 * k, 8 * PagesOf(dev, s),
                 InChunk(dev, crc, s, k, loop))
  {
    if k < n - 1 {
      PagesFiled(dev, crc, s, n - 1, loop, k);
    }
  }

  lemma ChunkIsFiled(dev: Device, crc: Crc, half: nat, s: nat, loop: nat, rest: seq<Finding>)
    ensures var fs := [CheckMirror(dev, crc, s + half, loop)] +
                      CheckPages(dev, crc, s, PagesOf(dev, s), Seen(dev, s), loop);
            ChunkFiled(dev, crc, half, s, loop, fs + rest, 0) && |fs| == 1 + Seen(dev, s)
  {
    var pages := CheckPages(dev, crc, s, PagesOf(dev, s), Seen(dev, s), loop);
    var fs := [CheckMirror(dev, crc, s + half, loop)] + pages;
    forall k: nat | k < Seen(dev, s) ensures PageFiled(dev, crc, s, k, loop, fs + rest, 0) {
      PagesFiled(dev, crc, s, Seen(dev, s), loop, k);
      assert (fs + rest)[1 + k] == pages[k];
    }
  }

  lemma FiledLater(dev: Device, crc: Crc, half: nat, s: nat, loop: nat, front: seq<Finding>, fs: seq<Finding>, at: nat)
    requires ChunkFiled(dev, crc, half, s, loop, fs, at)
    ensures ChunkFiled(dev, crc, half, s, loop, front + fs, |front| + at)
  {
    var (all, later) := (front + fs, |front| + at);
    forall k: nat | k < Seen(dev, s) ensures PageFiled(dev, crc, s, k, loop, all, later) {
      assert PageFiled(dev, crc, s, k, loop, fs, at);
      assert all[later + 1 + k] == fs[at + 1 + k];
    }
  }

  lemma WalkedMore(dev: Device, crc: Crc, half: nat, s: nat, end: nat, loop: nat, front: seq<Finding>, w: Walk,
                   starts: seq<nat>, at: seq<nat>) returns (starts': seq<nat>, at': seq<nat>)
    requires s < end && Whole(dev, s) && |front| == 1 + Seen(dev, s)
    requires ChunkFiled(dev, crc, half, s, loop, front + w.filed, 0)
    requires Walked(dev, crc, half, s + 8 * PagesOf(dev, s), end, loop, w, starts, at)
    ensures Walked(dev, crc, half, s, end, loop, Walk(front + w.filed, w.ended), starts', at')
  {
    var all := Walk(front + w.filed, w.ended);
    starts', at' := [s] + starts, [0] + seq(|at|, i requires 0 <= i < |at| => |front| + at[i]);
    forall m: nat | m < |starts'| ensures WalkedTo(dev, crc, half, end, loop, all, starts', at', m) {
      if m > 0 {
        assert WalkedTo(dev, crc, half, end, loop, w, starts, at, m - 1);
        FiledLater(dev, crc, half, starts[m - 1], loop, front, w.filed, at[m - 1]);
      }
    }
  }

  lemma WalkStuck(dev: Device, crc: Crc, half: nat, s: nat, end: nat, loop: nat)
    returns (starts: seq<nat>, at: seq<nat>)
    requires s < end && !Whole(dev, s)
    ensures Walked(dev, crc, half, s, end, loop, Scan(dev, crc, half, s, end, loop), starts, at)
  {
    ScanStops(dev, crc, half, s, end, loop);
    ChunkIsFiled(dev, crc, half, s, loop, []);
    var w := Scan(dev, crc, half, s, end, loop);
    assert w.filed + [] == w.filed;
    starts, at := [s], [0, |w.filed|];
    assert WalkedTo(dev, crc, half, end, loop, w, starts, at, 0);
  }

  lemma {:induction false} ScanWalked(dev: Device, crc: Crc, half: nat, s: nat, end: nat, loop: nat)
    returns (starts: seq<nat>, at: seq<nat>)
    ensures Walked(dev, crc, half, s, end, loop, Scan(dev, crc, half, s, end, loop), starts, at)
    decreases end - s
  {
    if s >= end {
      starts, at := [], [0];
    } else if !Whole(dev, s) {
      starts, at := WalkStuck(dev, crc, half, s, end, loop);
    } else {
      var next := s + 8 * PagesOf(dev, s);
      var rest := Scan(dev, crc, half, next, end, loop);
      starts, at := ScanWalked(dev, crc, half, next, end, loop);
      ScanNext(dev, crc, half, s, end, loop);
      ChunkIsFiled(dev, crc, half, s, loop, rest.filed);
      starts, at := WalkedMore(dev, crc, half, s, end, loop, CheckChunk(dev, crc, half, s, loop), rest, starts, at);
    }
  }

  ghost predicate WalkedFrom(dev: Device, crc: Crc, half: nat, s: nat, end: nat, loop: nat, w: Walk) {
    exists starts: seq<nat>, at: seq<nat> :: Walked(dev, crc, half, s, end, loop, w, starts, at)
  }

  ghost predicate NoHit(dev: Device, s: nat, end: nat, loop: nat) {
    forall k: nat :: s + 8 * k < end ==> !Hit(dev, s, loop, k)
  }

  // What the whole check of a part gives: nothing unless there is something to check
  // and a first hit, and then the walk from the chunk start which that names.
  lemma CheckWalked(dev: Device, crc: Crc, c: Cfg, start: nat, end: nat, loop: int)
    ensures var w := Check(dev, crc, c, start, end, loop);
            if loop <= 0 || c.first + c.half <= start || NoHit(dev, start, end, loop) then w == Walk([], true)
            else exists k: nat :: FirstHit(dev, start, end, loop, k)
                                  && WalkedFrom(dev, crc, c.half, dev(start + 8 * k).body.start, end, loop, w)
  {
    if loop > 0 {
      FindIs(dev, start, end, loop);
      if start < c.first + c.half && !NoHit(dev, start, end, loop) {
        var k := HitFirst(dev, start, end, loop);
        var starts, at := ScanWalked(dev, crc, c.half, dev(start + 8 * k).body.start, end, loop);
      }
    }
  }

  lemma HitFirst(dev: Device, s: nat, end: nat, loop: nat) returns (k: nat)
    requires !NoHit(dev, s, end, loop)
    ensures FirstHit(dev, s, end, loop, k)
  {
    k :| s + 8 * k < end && Hit(dev, s, loop, k);
    k := LeastHit(dev, s, loop, k);
  }

  lemma {:induction false} LeastHit(dev: Device, s: nat, loop: nat, n: nat) returns (k: nat)
    requires Hit(dev, s, loop, n)
    ensures k <= n && Hit(dev, s, loop, k) && forall j: nat :: j < k ==> !Hit(dev, s, loop, j)
  {
    if j: nat :| j < n && Hit(dev, s, loop, j) {
      k := LeastHit(dev, s, loop, j);
    } else {
      k := n;
    }
  }
}
