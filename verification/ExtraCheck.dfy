// The extra check of the interleaving tests: it walks the chunks of a zone and their
// mirror pages and marks every page whose header is not what a pass with the
// expected loop count left there.
module ExtraCheck {
  import opened Types
  import opened Interleaving

  const MAGIC_NUMBER := 0xFFEF0815
  const MAGIC_NUMBER_FLUSH := 0xFFEF1128
  const CHUNK_BUFFER_PAGES := 128

  // The checksummed words of a page header.
  datatype Body = Body(lsn: nat, boot: nat, loop: nat, seqNum: nat, start: nat, pageNum: nat, pageIndex: nat, next: nat)
  datatype Header = Header(magic: nat, body: Body, crc: nat)

  type Crc = Body -> nat

  // The header found in the page that starts at a sector.
  type Device = nat -> Header

  // ----- What a pass writes -----

  datatype Writer = Writer(crc: Crc, loop: nat, boot: nat, commit: Request -> bool)

  function MakeHeader(w: Writer, r: Request, index: nat): Header {
    var body := Body(r.lsn + index * SECTORS_PER_PAGE, w.boot, w.loop, r.num, r.lsn, r.sectors / SECTORS_PER_PAGE,
        index, 0);
    Header(if w.commit(r) then MAGIC_NUMBER_FLUSH else MAGIC_NUMBER, body, w.crc(body))
  }

  predicate InPages(r: Request, x: nat) {
    r.lsn <= x < r.lsn + r.sectors / SECTORS_PER_PAGE * SECTORS_PER_PAGE
  }

  function Written(dev: Device, w: Writer, r: Request): Device {
    (x: nat) => if InPages(r, x) then MakeHeader(w, r, (x - r.lsn) / SECTORS_PER_PAGE) else dev(x)
  }

  function WriteAll(dev: Device, w: Writer, rs: seq<Request>): Device {
    if rs == [] then dev else Written(WriteAll(dev, w, rs[..|rs| - 1]), w, rs[|rs| - 1])
  }

  lemma {:induction false} LastWriter(dev: Device, w: Writer, rs: seq<Request>, j: nat, x: nat)
    requires j < |rs| && InPages(rs[j], x)
    requires forall m :: j < m < |rs| ==> !InPages(rs[m], x)
    ensures WriteAll(dev, w, rs)(x) == MakeHeader(w, rs[j], (x - rs[j].lsn) / SECTORS_PER_PAGE)
  {
    if j < |rs| - 1 {
      LastWriter(dev, w, rs[..|rs| - 1], j, x);
    }
  }

  lemma {:induction false} Untouched(dev: Device, w: Writer, rs: seq<Request>, x: nat)
    requires forall m :: 0 <= m < |rs| ==> !InPages(rs[m], x)
    ensures WriteAll(dev, w, rs)(x) == dev(x)
  {
    if rs != [] {
      Untouched(dev, w, rs[..|rs| - 1], x);
    }
  }

  // ----- The check -----

  predicate PageOk(crc: Crc, h: Header, lsn: nat) {
    if h.magic == 0 then h.body.lsn == 0 && h.body.loop == 0 && h.crc == 0
    else (h.magic == MAGIC_NUMBER || h.magic == MAGIC_NUMBER_FLUSH) && h.body.lsn == lsn && h.crc == crc(h.body)
  }

  // What is filed about a page: the mirror page by itself, a chunk page with the
  // chunk's size.
  datatype Finding = Finding(lsn: nat, sectors: nat, crashed: bool)

  function CheckMirror(dev: Device, crc: Crc, lsn: nat, loop: nat): Finding {
    Finding(lsn, SECTORS_PER_PAGE, !(PageOk(crc, dev(lsn), lsn) && dev(lsn).body.loop == loop))
  }

  function CheckPage(dev: Device, crc: Crc, lsn: nat, pages: nat, index: nat, loop: nat): Finding {
    var h := dev(lsn);
    Finding(lsn, pages * SECTORS_PER_PAGE, !(PageOk(crc, h, lsn) && h.body.loop == loop && h.body.pageIndex == index))
  }

  // The first n pages of the chunk at s.
  function CheckPages(dev: Device, crc: Crc, s: nat, pages: nat, n: nat, loop: nat): (fs: seq<Finding>)
    ensures |fs| == n
  {
    if n == 0 then []
    else
      CheckPages(dev, crc, s, pages, n - 1, loop) +
      [CheckPage(dev, crc, s + (n - 1) * SECTORS_PER_PAGE, pages, n - 1, loop)]
  }

  function CheckChunk(dev: Device, crc: Crc, half: nat, s: nat, loop: nat): seq<Finding> {
    var pages := dev(s).body.pageNum;
    [CheckMirror(dev, crc, s + half, loop)] + CheckPages(dev, crc, s, pages, pages, loop)
  }

  // What a walk files, and whether it ends.
  datatype Walk = Walk(filed: seq<Finding>, ended: bool)

  // The walk from s.  It does not end at a chunk that claims no page, whose mirror page
  // it files over and over; and where a chunk claims more pages than are read, it is
  // followed only as far as those.
  function Scan(dev: Device, crc: Crc, half: nat, s: nat, end: nat, loop: nat): Walk
    decreases end - s
  {
    if s >= end then Walk([], true)
    else
      var pages := dev(s).body.pageNum;
      if pages == 0 then Walk([CheckMirror(dev, crc, s + half, loop)], false)
      else if pages > CHUNK_BUFFER_PAGES then
        Walk([CheckMirror(dev, crc, s + half, loop)] + CheckPages(dev, crc, s, pages, CHUNK_BUFFER_PAGES, loop), false)
      else
        var rest := Scan(dev, crc, half, s + pages * SECTORS_PER_PAGE, end, loop);
        Walk(CheckChunk(dev, crc, half, s, loop) + rest.filed, rest.ended)
  }

  ghost predicate Clean(fs: seq<Finding>) {
    forall i :: 0 <= i < |fs| ==> !fs[i].crashed
  }

  // It ends and marks nothing.
  ghost predicate CleanWalk(w: Walk) {
    w.ended && Clean(w.filed)
  }

  ghost predicate CleanScan(dev: Device, crc: Crc, half: nat, s: nat, end: nat, loop: nat) {
    CleanWalk(Scan(dev, crc, half, s, end, loop))
  }

  // The page at lsn is page `index` of request r, as a pass with this loop count wrote it.
  ghost predicate Stamped(dev: Device, crc: Crc, r: Request, index: nat, loop: nat) {
    var (h, lsn) := (dev(r.lsn + index * SECTORS_PER_PAGE), r.lsn + index * SECTORS_PER_PAGE);
    && (h.magic == MAGIC_NUMBER || h.magic == MAGIC_NUMBER_FLUSH)
    && h.body.lsn == lsn && h.crc == crc(h.body) && h.body.loop == loop
    && h.body.start == r.lsn && h.body.pageNum == r.sectors / SECTORS_PER_PAGE && h.body.pageIndex == index
  }

  ghost predicate StampedChunk(dev: Device, crc: Crc, c: Cfg, r: Request, loop: nat) {
    && (forall k: nat :: k < r.sectors / SECTORS_PER_PAGE ==> Stamped(dev, crc, r, k, loop))
    && Stamped(dev, crc, Request(r.lsn + c.half, SECTORS_PER_PAGE, r.num + 1), 0, loop)
  }

  // Every large request of rs and its mirror page are on the device.
  ghost predicate StampedAll(dev: Device, crc: Crc, c: Cfg, rs: seq<Request>, loop: nat) {
    forall i: nat :: 2 * i < |rs| ==> StampedChunk(dev, crc, c, rs[2 * i], loop)
  }

  predicate ChunkSized(n: nat) {
    n % SECTORS_PER_PAGE == 0 && 0 < n <= CHUNK_BUFFER_PAGES * SECTORS_PER_PAGE
  }

  ghost predicate AllChunkSized(rs: seq<Request>) {
    forall i: nat :: 2 * i < |rs| ==> ChunkSized(rs[2 * i].sectors)
  }

  lemma {:induction false} PagesClean(dev: Device, crc: Crc, r: Request, n: nat, loop: nat)
    requires n <= r.sectors / SECTORS_PER_PAGE
    requires forall k: nat :: k < r.sectors / SECTORS_PER_PAGE ==> Stamped(dev, crc, r, k, loop)
    ensures Clean(CheckPages(dev, crc, r.lsn, r.sectors / SECTORS_PER_PAGE, n, loop))
  {
    if n > 0 {
      PagesClean(dev, crc, r, n - 1, loop);
      assert Stamped(dev, crc, r, n - 1, loop);
    }
  }

  lemma ChunkClean(dev: Device, crc: Crc, c: Cfg, r: Request, loop: nat)
    requires StampedChunk(dev, crc, c, r, loop) && ChunkSized(r.sectors)
    ensures dev(r.lsn).body.pageNum == r.sectors / SECTORS_PER_PAGE
    ensures Clean(CheckChunk(dev, crc, c.half, r.lsn, loop))
  {
    assert Stamped(dev, crc, r, 0, loop);
    PagesClean(dev, crc, r, r.sectors / SECTORS_PER_PAGE, loop);
  }

  lemma CleanNext(dev: Device, crc: Crc, half: nat, s: nat, next: nat, end: nat, loop: nat)
    requires s < end && 0 < dev(s).body.pageNum <= CHUNK_BUFFER_PAGES
    requires next == s + dev(s).body.pageNum * SECTORS_PER_PAGE
    requires Clean(CheckChunk(dev, crc, half, s, loop)) && CleanScan(dev, crc, half, next, end, loop)
    ensures CleanScan(dev, crc, half, s, end, loop)
  {
  }

  lemma CleanFrom(dev: Device, crc: Crc, c: Cfg, r: Request, end: nat, loop: nat)
    requires StampedChunk(dev, crc, c, r, loop) && ChunkSized(r.sectors) && r.lsn < end
    requires CleanScan(dev, crc, c.half, r.lsn + r.sectors, end, loop)
    ensures CleanScan(dev, crc, c.half, r.lsn, end, loop)
  {
    ChunkClean(dev, crc, c, r, loop);
    CleanNext(dev, crc, c.half, r.lsn, r.lsn + r.sectors, end, loop);
  }

  // Over stamped chunks the walk ends and marks nothing.
  lemma {:induction false} ScanClean(dev: Device, crc: Crc, c: Cfg, rs: seq<Request>, s: nat, hi: nat, end: nat,
                                     loop: nat)
    requires Tiles(rs, c, s, hi) && StampedAll(dev, crc, c, rs, loop) && AllChunkSized(rs) && end <= hi
    ensures CleanScan(dev, crc, c.half, s, end, loop)
  {
    if s < end {
      var r := rs[0];
      assert StampedChunk(dev, crc, c, r, loop) && ChunkSized(r.sectors) by {
        assert StampedChunk(dev, crc, c, rs[2 * 0], loop) && ChunkSized(rs[2 * 0].sectors);
      }
      assert CleanScan(dev, crc, c.half, s + r.sectors, end, loop) by {
        StampedTail(dev, crc, c, rs, loop);
        ScanClean(dev, crc, c, rs[2..], s + r.sectors, hi, end, loop);
      }
      CleanFrom(dev, crc, c, r, end, loop);
    }
  }

  lemma StampedTail(dev: Device, crc: Crc, c: Cfg, rs: seq<Request>, loop: nat)
    requires StampedAll(dev, crc, c, rs, loop) && AllChunkSized(rs) && |rs| >= 2
    ensures StampedAll(dev, crc, c, rs[2..], loop) && AllChunkSized(rs[2..])
  {
    forall i: nat | 2 * i < |rs[2..]|
      ensures StampedChunk(dev, crc, c, rs[2..][2 * i], loop) && ChunkSized(rs[2..][2 * i].sectors)
    {
      assert rs[2..][2 * i] == rs[2 * (i + 1)];
    }
  }

  // ----- What a pass leaves behind -----

  ghost predicate TilesIn(rs: seq<Request>, c: Cfg, lo: nat, hi: nat) {
    Tiles(rs, c, lo, hi) && AllChunkSized(rs) && c.first <= lo && hi <= c.End()
  }

  // Where the m-th request lies: in [lo, hi), or its mirror image in the second half.
  lemma RequestRange(rs: seq<Request>, c: Cfg, lo: nat, hi: nat, m: nat, x: nat)
    requires TilesIn(rs, c, lo, hi) && m < |rs| && InPages(rs[m], x)
    ensures if m % 2 == 0 then lo <= x < hi else c.End() <= x && lo + c.half <= x < hi + c.half
  {
    TilesInside(rs, c, lo, hi, m / 2);
    assert ChunkSized(rs[2 * (m / 2)].sectors);
  }

  lemma ApartPages(rs: seq<Request>, c: Cfg, lo: nat, hi: nat, i: nat, j: nat, x: nat)
    requires TilesIn(rs, c, lo, hi) && i < j && 2 * j < |rs|
    ensures 2 * j + 1 < |rs|
    ensures !(InPages(rs[2 * i], x) && InPages(rs[2 * j], x))
    ensures !(InPages(rs[2 * i + 1], x) && InPages(rs[2 * j + 1], x))
  {
    TilesInside(rs, c, lo, hi, i);
    TilesInside(rs, c, lo, hi, j);
    TilesApart(rs, c, lo, hi, i, j);
    assert ChunkSized(rs[2 * i].sectors);
  }

  // No page belongs to two requests of a pass.
  lemma OneOwner(rs: seq<Request>, c: Cfg, lo: nat, hi: nat, m: nat, n: nat, x: nat)
    requires TilesIn(rs, c, lo, hi) && m < |rs| && n < |rs| && m != n && InPages(rs[m], x)
    ensures !InPages(rs[n], x)
  {
    if InPages(rs[n], x) {
      RequestRange(rs, c, lo, hi, m, x);
      RequestRange(rs, c, lo, hi, n, x);
      assert m % 2 == n % 2;
      var (i, j) := (m / 2, n / 2);
      if i < j {
        ApartPages(rs, c, lo, hi, i, j, x);
      } else {
        ApartPages(rs, c, lo, hi, j, i, x);
      }
    }
  }

  lemma PageWritten(dev: Device, w: Writer, rs: seq<Request>, c: Cfg, lo: nat, hi: nat, m: nat, k: nat)
    requires TilesIn(rs, c, lo, hi) && m < |rs| && k < rs[m].sectors / SECTORS_PER_PAGE
    ensures WriteAll(dev, w, rs)(rs[m].lsn + k * SECTORS_PER_PAGE) == MakeHeader(w, rs[m], k)
  {
    var x := rs[m].lsn + k * SECTORS_PER_PAGE;
    assert InPages(rs[m], x);
    forall n | m < n < |rs| ensures !InPages(rs[n], x) {
      OneOwner(rs, c, lo, hi, m, n, x);
    }
    LastWriter(dev, w, rs, m, x);
    assert (x - rs[m].lsn) / SECTORS_PER_PAGE == k;
  }

  lemma PageStamped(dev: Device, w: Writer, rs: seq<Request>, c: Cfg, lo: nat, hi: nat, m: nat, k: nat)
    requires TilesIn(rs, c, lo, hi) && m < |rs| && k < rs[m].sectors / SECTORS_PER_PAGE
    ensures Stamped(WriteAll(dev, w, rs), w.crc, rs[m], k, w.loop)
  {
    PageWritten(dev, w, rs, c, lo, hi, m, k);
  }

  // Whatever was on the device, a pass stamps all its chunks and mirror pages.
  lemma PassStamps(dev: Device, w: Writer, rs: seq<Request>, c: Cfg, lo: nat, hi: nat)
    requires TilesIn(rs, c, lo, hi)
    ensures StampedAll(WriteAll(dev, w, rs), w.crc, c, rs, w.loop)
  {
    forall i: nat | 2 * i < |rs| ensures StampedChunk(WriteAll(dev, w, rs), w.crc, c, rs[2 * i], w.loop) {
      forall k: nat | k < rs[2 * i].sectors / SECTORS_PER_PAGE
        ensures Stamped(WriteAll(dev, w, rs), w.crc, rs[2 * i], k, w.loop)
      {
        PageStamped(dev, w, rs, c, lo, hi, 2 * i, k);
      }
      TilesInside(rs, c, lo, hi, i);
      PageStamped(dev, w, rs, c, lo, hi, 2 * i + 1, 0);
    }
  }

  lemma {:induction false} TilesFrom(rs: seq<Request>, c: Cfg, lo: nat, hi: nat, i: nat)
    requires TilesIn(rs, c, lo, hi) && 2 * i < |rs|
    ensures lo <= rs[2 * i].lsn && TilesIn(rs[2 * i..], c, rs[2 * i].lsn, hi)
  {
    if i == 0 {
      assert rs[0..] == rs;
    } else {
      TilesTail(rs, c, lo, hi);
      TilesFrom(rs[2..], c, lo + rs[0].sectors, hi, i - 1);
      assert rs[2..][2 * (i - 1)..] == rs[2 * i..];
    }
  }

  lemma TilesTail(rs: seq<Request>, c: Cfg, lo: nat, hi: nat)
    requires TilesIn(rs, c, lo, hi) && rs != []
    ensures TilesIn(rs[2..], c, lo + rs[0].sectors, hi)
  {
    forall i: nat | 2 * i < |rs[2..]| ensures ChunkSized(rs[2..][2 * i].sectors) {
      assert rs[2..][2 * i] == rs[2 * (i + 1)];
    }
  }

  lemma StampedFrom(dev: Device, crc: Crc, c: Cfg, rs: seq<Request>, loop: nat, i: nat)
    requires 2 * i < |rs| && forall j: nat :: i <= j && 2 * j < |rs| ==> StampedChunk(dev, crc, c, rs[2 * j], loop)
    ensures StampedAll(dev, crc, c, rs[2 * i..], loop)
  {
    forall j: nat | 2 * j < |rs[2 * i..]| ensures StampedChunk(dev, crc, c, rs[2 * i..][2 * j], loop) {
      assert rs[2 * i..][2 * j] == rs[2 * (i + j)];
    }
  }

  // Where chunks are stamped, the walk from the i-th on marks nothing.
  lemma StampedScan(dev: Device, crc: Crc, rs: seq<Request>, c: Cfg, lo: nat, hi: nat, i: nat, end: nat, loop: nat)
    requires TilesIn(rs, c, lo, hi) && 2 * i < |rs| && end <= hi
    requires forall j: nat :: i <= j && 2 * j < |rs| ==> StampedChunk(dev, crc, c, rs[2 * j], loop)
    ensures CleanScan(dev, crc, c.half, rs[2 * i].lsn, end, loop)
  {
    StampedFrom(dev, crc, c, rs, loop, i);
    TilesFrom(rs, c, lo, hi, i);
    ScanClean(dev, crc, c, rs[2 * i..], rs[2 * i].lsn, hi, end, loop);
  }

  // ----- What a clean walk proves -----

  lemma {:induction false} CleanPages(dev: Device, crc: Crc, s: nat, pages: nat, n: nat, loop: nat, k: nat)
    requires k < n && Clean(CheckPages(dev, crc, s, pages, n, loop))
    ensures !CheckPage(dev, crc, s + k * SECTORS_PER_PAGE, pages, k, loop).crashed
  {
    var fs := CheckPages(dev, crc, s, pages, n, loop);
    if k == n - 1 {
      assert !fs[n - 1].crashed;
    } else {
      var init := CheckPages(dev, crc, s, pages, n - 1, loop);
      forall i | 0 <= i < |init| ensures !init[i].crashed {
        assert init[i] == fs[i];
      }
      CleanPages(dev, crc, s, pages, n - 1, loop, k);
    }
  }

  lemma CleanParts(a: seq<Finding>, b: seq<Finding>)
    requires Clean(a + b)
    ensures Clean(a) && Clean(b)
  {
    forall i | 0 <= i < |a| ensures !a[i].crashed {
      assert (a + b)[i] == a[i];
    }
    forall i | 0 <= i < |b| ensures !b[i].crashed {
      assert (a + b)[|a| + i] == b[i];
    }
  }

  // The header at x is the one this page should have after a pass with this loop count.
  ghost predicate Right(dev: Device, crc: Crc, x: nat, loop: nat) {
    PageOk(crc, dev(x), x) && dev(x).body.loop == loop
  }

  // Page x is page `index` of the chunk that the walk found at s.
  ghost predicate RightInChunk(dev: Device, crc: Crc, half: nat, s: nat, x: nat, loop: nat) {
    && s <= x && OnPage(x - s) && (x - s) / SECTORS_PER_PAGE < dev(s).body.pageNum
    && Right(dev, crc, x, loop) && dev(x).body.pageIndex == (x - s) / SECTORS_PER_PAGE
    && Right(dev, crc, s + half, loop)
  }

  // Nothing is missed: when the walk marks no page, every page from s to the end has
  // its own sector, a right checksum, the expected loop count and its index in a chunk
  // whose mirror page is right as well -- on any device.
  lemma {:induction false} CleanScanIsRight(dev: Device, crc: Crc, half: nat, s: nat, end: nat, loop: nat, k: nat)
    returns (start: nat)
    requires CleanScan(dev, crc, half, s, end, loop)
    requires s + k * SECTORS_PER_PAGE < end
    ensures s <= start && RightInChunk(dev, crc, half, start, s + k * SECTORS_PER_PAGE, loop)
    decreases end - s
  {
    var pages := dev(s).body.pageNum;
    var next := s + pages * SECTORS_PER_PAGE;
    var mirror, chunk := [CheckMirror(dev, crc, s + half, loop)], CheckPages(dev, crc, s, pages, pages, loop);
    CleanParts(mirror + chunk, Scan(dev, crc, half, next, end, loop).filed);
    if k < pages {
      CleanParts(mirror, chunk);
      assert !mirror[0].crashed;
      CleanPages(dev, crc, s, pages, pages, loop, k);
      start := s;
    } else {
      assert next + (k - pages) * SECTORS_PER_PAGE == s + k * SECTORS_PER_PAGE;
      start := CleanScanIsRight(dev, crc, half, next, end, loop, k - pages);
    }
  }

  // ----- Finding the first chunk -----

  // The search from s: headers of a later boot are passed over, and the first page of
  // a chunk with the expected loop count gives where its chunk starts.
  function Find(dev: Device, s: nat, end: nat, loop: nat, boot: nat): Option<nat>
    decreases end - s
  {
    if s >= end then None
    else
      var h := dev(s);
      var latest := if boot == 0 then h.body.boot else boot;
      if latest >= h.body.boot then
        if (h.magic == MAGIC_NUMBER || h.magic == MAGIC_NUMBER_FLUSH) && h.body.loop == loop && h.body.pageIndex == 0
        then Some(h.body.start)
        else Find(dev, s + SECTORS_PER_PAGE, end, loop, h.body.boot)
      else Find(dev, s + SECTORS_PER_PAGE, end, loop, latest)
  }

  lemma {:induction false} FoundAt(dev: Device, s: nat, end: nat, loop: nat, boot: nat) returns (k: nat)
    requires Find(dev, s, end, loop, boot).Some?
    ensures var x := s + k * SECTORS_PER_PAGE;
            && x < end && dev(x).body.pageIndex == 0 && dev(x).body.loop == loop
            && Find(dev, s, end, loop, boot).value == dev(x).body.start
    decreases end - s
  {
    var h := dev(s);
    var latest := if boot == 0 then h.body.boot else boot;
    if latest >= h.body.boot && (h.magic == MAGIC_NUMBER || h.magic == MAGIC_NUMBER_FLUSH) && h.body.loop == loop
       && h.body.pageIndex == 0 {
      k := 0;
    } else {
      k := FoundAt(dev, s + SECTORS_PER_PAGE, end, loop, if latest >= h.body.boot then h.body.boot else latest);
      k := k + 1;
    }
  }

  // In a stamped area the search can only give the start of a chunk at or behind s.
  lemma FoundIsChunk(dev: Device, crc: Crc, c: Cfg, rs: seq<Request>, lo: nat, hi: nat, s: nat, end: nat, loop: nat)
    returns (i: nat)
    requires TilesIn(rs, c, lo, hi) && StampedAll(dev, crc, c, rs, loop)
    requires lo <= s && end <= hi && (s - lo) % SECTORS_PER_PAGE == 0
    requires Find(dev, s, end, loop, 0).Some?
    ensures 2 * i < |rs| && s <= rs[2 * i].lsn < end && Find(dev, s, end, loop, 0) == Some(rs[2 * i].lsn)
  {
    var k := FoundAt(dev, s, end, loop, 0);
    var x := s + k * SECTORS_PER_PAGE;
    i := TilesCover(rs, c, lo, hi, x);
    AlignedStart(rs, c, lo, hi, i);
    var r := rs[2 * i];
    assert StampedChunk(dev, crc, c, r, loop) && ChunkSized(r.sectors);
    var p := (x - r.lsn) / SECTORS_PER_PAGE;
    assert x == r.lsn + p * SECTORS_PER_PAGE && p < r.sectors / SECTORS_PER_PAGE;
    assert Stamped(dev, crc, r, p, loop);
  }

  lemma {:induction false} AlignedStart(rs: seq<Request>, c: Cfg, lo: nat, hi: nat, i: nat)
    requires TilesIn(rs, c, lo, hi) && 2 * i < |rs|
    ensures lo <= rs[2 * i].lsn && (rs[2 * i].lsn - lo) % SECTORS_PER_PAGE == 0
  {
    if i > 0 {
      assert ChunkSized(rs[2 * 0].sectors);
      TilesTail(rs, c, lo, hi);
      AlignedStart(rs[2..], c, lo + rs[0].sectors, hi, i - 1);
    }
  }

  // The whole check of a part of a zone.
  function Check(dev: Device, crc: Crc, c: Cfg, start: nat, end: nat, loop: int): Walk {
    if start >= end || loop <= 0 || start >= c.End() then Walk([], true)
    else
      match Find(dev, start, end, loop, 0)
      case None => Walk([], true)
      case Some(s) => Scan(dev, crc, c.half, s, end, loop)
  }

  // In a stamped area the check of any part of it marks nothing.
  lemma StampedCheck(dev: Device, crc: Crc, rs: seq<Request>, c: Cfg, lo: nat, hi: nat, start: nat, end: nat, loop: nat)
    requires TilesIn(rs, c, lo, hi) && StampedAll(dev, crc, c, rs, loop)
    requires lo <= start && end <= hi && OnPage(start - lo)
    ensures CleanWalk(Check(dev, crc, c, start, end, loop))
  {
    if start < end && loop > 0 && Find(dev, start, end, loop, 0).Some? {
      var i := FoundIsChunk(dev, crc, c, rs, lo, hi, start, end, loop);
      StampedScan(dev, crc, rs, c, lo, hi, i, end, loop);
    }
  }

  // No false alarm: after a complete pass, whatever was on the device before, the
  // check of any part of the half marks nothing.
  lemma CheckIsClean(dev: Device, w: Writer, rs: seq<Request>, c: Cfg, lo: nat, hi: nat, start: nat, end: nat)
    requires TilesIn(rs, c, lo, hi) && lo <= start && end <= hi && OnPage(start - lo)
    ensures CleanWalk(Check(WriteAll(dev, w, rs), w.crc, c, start, end, w.loop))
  {
    PassStamps(dev, w, rs, c, lo, hi);
    StampedCheck(WriteAll(dev, w, rs), w.crc, rs, c, lo, hi, start, end, w.loop);
  }

  // ----- After a power loss -----

  // From sector `behind` on, and in its mirror image, nothing changed; what lies
  // before may hold anything.
  ghost predicate SameBehind(dev: Device, was: Device, c: Cfg, behind: nat) {
    forall x: nat :: (behind <= x < c.End() || behind + c.half <= x) ==> dev(x) == was(x)
  }

  // No page in [start, behind) carries this loop count.
  ghost predicate NoneBefore(dev: Device, start: nat, behind: nat, loop: nat) {
    forall k: nat :: start + k * SECTORS_PER_PAGE < behind ==> dev(start + k * SECTORS_PER_PAGE).body.loop != loop
  }

  lemma PageKept(dev: Device, was: Device, crc: Crc, c: Cfg, behind: nat, r: Request, k: nat, loop: nat)
    requires SameBehind(dev, was, c, behind) && Stamped(was, crc, r, k, loop)
    requires var x := r.lsn + k * SECTORS_PER_PAGE; behind <= x < c.End() || behind + c.half <= x
    ensures Stamped(dev, crc, r, k, loop)
  {
  }

  lemma ChunkKept(dev: Device, was: Device, crc: Crc, c: Cfg, behind: nat, r: Request, loop: nat)
    requires SameBehind(dev, was, c, behind) && StampedChunk(was, crc, c, r, loop)
    requires behind <= r.lsn && r.lsn + r.sectors <= c.End()
    ensures StampedChunk(dev, crc, c, r, loop)
  {
    forall k: nat | k < r.sectors / SECTORS_PER_PAGE ensures Stamped(dev, crc, r, k, loop) {
      PageKept(dev, was, crc, c, behind, r, k, loop);
    }
    PageKept(dev, was, crc, c, behind, Request(r.lsn + c.half, SECTORS_PER_PAGE, r.num + 1), 0, loop);
  }

  lemma ScanBehind(dev: Device, was: Device, crc: Crc, rs: seq<Request>, c: Cfg, lo: nat, hi: nat, behind: nat,
                   i: nat, end: nat, loop: nat)
    requires TilesIn(rs, c, lo, hi) && StampedAll(was, crc, c, rs, loop) && SameBehind(dev, was, c, behind)
    requires 2 * i < |rs| && behind <= rs[2 * i].lsn && end <= hi
    ensures CleanScan(dev, crc, c.half, rs[2 * i].lsn, end, loop)
  {
    forall j: nat | i <= j && 2 * j < |rs| ensures StampedChunk(dev, crc, c, rs[2 * j], loop) {
      TilesInside(rs, c, lo, hi, j);
      if i < j {
        TilesApart(rs, c, lo, hi, i, j);
      }
      ChunkKept(dev, was, crc, c, behind, rs[2 * j], loop);
    }
    StampedScan(dev, crc, rs, c, lo, hi, i, end, loop);
  }

  // A pass that got as far as sector `cut` changed nothing behind it.
  lemma PassChangesBefore(was: Device, w: Writer, part: seq<Request>, c: Cfg, lo: nat, cut: nat)
    requires TilesIn(part, c, lo, cut)
    ensures SameBehind(WriteAll(was, w, part), was, c, cut)
  {
    forall x: nat | cut <= x < c.End() || cut + c.half <= x ensures WriteAll(was, w, part)(x) == was(x) {
      forall m | 0 <= m < |part| ensures !InPages(part[m], x) {
        if InPages(part[m], x) {
          RequestRange(part, c, lo, cut, m, x);
        }
      }
      Untouched(was, w, part, x);
    }
  }

  // The page at x of an old pass, which it stamped and nothing changed.
  lemma OldPage(dev: Device, was: Device, crc: Crc, rs: seq<Request>, c: Cfg, lo: nat, hi: nat, behind: nat, x: nat,
                loop: nat)
    returns (i: nat, p: nat)
    requires TilesIn(rs, c, lo, hi) && StampedAll(was, crc, c, rs, loop) && SameBehind(dev, was, c, behind)
    requires lo <= x < hi && behind <= x && OnPage(x - lo)
    ensures 2 * i < |rs| && x == rs[2 * i].lsn + p * SECTORS_PER_PAGE && Stamped(dev, crc, rs[2 * i], p, loop)
  {
    i := TilesCover(rs, c, lo, hi, x);
    AlignedStart(rs, c, lo, hi, i);
    assert ChunkSized(rs[2 * i].sectors) && StampedChunk(was, crc, c, rs[2 * i], loop);
    p := (x - rs[2 * i].lsn) / SECTORS_PER_PAGE;
    PageKept(dev, was, crc, c, behind, rs[2 * i], p, loop);
  }

  lemma FoundBehind(dev: Device, was: Device, crc: Crc, rs: seq<Request>, c: Cfg, lo: nat, hi: nat, behind: nat,
                    start: nat, end: nat, loop: nat)
    returns (i: nat)
    requires TilesIn(rs, c, lo, hi) && StampedAll(was, crc, c, rs, loop) && SameBehind(dev, was, c, behind)
    requires lo <= start && end <= hi && OnPage(start - lo) && NoneBefore(dev, start, behind, loop)
    requires Find(dev, start, end, loop, 0).Some?
    ensures 2 * i < |rs| && behind <= rs[2 * i].lsn && Find(dev, start, end, loop, 0) == Some(rs[2 * i].lsn)
  {
    var k := FoundAt(dev, start, end, loop, 0);
    var x := start + k * SECTORS_PER_PAGE;
    assert OnPage(x - lo);
    var p;
    i, p := OldPage(dev, was, crc, rs, c, lo, hi, behind, x, loop);
  }

  // After a power loss, the check that expects the loop count of the pass before
  // marks nothing from a sector on where no page before `behind` carries that count.
  lemma CheckBehindIsClean(dev: Device, was: Device, crc: Crc, rs: seq<Request>, c: Cfg, lo: nat, hi: nat, behind: nat,
                           start: nat, end: nat, loop: nat)
    requires TilesIn(rs, c, lo, hi) && StampedAll(was, crc, c, rs, loop) && SameBehind(dev, was, c, behind)
    requires lo <= start && end <= hi && OnPage(start - lo) && NoneBefore(dev, start, behind, loop)
    ensures CleanWalk(Check(dev, crc, c, start, end, loop))
  {
    if start < end && loop > 0 && Find(dev, start, end, loop, 0).Some? {
      var i := FoundBehind(dev, was, crc, rs, c, lo, hi, behind, start, end, loop);
      ScanBehind(dev, was, crc, rs, c, lo, hi, behind, i, end, loop);
    }
  }

  // The device with one header replaced.
  function Torn(was: Device, x: nat): Device {
    (y: nat) => if y == x then Header(1, was(x).body, was(x).crc) else was(y)
  }

  lemma TornScanMarks(was: Device, crc: Crc, half: nat, s: nat, end: nat, loop: nat)
    requires s < end
    ensures !CleanScan(Torn(was, s + half), crc, half, s, end, loop)
  {
    var fs := Scan(Torn(was, s + half), crc, half, s, end, loop).filed;
    assert fs[0] == CheckMirror(Torn(was, s + half), crc, s + half, loop);
    assert fs[0].crashed;
  }

  ghost predicate NeverMarks(was: Device, crc: Crc, c: Cfg, behind: nat, s: nat, end: nat, loop: nat) {
    forall dev: Device :: SameBehind(dev, was, c, behind) ==> CleanScan(dev, crc, c.half, s, end, loop)
  }

  // A walk over the old pass marks nothing, whatever at all lies before `behind` in
  // both halves, exactly when it begins at or behind that sector.
  lemma NeverMarksIff(was: Device, crc: Crc, rs: seq<Request>, c: Cfg, lo: nat, hi: nat, behind: nat, i: nat,
                      end: nat, loop: nat)
    requires TilesIn(rs, c, lo, hi) && StampedAll(was, crc, c, rs, loop)
    requires 2 * i < |rs| && rs[2 * i].lsn < end <= hi
    ensures NeverMarks(was, crc, c, behind, rs[2 * i].lsn, end, loop) <==> behind <= rs[2 * i].lsn
  {
    var s := rs[2 * i].lsn;
    if behind <= s {
      forall dev: Device | SameBehind(dev, was, c, behind) ensures CleanScan(dev, crc, c.half, s, end, loop) {
        ScanBehind(dev, was, crc, rs, c, lo, hi, behind, i, end, loop);
      }
    } else {
      TilesInside(rs, c, lo, hi, i);
      var dev := Torn(was, s + c.half);
      assert SameBehind(dev, was, c, behind);
      TornScanMarks(was, crc, c.half, s, end, loop);
    }
  }

  // ----- The interleaving pass meets all of this -----

  lemma {:induction false} RestSizes(c: Cfg, lsn: nat, sectors: nat, num: nat, sizes: Sizes, k: nat)
    requires InRange(sizes) && 0 < sectors <= MAX_REQUEST_SECTORS && Aligned(c) && OnPage(lsn) && OnPage(sectors)
    ensures AllChunkSized(Rest(c, lsn, sectors, num, sizes, k).requests)
    decreases c.End() - lsn
  {
    if lsn < c.End() {
      NextInRange(c, num + 2, sizes, k);
      var (n, k') := (NextSize(c, num + 2, sizes, k), NextDraws(c, num + 2, k));
      PairWholePages(c, lsn, sectors, num);
      RestSizes(c, lsn + sectors, n, num + 2, sizes, k');
      var pair := Pair(c, lsn, sectors, num);
      var more := Rest(c, lsn + sectors, n, num + 2, sizes, k').requests;
      var all: seq<Request> := pair + more;
      forall i: nat | 2 * i < |all| ensures ChunkSized(all[2 * i].sectors) {
        if i == 0 {
          assert OnPage(pair[0].sectors);
        } else {
          assert all[2 * i] == more[2 * (i - 1)];
        }
      }
    }
  }

  // A page-aligned pass from any start in the first half, with a size no request of
  // the pattern exceeds, is one the checks above are about.
  lemma PassIsCheckable(c: Cfg, start: nat, sectors: nat, sizes: Sizes)
    requires InRange(sizes) && Aligned(c) && c.first <= start < c.End() && OnPage(start)
    requires 0 < sectors <= MAX_REQUEST_SECTORS && OnPage(sectors)
    ensures TilesIn(FullPass(c, start, sectors, sizes).requests, c, start, c.End())
  {
    RestTiles(c, start, sectors, 1, sizes, 0);
    RestSizes(c, start, sectors, 1, sizes, 0);
  }

  // ----- The check as loops -----

  const NUM_OF_SECTORS_PER_8MB := 16384

  method VerifyFindChunk(dev: Device, start: nat, end: nat, expectedLoop: nat) returns (found: Option<nat>)
    ensures found == Find(dev, start, end, expectedLoop, 0)
  {
    var s: nat := start;
    var length := NUM_OF_SECTORS_PER_8MB;
    var boot: nat := 0;
    while s < end
      invariant Find(dev, s, end, expectedLoop, boot) == Find(dev, start, end, expectedLoop, 0)
      invariant s < end ==> length == NUM_OF_SECTORS_PER_8MB
      decreases end - s
    {
      if s + NUM_OF_SECTORS_PER_8MB >= end {
        length := end - s;
      }
      var e := s + length;
      while s < e
        invariant Find(dev, s, end, expectedLoop, boot) == Find(dev, start, end, expectedLoop, 0)
        invariant e <= end && (e < end ==> length == NUM_OF_SECTORS_PER_8MB)
        decreases e - s
      {
        var h := dev(s);
        if boot == 0 {
          boot := h.body.boot;
        }
        if boot >= h.body.boot {
          if h.magic == MAGIC_NUMBER || h.magic == MAGIC_NUMBER_FLUSH {
            if h.body.loop == expectedLoop && h.body.pageIndex == 0 {
              return Some(h.body.start);
            }
          }
          boot := h.body.boot;
        }
        s := s + SECTORS_PER_PAGE;
      }
    }
    return None;
  }

  // The first n pages of a chunk, after its mirror page.
  method VerifyChunk(dev: Device, crc: Crc, half: nat, start: nat, n: nat, expectedLoop: nat)
    returns (fs: seq<Finding>)
    ensures fs == [CheckMirror(dev, crc, start + half, expectedLoop)] +
                  CheckPages(dev, crc, start, dev(start).body.pageNum, n, expectedLoop)
  {
    var h := dev(start + half);
    var occurredCrash := !PageOk(crc, h, start + half);
    if h.body.loop != expectedLoop {
      occurredCrash := true;
    }
    fs := [Finding(start + half, SECTORS_PER_PAGE, occurredCrash)];
    var pages := dev(start).body.pageNum;
    var s := start;
    var pageIndex := 0;
    while s < start + n * SECTORS_PER_PAGE
      invariant pageIndex <= n && s == start + pageIndex * SECTORS_PER_PAGE
      invariant fs == [CheckMirror(dev, crc, start + half, expectedLoop)] +
                      CheckPages(dev, crc, start, pages, pageIndex, expectedLoop)
    {
      h := dev(s);
      occurredCrash := !PageOk(crc, h, s);
      if h.body.loop != expectedLoop {
        occurredCrash := true;
      }
      if h.body.pageIndex != pageIndex {
        occurredCrash := true;
      }
      fs := fs + [Finding(s, pages * SECTORS_PER_PAGE, occurredCrash)];
      pageIndex := pageIndex + 1;
      s := s + SECTORS_PER_PAGE;
    }
  }

  // What a walk gives that has filed fs so far and gives `rest` from here on.
  function Joined(fs: seq<Finding>, rest: Walk): Walk {
    Walk(fs + rest.filed, rest.ended)
  }

  lemma JoinedTwice(fs: seq<Finding>, chunk: seq<Finding>, rest: Walk)
    ensures Joined(fs, Joined(chunk, rest)) == Joined(fs + chunk, rest)
  {
    assert fs + (chunk + rest.filed) == fs + chunk + rest.filed;
  }

  lemma JoinedNothing(rest: Walk)
    ensures Joined([], rest) == rest && Joined(rest.filed, Walk([], rest.ended)) == rest
  {
    assert [] + rest.filed == rest.filed && rest.filed + [] == rest.filed;
  }

  lemma ScanNext(dev: Device, crc: Crc, half: nat, s: nat, end: nat, loop: nat)
    requires s < end && 0 < dev(s).body.pageNum <= CHUNK_BUFFER_PAGES
    ensures Scan(dev, crc, half, s, end, loop) ==
            Joined(CheckChunk(dev, crc, half, s, loop),
                   Scan(dev, crc, half, s + dev(s).body.pageNum * SECTORS_PER_PAGE, end, loop))
  {
  }

  // One turn of the walk, and a turn after which it does not move on.
  lemma ScanStep(dev: Device, crc: Crc, half: nat, fs: seq<Finding>, s: nat, end: nat, loop: nat)
    requires s < end && 0 < dev(s).body.pageNum <= CHUNK_BUFFER_PAGES
    ensures Joined(fs, Scan(dev, crc, half, s, end, loop)) ==
            Joined(fs + CheckChunk(dev, crc, half, s, loop),
                   Scan(dev, crc, half, s + dev(s).body.pageNum * SECTORS_PER_PAGE, end, loop))
  {
    ScanNext(dev, crc, half, s, end, loop);
    JoinedTwice(fs, CheckChunk(dev, crc, half, s, loop),
                Scan(dev, crc, half, s + dev(s).body.pageNum * SECTORS_PER_PAGE, end, loop));
  }

  function Looked(pages: nat): nat {
    if pages > CHUNK_BUFFER_PAGES then CHUNK_BUFFER_PAGES else pages
  }

  lemma ScanStops(dev: Device, crc: Crc, half: nat, s: nat, end: nat, loop: nat)
    requires var pages := dev(s).body.pageNum; s < end && (pages == 0 || pages > CHUNK_BUFFER_PAGES)
    ensures Scan(dev, crc, half, s, end, loop) ==
            Walk([CheckMirror(dev, crc, s + half, loop)] +
                 CheckPages(dev, crc, s, dev(s).body.pageNum, Looked(dev(s).body.pageNum), loop), false)
  {
  }

  method VerifyChunks(dev: Device, crc: Crc, half: nat, start: nat, end: nat, expectedLoop: nat) returns (w: Walk)
    ensures w == Scan(dev, crc, half, start, end, expectedLoop)
  {
    var fs: seq<Finding> := [];
    var s := start;
    ghost var all := Scan(dev, crc, half, start, end, expectedLoop);
    JoinedNothing(all);
    while s < end
      invariant all == Joined(fs, Scan(dev, crc, half, s, end, expectedLoop))
      decreases end - s
    {
      var pages := dev(s).body.pageNum;
      var chunk := VerifyChunk(dev, crc, half, s, Looked(pages), expectedLoop);
      if pages == 0 || pages > CHUNK_BUFFER_PAGES {
        ScanStops(dev, crc, half, s, end, expectedLoop);
        return Walk(fs + chunk, false);
      }
      ScanStep(dev, crc, half, fs, s, end, expectedLoop);
      fs := fs + chunk;
      s := s + pages * SECTORS_PER_PAGE;
    }
    JoinedNothing(Walk(fs, true));
    return Walk(fs, true);
  }

  method VerifyCustomizing(dev: Device, crc: Crc, c: Cfg, start: nat, end: nat, expectedLoop: int) returns (w: Walk)
    ensures w == Check(dev, crc, c, start, end, expectedLoop)
  {
    if start >= end || expectedLoop <= 0 || start >= c.End() {
      return Walk([], true);
    }
    var found := VerifyFindChunk(dev, start, end, expectedLoop);
    if found.None? {
      return Walk([], true);
    }
    w := VerifyChunks(dev, crc, c.half, found.value, end, expectedLoop);
  }
}
