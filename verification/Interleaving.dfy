// The interleaved write pattern: large requests through the first half of the test
// area, each followed by one page in the second half.  The same loop writes and
// verifies; what it does to each request is passed in.
module Interleaving {
  import opened Types
  import opened DivMod

  const MAX_REQUEST_SECTORS := 1024
  const MIN_RANDOM_SECTORS := 64

  // first: first sector of the test area; half: sectors in half of its zones.
  datatype Cfg = Cfg(first: nat, half: nat, cached: bool, flushCycle: nat) {
    function End(): nat {
      first + half
    }
  }

  datatype Request = Request(lsn: nat, sectors: nat, num: nat)

  // The k-th drawn request size, for every k.
  type Sizes = nat -> nat

  ghost predicate InRange(sizes: Sizes) {
    forall k: nat :: SizeInRange(sizes(k))
  }

  predicate SizeInRange(n: nat) {
    MIN_RANDOM_SECTORS <= n <= MAX_REQUEST_SECTORS && n % SECTORS_PER_PAGE == 0
  }

  // ----- The requests of one pass -----

  // The last large request is cut at the end of the first half.
  function Clip(c: Cfg, lsn: nat, sectors: nat): nat
    requires lsn < c.End()
  {
    if lsn + sectors >= c.End() && sectors <= MAX_REQUEST_SECTORS then c.End() - lsn else sectors
  }

  function Pair(c: Cfg, lsn: nat, sectors: nat, num: nat): (rs: seq<Request>)
    requires lsn < c.End()
    ensures |rs| == 2
  {
    [Request(lsn, Clip(c, lsn, sectors), num), Request(lsn + c.half, SECTORS_PER_PAGE, num + 1)]
  }

  datatype Pass = Pass(requests: seq<Request>, draws: nat)

  // While the cache fills for the first time no size is drawn.
  predicate Fills(c: Cfg, num: nat) {
    c.cached && num <= c.flushCycle
  }

  function NextSize(c: Cfg, num: nat, sizes: Sizes, k: nat): nat {
    if Fills(c, num) then MAX_REQUEST_SECTORS else sizes(k)
  }

  function NextDraws(c: Cfg, num: nat, k: nat): nat {
    if Fills(c, num) then k else k + 1
  }

  lemma NextInRange(c: Cfg, num: nat, sizes: Sizes, k: nat)
    requires InRange(sizes)
    ensures SizeInRange(NextSize(c, num, sizes, k))
  {
    assert SizeInRange(sizes(k));
  }

  // The pass from here on, when k sizes have been drawn.
  ghost function Rest(c: Cfg, lsn: nat, sectors: nat, num: nat, sizes: Sizes, k: nat): Pass
    requires InRange(sizes)
    decreases c.End() - lsn, sectors == 0
  {
    if lsn >= c.End() then Pass([], k)
    else
      NextInRange(c, num + 2, sizes, k);
      var more := Rest(c, lsn + sectors, NextSize(c, num + 2, sizes, k), num + 2, sizes, NextDraws(c, num + 2, k));
      Pass(Pair(c, lsn, sectors, num) + more.requests, more.draws)
  }

  // A start in the second half is moved to the first, with a drawn size.
  ghost function FullPass(c: Cfg, start: nat, sectors: nat, sizes: Sizes): Pass
    requires InRange(sizes)
  {
    if start >= c.End() then Rest(c, start - c.half, sizes(0), 1, sizes, 1)
    else Rest(c, start, sectors, 1, sizes, 0)
  }

  // ----- Exact tiling -----

  // Requests in pairs: the large ones cover [lo, hi) end to end, each followed by
  // its mirror page.
  ghost predicate Tiles(rs: seq<Request>, c: Cfg, lo: nat, hi: nat) {
    if rs == [] then lo == hi
    else
      && |rs| >= 2
      && rs[0].lsn == lo && rs[0].sectors > 0 && lo + rs[0].sectors <= hi
      && rs[1] == Request(lo + c.half, SECTORS_PER_PAGE, rs[0].num + 1)
      && Tiles(rs[2..], c, lo + rs[0].sectors, hi)
  }

  lemma PairFirst(c: Cfg, lsn: nat, sectors: nat, num: nat, more: seq<Request>)
    requires lsn < c.End()
    ensures (Pair(c, lsn, sectors, num) + more)[2..] == more
  {
  }

  lemma {:induction false} RestTiles(c: Cfg, lsn: nat, sectors: nat, num: nat, sizes: Sizes, k: nat)
    requires InRange(sizes) && lsn <= c.End() && sectors > 0
    requires sectors <= MAX_REQUEST_SECTORS || lsn + sectors <= c.End()
    ensures Tiles(Rest(c, lsn, sectors, num, sizes, k).requests, c, lsn, c.End())
    decreases c.End() - lsn
  {
    if lsn < c.End() {
      NextInRange(c, num + 2, sizes, k);
      var (n, k') := (NextSize(c, num + 2, sizes, k), NextDraws(c, num + 2, k));
      var more := Rest(c, lsn + sectors, n, num + 2, sizes, k');
      PairFirst(c, lsn, sectors, num, more.requests);
      if lsn + sectors < c.End() {
        RestTiles(c, lsn + sectors, n, num + 2, sizes, k');
      }
    }
  }

  // A pass stays in the first half, covering it from its start on, exactly when the
  // request it begins with does not reach past the half or is not oversized.
  lemma TilesIff(c: Cfg, start: nat, sectors: nat, sizes: Sizes)
    requires InRange(sizes) && start < c.End() && sectors > 0
    ensures Tiles(FullPass(c, start, sectors, sizes).requests, c, start, c.End()) <==>
            sectors <= MAX_REQUEST_SECTORS || start + sectors <= c.End()
  {
    if sectors <= MAX_REQUEST_SECTORS || start + sectors <= c.End() {
      RestTiles(c, start, sectors, 1, sizes, 0);
    } else {
      assert FullPass(c, start, sectors, sizes).requests[0].sectors == sectors;
    }
  }

  lemma MovedStartTiles(c: Cfg, start: nat, sectors: nat, sizes: Sizes)
    requires InRange(sizes) && c.End() <= start < c.End() + c.half
    ensures Tiles(FullPass(c, start, sectors, sizes).requests, c, start - c.half, c.End())
  {
    assert SizeInRange(sizes(0));
    RestTiles(c, start - c.half, sizes(0), 1, sizes, 1);
  }

  ghost predicate Covers(r: Request, x: nat) {
    r.lsn <= x < r.lsn + r.sectors
  }

  // What Tiles means: the pairs are in order, side by side, and inside [lo, hi).
  lemma {:induction false} TilesInside(rs: seq<Request>, c: Cfg, lo: nat, hi: nat, i: nat)
    requires Tiles(rs, c, lo, hi) && 2 * i < |rs|
    ensures 2 * i + 1 < |rs| && lo <= rs[2 * i].lsn && rs[2 * i].lsn + rs[2 * i].sectors <= hi
    ensures rs[2 * i].sectors > 0
    ensures rs[2 * i + 1] == Request(rs[2 * i].lsn + c.half, SECTORS_PER_PAGE, rs[2 * i].num + 1)
  {
    if i > 0 {
      TilesInside(rs[2..], c, lo + rs[0].sectors, hi, i - 1);
    }
  }

  lemma {:induction false} TilesApart(rs: seq<Request>, c: Cfg, lo: nat, hi: nat, i: nat, j: nat)
    requires Tiles(rs, c, lo, hi) && i < j && 2 * j < |rs|
    ensures rs[2 * i].lsn + rs[2 * i].sectors <= rs[2 * j].lsn
  {
    if i == 0 {
      TilesInside(rs[2..], c, lo + rs[0].sectors, hi, j - 1);
    } else {
      TilesApart(rs[2..], c, lo + rs[0].sectors, hi, i - 1, j - 1);
    }
  }

  lemma {:induction false} TilesCover(rs: seq<Request>, c: Cfg, lo: nat, hi: nat, x: nat) returns (i: nat)
    requires Tiles(rs, c, lo, hi) && lo <= x < hi
    ensures 2 * i < |rs| && Covers(rs[2 * i], x)
  {
    if x < lo + rs[0].sectors {
      i := 0;
    } else {
      i := TilesCover(rs[2..], c, lo + rs[0].sectors, hi, x);
      i := i + 1;
    }
  }

  // Each sector of [lo, hi) is in exactly one large request, and no other sector is.
  lemma CoveredOnce(rs: seq<Request>, c: Cfg, lo: nat, hi: nat, x: nat)
    requires Tiles(rs, c, lo, hi)
    ensures (exists i: nat :: 2 * i < |rs| && Covers(rs[2 * i], x)) <==> lo <= x < hi
    ensures forall i: nat, j: nat ::
              2 * i < |rs| && 2 * j < |rs| && Covers(rs[2 * i], x) && Covers(rs[2 * j], x) ==> i == j
  {
    if lo <= x < hi {
      var i := TilesCover(rs, c, lo, hi, x);
    }
    forall i: nat | 2 * i < |rs| && Covers(rs[2 * i], x) ensures lo <= x < hi {
      TilesInside(rs, c, lo, hi, i);
    }
    forall i: nat, j: nat | 2 * i < |rs| && 2 * j < |rs| && Covers(rs[2 * i], x) && Covers(rs[2 * j], x)
      ensures i == j
    {
      if i < j {
        TilesApart(rs, c, lo, hi, i, j);
      } else if j < i {
        TilesApart(rs, c, lo, hi, j, i);
      }
    }
  }

  // ----- Mirror pages -----

  predicate OnPage(n: nat) {
    n % SECTORS_PER_PAGE == 0
  }

  ghost predicate WholePages(rs: seq<Request>) {
    forall i :: 0 <= i < |rs| ==> OnPage(rs[i].sectors) && OnPage(rs[i].lsn)
  }

  predicate Aligned(c: Cfg) {
    OnPage(c.first) && OnPage(c.half)
  }

  lemma PairWholePages(c: Cfg, lsn: nat, sectors: nat, num: nat)
    requires Aligned(c) && OnPage(lsn) && OnPage(sectors) && lsn < c.End()
    ensures WholePages(Pair(c, lsn, sectors, num)) && OnPage(lsn + sectors)
  {
    SumOnPage(lsn, sectors);
    SumOnPage(lsn, c.half);
    SumOnPage(c.first, c.half);
    SumOnPage(c.End(), lsn);
  }

  lemma SumOnPage(a: nat, b: nat)
    requires OnPage(a) && OnPage(b)
    ensures OnPage(a + b) && (a >= b ==> OnPage(a - b))
  {
  }

  lemma WholePagesAppend(rs: seq<Request>, ts: seq<Request>)
    requires WholePages(rs) && WholePages(ts)
    ensures WholePages(rs + ts)
  {
  }

  lemma {:induction false} RestWholePages(c: Cfg, lsn: nat, sectors: nat, num: nat, sizes: Sizes, k: nat)
    requires InRange(sizes) && Aligned(c) && OnPage(lsn) && OnPage(sectors)
    ensures WholePages(Rest(c, lsn, sectors, num, sizes, k).requests)
    decreases c.End() - lsn, sectors == 0
  {
    if lsn < c.End() {
      NextInRange(c, num + 2, sizes, k);
      var (n, k') := (NextSize(c, num + 2, sizes, k), NextDraws(c, num + 2, k));
      PairWholePages(c, lsn, sectors, num);
      assert OnPage(n);
      RestWholePages(c, lsn + sectors, n, num + 2, sizes, k');
      WholePagesAppend(Pair(c, lsn, sectors, num), Rest(c, lsn + sectors, n, num + 2, sizes, k').requests);
    }
  }

  // In a page-aligned pass the mirror pages lie in the second half and no two meet.
  lemma MirrorsApart(rs: seq<Request>, c: Cfg, lo: nat, i: nat, j: nat)
    requires Tiles(rs, c, lo, c.End()) && WholePages(rs) && c.first <= lo
    requires i < j && 2 * j < |rs|
    ensures 2 * j + 1 < |rs| && c.End() <= rs[2 * i + 1].lsn
    ensures rs[2 * i + 1].lsn + rs[2 * i + 1].sectors <= rs[2 * j + 1].lsn
    ensures rs[2 * j + 1].lsn + rs[2 * j + 1].sectors <= c.End() + c.half
  {
    TilesInside(rs, c, lo, c.End(), i);
    TilesInside(rs, c, lo, c.End(), j);
    TilesApart(rs, c, lo, c.End(), i, j);
  }

  // ----- Request numbers and the flush window -----

  // The requests are numbered in order, from num on.
  ghost predicate Numbered(rs: seq<Request>, num: nat) {
    forall i :: 0 <= i < |rs| ==> rs[i].num == num + i
  }

  lemma PairNumbered(c: Cfg, lsn: nat, sectors: nat, num: nat, more: seq<Request>)
    requires lsn < c.End() && Numbered(more, num + 2)
    ensures Numbered(Pair(c, lsn, sectors, num) + more, num)
  {
    var rs: seq<Request> := Pair(c, lsn, sectors, num) + more;
    forall i | 0 <= i < |rs| ensures rs[i].num == num + i {
      if i >= 2 {
        assert rs[i] == more[i - 2];
      }
    }
  }

  lemma {:induction false} RestNumbers(c: Cfg, lsn: nat, sectors: nat, num: nat, sizes: Sizes, k: nat)
    requires InRange(sizes)
    ensures Numbered(Rest(c, lsn, sectors, num, sizes, k).requests, num)
    decreases c.End() - lsn, sectors == 0
  {
    if lsn < c.End() {
      NextInRange(c, num + 2, sizes, k);
      var (n, k') := (NextSize(c, num + 2, sizes, k), NextDraws(c, num + 2, k));
      RestNumbers(c, lsn + sectors, n, num + 2, sizes, k');
      PairNumbered(c, lsn, sectors, num, Rest(c, lsn + sectors, n, num + 2, sizes, k').requests);
    }
  }

  // With the cache on, every flushCycle-th request of a pass is a flush request.
  predicate Flushes(c: Cfg, r: Request)
    requires c.cached ==> c.flushCycle > 0
  {
    c.cached && r.num % c.flushCycle == 0
  }

  function FlushCount(c: Cfg, rs: seq<Request>): nat
    requires c.cached ==> c.flushCycle > 0
  {
    if rs == [] then 0 else FlushCount(c, rs[..|rs| - 1]) + (if Flushes(c, rs[|rs| - 1]) then 1 else 0)
  }

  lemma {:induction false} FlushCountNumbered(c: Cfg, rs: seq<Request>)
    requires c.cached && c.flushCycle > 0
    requires Numbered(rs, 1)
    ensures FlushCount(c, rs) == |rs| / c.flushCycle
  {
    if rs != [] {
      FlushCountNumbered(c, rs[..|rs| - 1]);
      DivNext(|rs|, c.flushCycle);
    }
  }

  lemma WholeNumbers(c: Cfg, start: nat, sectors: nat, sizes: Sizes)
    requires InRange(sizes)
    ensures Numbered(FullPass(c, start, sectors, sizes).requests, 1)
  {
    assert SizeInRange(sizes(0));
    if start >= c.End() {
      RestNumbers(c, start - c.half, sizes(0), 1, sizes, 1);
    } else {
      RestNumbers(c, start, sectors, 1, sizes, 0);
    }
  }

  lemma NoMultiple(n: nat, m: nat, k: nat)
    requires m > 0 && n - n % m < k <= n
    ensures k % m != 0
  {
    assert n == (n / m) * m + n % m;
    DivUnique(k, m, n / m, k - (n - n % m));
  }

  // After n requests of a cache-on pass n / flushCycle were flush requests, and
  // none of the last n % flushCycle ones was.
  lemma FlushWindow(c: Cfg, rs: seq<Request>, n: nat)
    requires c.cached && c.flushCycle > 0 && n <= |rs|
    requires Numbered(rs, 1)
    ensures FlushCount(c, rs[..n]) == n / c.flushCycle
    ensures n % c.flushCycle < c.flushCycle
    ensures forall i :: n - n % c.flushCycle <= i < n ==> !Flushes(c, rs[i])
  {
    FlushCountNumbered(c, rs[..n]);
    forall i | n - n % c.flushCycle <= i < n ensures !Flushes(c, rs[i]) {
      NoMultiple(n, c.flushCycle, i + 1);
    }
  }

  lemma PassFlushWindow(c: Cfg, start: nat, sectors: nat, sizes: Sizes, n: nat)
    requires InRange(sizes) && c.cached && c.flushCycle > 0
    requires n <= |FullPass(c, start, sectors, sizes).requests|
    ensures var rs := FullPass(c, start, sectors, sizes).requests;
            && FlushCount(c, rs[..n]) == n / c.flushCycle
            && n % c.flushCycle < c.flushCycle
            && forall i :: n - n % c.flushCycle <= i < n ==> !Flushes(c, rs[i])
  {
    WholeNumbers(c, start, sectors, sizes);
    FlushWindow(c, FullPass(c, start, sectors, sizes).requests, n);
  }

  // ----- Which sizes a pass has -----

  // Of n large requests, the first one numbered num, how many take a drawn size.
  function DrawnOf(c: Cfg, num: nat, n: nat): nat
    decreases n
  {
    if n == 0 then 0 else (if c.cached && num <= c.flushCycle then 0 else 1) + DrawnOf(c, num + 2, n - 1)
  }

  // The large request numbered num, for which `drawn` is the next size.
  predicate Sized(c: Cfg, r: Request, num: nat, drawn: nat) {
    var size := if c.cached && num <= c.flushCycle then 1024 else drawn;
    r.num == num && r.sectors == if r.lsn + size >= c.first + c.half then c.first + c.half - r.lsn else size
  }

  // The first large request, of the start and size given, or drawn for a moved start.
  predicate SizedFirst(c: Cfg, r: Request, start: nat, sectors: nat, drawn: nat) {
    var end := c.first + c.half;
    if start >= end then r.lsn == start - c.half && r.sectors == if r.lsn + drawn >= end then end - r.lsn else drawn
    else r.lsn == start && r.sectors == if start + sectors >= end && sectors <= 1024 then end - start else sectors
  }

  lemma {:induction false} RestSized(c: Cfg, lsn: nat, sectors: nat, num: nat, sizes: Sizes, k: nat, i: nat)
    requires InRange(sizes) && i > 0 && 2 * i < |Rest(c, lsn, sectors, num, sizes, k).requests|
    ensures Sized(c, Rest(c, lsn, sectors, num, sizes, k).requests[2 * i], num + 2 * i,
                  sizes(k + DrawnOf(c, num + 2, i - 1)))
    decreases i
  {
    NextInRange(c, num + 2, sizes, k);
    var (n, k') := (NextSize(c, num + 2, sizes, k), NextDraws(c, num + 2, k));
    var more := Rest(c, lsn + sectors, n, num + 2, sizes, k').requests;
    assert Rest(c, lsn, sectors, num, sizes, k).requests[2 * i] == more[2 * (i - 1)] by {
      assert (Pair(c, lsn, sectors, num) + more)[2 * i] == more[2 * (i - 1)];
    }
    if i > 1 {
      RestSized(c, lsn + sectors, n, num + 2, sizes, k', i - 1);
    }
  }

  lemma {:induction false} RestDraws(c: Cfg, lsn: nat, sectors: nat, num: nat, sizes: Sizes, k: nat)
    requires InRange(sizes)
    ensures var p := Rest(c, lsn, sectors, num, sizes, k); p.draws == k + DrawnOf(c, num + 2, |p.requests| / 2)
    decreases c.End() - lsn, sectors == 0
  {
    if lsn < c.End() {
      NextInRange(c, num + 2, sizes, k);
      var (n, k') := (NextSize(c, num + 2, sizes, k), NextDraws(c, num + 2, k));
      RestDraws(c, lsn + sectors, n, num + 2, sizes, k');
      var more := Rest(c, lsn + sectors, n, num + 2, sizes, k').requests;
      assert |Pair(c, lsn, sectors, num) + more| / 2 == 1 + |more| / 2;
    }
  }

  // Pair i: a large request that begins in the first half, and its mirror page; then the
  // next pair begins where it ends, or it is the last and reaches the end of the half.
  predicate Paired(c: Cfg, rs: seq<Request>, i: nat)
    requires 2 * i < |rs|
  {
    var r := rs[2 * i];
    && 2 * i + 1 < |rs| && r.lsn < c.first + c.half && rs[2 * i + 1] == Request(r.lsn + c.half, 8, r.num + 1)
    && if 2 * i + 2 < |rs| then rs[2 * i + 2].lsn == r.lsn + r.sectors else r.lsn + r.sectors >= c.first + c.half
  }

  lemma {:induction false} RestPaired(c: Cfg, lsn: nat, sectors: nat, num: nat, sizes: Sizes, k: nat, i: nat)
    requires InRange(sizes) && 2 * i < |Rest(c, lsn, sectors, num, sizes, k).requests|
    ensures Paired(c, Rest(c, lsn, sectors, num, sizes, k).requests, i)
    decreases i
  {
    NextInRange(c, num + 2, sizes, k);
    var (n, k') := (NextSize(c, num + 2, sizes, k), NextDraws(c, num + 2, k));
    var (pair, more) := (Pair(c, lsn, sectors, num), Rest(c, lsn + sectors, n, num + 2, sizes, k').requests);
    var rs: seq<Request> := pair + more;
    if i > 0 {
      RestPaired(c, lsn + sectors, n, num + 2, sizes, k', i - 1);
      assert Paired(c, more, i - 1) && rs[2..] == more;
    }
  }

  // A start in the second half takes the first drawn size for its first request.
  function Moved(c: Cfg, start: nat): nat {
    if start >= c.first + c.half then 1 else 0
  }

  // Which of the drawn sizes pair i would take.
  function DrawnFor(c: Cfg, start: nat, i: nat): nat {
    if i == 0 then 0 else Moved(c, start) + DrawnOf(c, 3, i - 1)
  }

  predicate SizedAt(c: Cfg, r: Request, start: nat, sectors: nat, i: nat, drawn: nat) {
    if i > 0 then Sized(c, r, 2 * i + 1, drawn) else SizedFirst(c, r, start, sectors, drawn)
  }

  // The first large request has the size given, or drawn for a moved start; and of the
  // others each has 1024 sectors while the cache fills, else the next drawn size.  Only
  // the end of the half cuts a request.
  lemma PassSized(c: Cfg, start: nat, sectors: nat, sizes: Sizes, i: nat)
    requires InRange(sizes) && 2 * i < |FullPass(c, start, sectors, sizes).requests|
    ensures SizedAt(c, FullPass(c, start, sectors, sizes).requests[2 * i], start, sectors, i,
                    sizes(DrawnFor(c, start, i)))
  {
    assert SizeInRange(sizes(0));
    if i > 0 {
      if start >= c.End() {
        RestSized(c, start - c.half, sizes(0), 1, sizes, 1, i);
      } else {
        RestSized(c, start, sectors, 1, sizes, 0, i);
      }
    }
  }

  // The pairs of a pass lie one behind the other, up to the end of the half.
  lemma PassPaired(c: Cfg, start: nat, sectors: nat, sizes: Sizes, i: nat)
    requires InRange(sizes)
    ensures var rs := FullPass(c, start, sectors, sizes).requests;
            && (rs == [] <==> start >= c.first + 2 * c.half)
            && (2 * i < |rs| ==> Paired(c, rs, i))
  {
    assert SizeInRange(sizes(0));
    if 2 * i < |FullPass(c, start, sectors, sizes).requests| {
      if start >= c.End() {
        RestPaired(c, start - c.half, sizes(0), 1, sizes, 1, i);
      } else {
        RestPaired(c, start, sectors, 1, sizes, 0, i);
      }
    }
  }

  // So many sizes are drawn in all, the one for a request behind the last included.
  lemma PassDraws(c: Cfg, start: nat, sectors: nat, sizes: Sizes)
    requires InRange(sizes)
    ensures var p := FullPass(c, start, sectors, sizes);
            p.draws == Moved(c, start) + DrawnOf(c, 3, |p.requests| / 2)
  {
    assert SizeInRange(sizes(0));
    if start >= c.End() {
      RestDraws(c, start - c.half, sizes(0), 1, sizes, 1);
    } else {
      RestDraws(c, start, sectors, 1, sizes, 0);
    }
  }

  // Without the cache every size is drawn; with it, those behind the first flush.
  lemma {:induction false} DrawnAre(c: Cfg, num: nat, n: nat)
    ensures !c.cached ==> DrawnOf(c, num, n) == n
    ensures c.cached ==> DrawnOf(c, num, n) == if c.flushCycle < num then n
                                             else if n <= (c.flushCycle - num) / 2 + 1 then 0
                                             else n - (c.flushCycle - num) / 2 - 1
    decreases n
  {
    if n > 0 {
      DrawnAre(c, num + 2, n - 1);
    }
  }
}
