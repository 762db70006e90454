// Preparing the device: filling the area outside the test area with dirty data up to
// a budget, and checking that an erased area reads clean.
module Precondition {
  import opened Types

  const FILL_BLOCK_CNT := 0x2000

  // ----- Dirty fill -----

  // One write: sectors [start, start + count).
  datatype Extent = Extent(start: nat, count: nat)

  predicate Covers(e: Extent, x: nat) {
    e.start <= x < e.start + e.count
  }

  // Non-empty writes end to end from lo to hi, each of a block but the last.
  ghost predicate EndToEnd(es: seq<Extent>, lo: nat, hi: nat) {
    if es == [] then lo == hi
    else
      && es[0].start == lo && 0 < es[0].count <= 0x2000 && lo + es[0].count <= hi
      && (es[0].count == 0x2000 || lo + es[0].count == hi)
      && EndToEnd(es[1..], lo + es[0].count, hi)
  }

  ghost predicate WholeBlocks(es: seq<Extent>) {
    forall k :: 0 <= k < |es| ==> es[k].count == FILL_BLOCK_CNT
  }

  // Where a fill of [i, end) stops, when `count` sectors are filled already.
  function Stop(i: nat, end: nat, count: nat, budget: nat): (r: nat)
    requires i <= end
    ensures i <= r <= end
    ensures r == end || (budget < count + (r - i) && (r - i) % FILL_BLOCK_CNT == 0)
    ensures r == i || count + (r - i) <= budget + FILL_BLOCK_CNT
    decreases end - i
  {
    if i < end && count <= budget then
      var n := if i + FILL_BLOCK_CNT > end then end - i else FILL_BLOCK_CNT;
      Stop(i + n, end, count + n, budget)
    else i
  }

  lemma {:induction false} EndToEndSnoc(es: seq<Extent>, lo: nat, hi: nat, n: nat)
    requires EndToEnd(es, lo, hi) && 0 < n <= FILL_BLOCK_CNT && WholeBlocks(es)
    ensures EndToEnd(es + [Extent(hi, n)], lo, hi + n)
  {
    var more := es + [Extent(hi, n)];
    if es == [] {
      assert more[1..] == [];
    } else {
      EndToEndSnoc(es[1..], lo + es[0].count, hi, n);
      assert more[1..] == es[1..] + [Extent(hi, n)];
    }
  }

  method FillArea(start: nat, end: nat, count: nat, budget: nat) returns (count': nat, es: seq<Extent>)
    requires start <= end
    ensures count' == count + (Stop(start, end, count, budget) - start)
    ensures EndToEnd(es, start, Stop(start, end, count, budget))
  {
    var i := start;
    var dirtyCount := FILL_BLOCK_CNT;
    count' := count;
    es := [];
    while i < end && count' <= budget
      invariant start <= i <= end && count' == count + (i - start)
      invariant EndToEnd(es, start, i)
      invariant Stop(i, end, count', budget) == Stop(start, end, count, budget)
      invariant i < end ==> dirtyCount == FILL_BLOCK_CNT && WholeBlocks(es)
    {
      if i + dirtyCount > end {
        dirtyCount := end - i;
      }
      if dirtyCount > 0 {
        EndToEndSnoc(es, start, i, dirtyCount);
        es := es + [Extent(i, dirtyCount)];
      }
      i := i + dirtyCount;
      count' := count' + dirtyCount;
    }
  }

  lemma {:induction false} EndToEndInside(es: seq<Extent>, lo: nat, hi: nat, k: nat)
    requires EndToEnd(es, lo, hi) && k < |es|
    ensures lo <= es[k].start && es[k].start + es[k].count <= hi && es[k].count > 0
  {
    if k > 0 {
      EndToEndInside(es[1..], lo + es[0].count, hi, k - 1);
    }
  }

  lemma {:induction false} EndToEndApart(es: seq<Extent>, lo: nat, hi: nat, j: nat, k: nat)
    requires EndToEnd(es, lo, hi) && j < k < |es|
    ensures es[j].start + es[j].count <= es[k].start
  {
    if j == 0 {
      EndToEndInside(es[1..], lo + es[0].count, hi, k - 1);
    } else {
      EndToEndApart(es[1..], lo + es[0].count, hi, j - 1, k - 1);
    }
  }

  lemma {:induction false} EndToEndCovers(es: seq<Extent>, lo: nat, hi: nat, x: nat) returns (k: nat)
    requires EndToEnd(es, lo, hi) && lo <= x < hi
    ensures k < |es| && Covers(es[k], x)
  {
    if x < lo + es[0].count {
      k := 0;
    } else {
      k := EndToEndCovers(es[1..], lo + es[0].count, hi, x);
      k := k + 1;
    }
  }

  ghost predicate WrittenIn(es: seq<Extent>, x: nat) {
    exists k: nat :: k < |es| && Covers(es[k], x)
  }

  lemma EndToEndExactly(es: seq<Extent>, lo: nat, hi: nat, x: nat)
    requires EndToEnd(es, lo, hi)
    ensures WrittenIn(es, x) <==> lo <= x < hi
  {
    if lo <= x < hi {
      var k := EndToEndCovers(es, lo, hi, x);
    }
    if WrittenIn(es, x) {
      var k: nat :| k < |es| && Covers(es[k], x);
      EndToEndInside(es, lo, hi, k);
    }
  }

  // Of the area outside the test area this many sectors are to be filled.
  function Budget(testLength: nat, total: nat, ratio: nat): nat
    requires testLength <= total
  {
    (total - testLength) * ratio / 100
  }

  lemma BudgetIs(testLength: nat, total: nat, ratio: nat)
    requires testLength <= total
    ensures var b := Budget(testLength, total, ratio);
            100 * b <= (total - testLength) * ratio < 100 * b + 100
  {
  }

  lemma WholeBudget(testLength: nat, total: nat, ratio: nat)
    requires testLength <= total && ratio >= 100
    ensures Budget(testLength, total, ratio) >= total - testLength
  {
    var n := total - testLength;
    assert n * ratio == n * 100 + n * (ratio - 100);
    MulNat(n, ratio - 100);
  }

  lemma MulNat(a: nat, b: nat)
    ensures a * b >= 0
  {
  }

  // Front stop f and back stop g: [0, f) and [test end, g) are written.
  function FrontStop(testStart: nat, budget: nat): (f: nat)
    ensures f <= testStart
  {
    Stop(0, testStart, 0, budget)
  }

  function BackStop(testEnd: nat, total: nat, f: nat, budget: nat): (g: nat)
    requires testEnd <= total
    ensures testEnd <= g <= total
  {
    Stop(testEnd, total, f, budget)
  }

  // Everything written lies on the device and outside the test area; either all of
  // the outside is written, or more than the budget by at most one block.
  method MakeDirtyCondition(testStart: nat, testLength: nat, total: nat, ratio: nat)
    returns (front: seq<Extent>, back: seq<Extent>)
    requires testStart + testLength <= total
    ensures var budget := Budget(testLength, total, ratio);
            var f := FrontStop(testStart, budget);
            EndToEnd(front, 0, f) &&
            EndToEnd(back, testStart + testLength, BackStop(testStart + testLength, total, f, budget))
  {
    var budget := Budget(testLength, total, ratio);
    var count := 0;
    front, back := [], [];
    if testStart > 0 {
      count, front := FillArea(0, testStart, count, budget);
    }
    if testStart + testLength < total {
      count, back := FillArea(testStart + testLength, total, count, budget);
    }
  }

  // A sector is written exactly when it lies before the front stop or between the
  // test area and the back stop -- so on the device and never in the test area -- and
  // in one write only.
  lemma DirtyExtents(front: seq<Extent>, back: seq<Extent>, f: nat, testStart: nat, testEnd: nat, g: nat, total: nat,
                     x: nat)
    requires f <= testStart <= testEnd <= g <= total && EndToEnd(front, 0, f) && EndToEnd(back, testEnd, g)
    ensures WrittenIn(front + back, x) <==> x < f || testEnd <= x < g
    ensures WrittenIn(front + back, x) ==> x < total && !(testStart <= x < testEnd)
    ensures forall j: nat, k: nat ::
              j < k < |front + back| ==> !(Covers((front + back)[j], x) && Covers((front + back)[k], x))
  {
    EndToEndExactly(front, 0, f, x);
    EndToEndExactly(back, testEnd, g, x);
    var es := front + back;
    var m := |front|;
    assert forall k: nat :: k < |es| ==> es[k] == if k < m then front[k] else back[k - m];
    if WrittenIn(back, x) {
      var k: nat :| k < |back| && Covers(back[k], x);
      assert Covers(es[m + k], x);
    }
    if WrittenIn(front, x) {
      var k: nat :| k < |front| && Covers(front[k], x);
      assert Covers(es[k], x);
    }
    forall j: nat, k: nat | j < k < |es| ensures !(Covers(es[j], x) && Covers(es[k], x)) {
      if k < m {
        EndToEndApart(front, 0, f, j, k);
      } else if j < m {
        EndToEndInside(front, 0, f, j);
        EndToEndInside(back, testEnd, g, k - m);
      } else {
        EndToEndApart(back, testEnd, g, j - m, k - m);
      }
    }
  }

  // How much is written: all there is outside, or between the budget and one block more;
  // nothing behind the test area before all in front of it; and whole blocks up to the
  // end of either part.
  lemma DirtyAmount(testStart: nat, testLength: nat, total: nat, ratio: nat)
    requires testStart + testLength <= total
    ensures var budget := Budget(testLength, total, ratio);
            var f := FrontStop(testStart, budget);
            var written := f + (BackStop(testStart + testLength, total, f, budget) - (testStart + testLength));
            && (written == total - testLength || budget < written <= budget + 0x2000)
            && (ratio >= 100 ==> written == total - testLength)
            && (f < testStart ==> BackStop(testStart + testLength, total, f, budget) == testStart + testLength)
            && (f == testStart || f % 0x2000 == 0)
            && (written == total - testLength || (written - f) % 0x2000 == 0)
  {
    if ratio >= 100 {
      WholeBudget(testLength, total, ratio);
    }
  }

  // ----- Checking that an erased area is clean -----

  // The first word of every sector.
  type FirstWords = nat -> Word

  predicate CleanWord(w: Word) {
    w == 0 || w == TWO_TO_THE_32 - 1
  }

  // The first word of page k of the area that begins at start.
  function PageWord(dev: FirstWords, start: nat, k: nat): Word {
    dev(start + k * SECTORS_PER_PAGE)
  }

  // Of n whole pages from start on, the index of the first whose first word is not
  // all zeros or all ones; n when there is none.
  function FirstDirty(dev: FirstWords, start: nat, k: nat, n: nat): (r: nat)
    requires k <= n
    ensures k <= r <= n
    decreases n - k
  {
    if k < n && CleanWord(PageWord(dev, start, k)) then FirstDirty(dev, start, k + 1, n) else k
  }

  lemma {:induction false} FirstDirtyMeans(dev: FirstWords, start: nat, k: nat, n: nat)
    requires k <= n
    ensures var r := FirstDirty(dev, start, k, n);
            && (forall j: nat :: k <= j < r ==> CleanWord(PageWord(dev, start, j)))
            && (r < n ==> !CleanWord(PageWord(dev, start, r)))
    decreases n - k
  {
    if k < n && CleanWord(PageWord(dev, start, k)) {
      FirstDirtyMeans(dev, start, k + 1, n);
    }
  }

  // The check ends well, finds a sector that is not clean, or -- when all is clean but
  // less than a second has passed -- divides by zero computing the speed it reports.
  datatype Verdict = CleanDevice(speed: nat) | NotClean(sector: nat) | DividesByZero

  // The pages of one block, which starts at page k of the area.
  method CheckBlock(dev: FirstWords, i: nat, checkCount: nat, ghost start: nat, ghost k: nat, ghost n: nat)
    returns (j: nat)
    requires i == start + k * SECTORS_PER_PAGE && k + checkCount <= n
    ensures j <= checkCount
    ensures j < checkCount ==> FirstDirty(dev, start, k, n) == k + j
    ensures j == checkCount ==> FirstDirty(dev, start, k, n) == FirstDirty(dev, start, k + checkCount, n)
  {
    j := 0;
    while j < checkCount
      invariant j <= checkCount && FirstDirty(dev, start, k, n) == FirstDirty(dev, start, k + j, n)
    {
      var data := dev(i + j * SECTORS_PER_PAGE);
      assert data == PageWord(dev, start, k + j);
      if data != 0 && data != TWO_TO_THE_32 - 1 {
        return;
      }
      j := j + 1;
    }
  }

  // Block by block the check is the flat one over all whole pages of the area; what
  // is left of a last page is not looked at.
  method CheckEraseZeroCondition(dev: FirstWords, start: nat, length: nat, seconds: nat) returns (v: Verdict)
    ensures var n := length / SECTORS_PER_PAGE;
            var first := FirstDirty(dev, start, 0, n);
            v == if first < n then NotClean(start + first * SECTORS_PER_PAGE)
                 else if seconds == 0 then DividesByZero
                 else CleanDevice(length * SECTOR_SIZE / seconds / 1000)
  {
    var end := start + length;
    var readCount := FILL_BLOCK_CNT;
    var i := start;
    ghost var n := length / SECTORS_PER_PAGE;
    ghost var k: nat := 0;
    while i < end
      invariant start <= i <= end
      invariant k <= n && (i < end ==> i == start + k * SECTORS_PER_PAGE && readCount == FILL_BLOCK_CNT)
      invariant i == end ==> k == n
      invariant FirstDirty(dev, start, 0, n) == FirstDirty(dev, start, k, n)
    {
      if i + readCount > end {
        readCount := end - i;
      }
      var checkCount := readCount / SECTORS_PER_PAGE;
      assert k + checkCount <= n && (i + readCount == end ==> k + checkCount == n);
      var j := CheckBlock(dev, i, checkCount, start, k, n);
      if j < checkCount {
        return NotClean(i + j * SECTORS_PER_PAGE);
      }
      k := k + checkCount;
      i := i + readCount;
    }
    if seconds == 0 {
      return DividesByZero;
    }
    v := CleanDevice(length * SECTOR_SIZE / seconds / 1000);
  }

  // The first word of page j is all zeros or all ones.
  ghost predicate PageIsClean(dev: FirstWords, start: nat, j: nat) {
    dev(start + 8 * j) == 0 || dev(start + 8 * j) == 0xFFFF_FFFF
  }

  // The page reported is the first that is not clean.
  lemma FirstDirtyIs(dev: FirstWords, start: nat, length: nat, k: nat)
    requires k < length / 8
    ensures FirstDirty(dev, start, 0, length / 8) == k <==>
            !PageIsClean(dev, start, k) && forall j: nat :: j < k ==> PageIsClean(dev, start, j)
  {
    var n := length / 8;
    var r := FirstDirty(dev, start, 0, n);
    FirstDirtyMeans(dev, start, 0, n);
    forall j: nat | j < r ensures PageIsClean(dev, start, j) {
      assert CleanWord(PageWord(dev, start, j));
    }
    if r < n {
      assert !CleanWord(PageWord(dev, start, r));
      assert !PageIsClean(dev, start, r);
    }
  }

  // The check passes every page, by its first word, exactly when none is dirty.
  lemma CleanIff(dev: FirstWords, start: nat, length: nat)
    ensures FirstDirty(dev, start, 0, length / SECTORS_PER_PAGE) == length / SECTORS_PER_PAGE <==>
            forall x: nat ::
              start <= x && x + SECTORS_PER_PAGE <= start + length && (x - start) % SECTORS_PER_PAGE == 0 ==>
                               dev(x) == 0 || dev(x) == 0xFFFF_FFFF
  {
    var n := length / SECTORS_PER_PAGE;
    var r := FirstDirty(dev, start, 0, n);
    FirstDirtyMeans(dev, start, 0, n);
    if r == n {
      forall x: nat | start <= x && x + SECTORS_PER_PAGE <= start + length && (x - start) % SECTORS_PER_PAGE == 0
        ensures CleanWord(dev(x))
      {
        var j := (x - start) / SECTORS_PER_PAGE;
        assert x == start + j * SECTORS_PER_PAGE && j < n;
        assert CleanWord(PageWord(dev, start, j));
      }
    } else {
      var x := start + r * SECTORS_PER_PAGE;
      assert x + SECTORS_PER_PAGE <= start + length && !CleanWord(PageWord(dev, start, r));
    }
  }
}
