// Reading a known pattern back buffer by buffer, with and without leaving out the
// test area, and the sequential and random writes that precede it.
module Uecc {
  import opened Types
  import opened DivMod

  const SECTORS_PER_BUFFER := 0x4000
  const WORDS_PER_SECTOR := 64
  const WORDS_PER_BUFFER := 0x10_0000

  // The word at a position of the device, and of the reference buffer.
  type Words = nat -> nat

  // ----- The flat scan -----

  // Buffers that begin in sectors [from, to) are left out.
  predicate Skipped(p: nat, from: nat, to: nat) {
    from <= p / WORDS_PER_BUFFER * SECTORS_PER_BUFFER < to
  }

  predicate Bad(dev: Words, ref: Words, p: nat, from: nat, to: nat) {
    !Skipped(p, from, to) && dev(p) != ref(p % WORDS_PER_BUFFER)
  }

  // The first word in [p, n) that is compared and differs; n when there is none.
  function FirstBad(dev: Words, ref: Words, p: nat, n: nat, from: nat, to: nat): (r: nat)
    requires p <= n
    ensures p <= r <= n
    decreases n - p
  {
    if p < n && !Bad(dev, ref, p, from, to) then FirstBad(dev, ref, p + 1, n, from, to) else p
  }

  lemma {:induction false} FirstBadMeans(dev: Words, ref: Words, p: nat, n: nat, from: nat, to: nat)
    requires p <= n
    ensures var r := FirstBad(dev, ref, p, n, from, to);
            && (forall q: nat :: p <= q < r ==> !Bad(dev, ref, q, from, to))
            && (r < n ==> Bad(dev, ref, r, from, to))
    decreases n - p
  {
    if p < n && !Bad(dev, ref, p, from, to) {
      FirstBadMeans(dev, ref, p + 1, n, from, to);
    }
  }

  lemma {:induction false} NoneBad(dev: Words, ref: Words, p: nat, m: nat, n: nat, from: nat, to: nat)
    requires p <= m <= n
    requires forall q: nat :: p <= q < m ==> !Bad(dev, ref, q, from, to)
    ensures FirstBad(dev, ref, p, n, from, to) == FirstBad(dev, ref, m, n, from, to)
    decreases m - p
  {
    if p < m {
      NoneBad(dev, ref, p + 1, m, n, from, to);
    }
  }

  // ----- One buffer -----

  // Where the word k of buffer b lies.
  lemma InBuffer(b: nat, k: nat)
    requires k < WORDS_PER_BUFFER
    ensures var p := b * WORDS_PER_BUFFER + k;
            p / WORDS_PER_BUFFER == b && p % WORDS_PER_BUFFER == k
  {
    DivUnique(b * WORDS_PER_BUFFER + k, WORDS_PER_BUFFER, b, k);
  }

  method CompareBuffer(dev: Words, ref: Words, base: nat, wordLen: nat) returns (pos: nat)
    ensures pos <= wordLen
    ensures forall k: nat :: k < pos ==> dev(base + k) == ref(k)
    ensures pos < wordLen ==> dev(base + pos) != ref(pos)
  {
    pos := 0;
    while pos != wordLen
      invariant pos <= wordLen && forall k: nat :: k < pos ==> dev(base + k) == ref(k)
    {
      if dev(base + pos) != ref(pos) {
        return;
      }
      pos := pos + 1;
    }
  }

  lemma BufferScanned(dev: Words, ref: Words, b: nat, pos: nat, len: nat, n: nat, from: nat, to: nat)
    requires pos <= len <= WORDS_PER_BUFFER && b * WORDS_PER_BUFFER + len <= n
    requires !(from <= b * SECTORS_PER_BUFFER < to)
    requires forall k: nat :: k < pos ==> dev(b * WORDS_PER_BUFFER + k) == ref(k)
    requires pos < len ==> dev(b * WORDS_PER_BUFFER + pos) != ref(pos)
    ensures var p := b * WORDS_PER_BUFFER;
            FirstBad(dev, ref, p, n, from, to) ==
            if pos < len then p + pos else FirstBad(dev, ref, p + len, n, from, to)
  {
    var p := b * WORDS_PER_BUFFER;
    NoneOfBuffer(dev, ref, b, p, pos, n, from, to);
    if pos < len {
      WordOfBuffer(dev, ref, b, pos, from, to);
      FirstIsBad(dev, ref, p + pos, n, from, to);
    }
  }

  lemma NoneOfBuffer(dev: Words, ref: Words, b: nat, p: nat, pos: nat, n: nat, from: nat, to: nat)
    requires p == b * WORDS_PER_BUFFER && pos <= WORDS_PER_BUFFER && p + pos <= n
    requires !(from <= b * SECTORS_PER_BUFFER < to) && forall k: nat :: k < pos ==> dev(p + k) == ref(k)
    ensures FirstBad(dev, ref, p, n, from, to) == FirstBad(dev, ref, p + pos, n, from, to)
  {
    forall q: nat | p <= q < p + pos ensures !Bad(dev, ref, q, from, to) {
      assert dev(p + (q - p)) == ref(q - p);
      WordOfBuffer(dev, ref, b, q - p, from, to);
    }
    NoneBad(dev, ref, p, p + pos, n, from, to);
  }

  lemma WordOfBuffer(dev: Words, ref: Words, b: nat, k: nat, from: nat, to: nat)
    requires k < WORDS_PER_BUFFER && !(from <= b * SECTORS_PER_BUFFER < to)
    ensures var p := b * WORDS_PER_BUFFER + k;
            Bad(dev, ref, p, from, to) <==> dev(p) != ref(k)
  {
    InBuffer(b, k);
  }

  lemma FirstIsBad(dev: Words, ref: Words, p: nat, n: nat, from: nat, to: nat)
    requires p < n && Bad(dev, ref, p, from, to)
    ensures FirstBad(dev, ref, p, n, from, to) == p
  {
  }

  lemma BufferSkipped(dev: Words, ref: Words, b: nat, len: nat, n: nat, from: nat, to: nat)
    requires len <= WORDS_PER_BUFFER && b * WORDS_PER_BUFFER + len <= n
    requires from <= b * SECTORS_PER_BUFFER < to
    ensures var p := b * WORDS_PER_BUFFER;
            FirstBad(dev, ref, p, n, from, to) == FirstBad(dev, ref, p + len, n, from, to)
  {
    var p := b * WORDS_PER_BUFFER;
    forall q: nat | p <= q < p + len ensures !Bad(dev, ref, q, from, to) {
      InBuffer(b, q - p);
    }
    NoneBad(dev, ref, p, p + len, n, from, to);
  }

  // The sector of the first difference in the words of the first `sectors` sectors.
  ghost function Verdict(dev: Words, ref: Words, sectors: nat, from: nat, to: nat): Option<nat> {
    var n := sectors * WORDS_PER_SECTOR;
    var r := FirstBad(dev, ref, 0, n, from, to);
    if r < n then Some(r / WORDS_PER_SECTOR) else None
  }

  lemma SectorOfWord(b: nat, pos: nat)
    ensures (b * WORDS_PER_BUFFER + pos) / WORDS_PER_SECTOR == b * SECTORS_PER_BUFFER + pos / WORDS_PER_SECTOR
  {
    var p := b * WORDS_PER_BUFFER + pos;
    assert pos == pos / WORDS_PER_SECTOR * WORDS_PER_SECTOR + pos % WORDS_PER_SECTOR;
    DivUnique(p, WORDS_PER_SECTOR, b * SECTORS_PER_BUFFER + pos / WORDS_PER_SECTOR, pos % WORDS_PER_SECTOR);
  }

  // One turn of the scan: buffer b, of wLen sectors, at sector i.
  method ReadBuffer(dev: Words, ref: Words, i: nat, wLen: nat, testStart: nat, testEnd: nat, ghost b: nat, ghost n: nat)
    returns (crash: Option<nat>)
    requires i == b * SECTORS_PER_BUFFER && wLen <= SECTORS_PER_BUFFER && (i + wLen) * WORDS_PER_SECTOR <= n
    ensures crash.None? ==> FirstBad(dev, ref, i * WORDS_PER_SECTOR, n, testStart, testEnd) ==
                            FirstBad(dev, ref, (i + wLen) * WORDS_PER_SECTOR, n, testStart, testEnd)
    ensures crash.Some? ==> FirstBad(dev, ref, i * WORDS_PER_SECTOR, n, testStart, testEnd) < n
    ensures crash.Some? ==>
              crash.value == FirstBad(dev, ref, i * WORDS_PER_SECTOR, n, testStart, testEnd) / WORDS_PER_SECTOR
  {
    crash := None;
    var words := wLen * WORDS_PER_SECTOR;
    assert i * WORDS_PER_SECTOR == b * WORDS_PER_BUFFER;
    assert (i + wLen) * WORDS_PER_SECTOR == b * WORDS_PER_BUFFER + words;
    if testStart <= i < testEnd {
      BufferSkipped(dev, ref, b, words, n, testStart, testEnd);
    } else {
      var pos := CompareBuffer(dev, ref, i * WORDS_PER_SECTOR, words);
      BufferScanned(dev, ref, b, pos, words, n, testStart, testEnd);
      if pos < words {
        SectorOfWord(b, pos);
        crash := Some(i + pos / WORDS_PER_SECTOR);
      }
    }
  }

  // Buffer by buffer the scan gives what the flat scan gives: nothing when every
  // compared word is the repeated reference, else the sector of the first that is not.
  method ReadUeccVerify(dev: Words, ref: Words, endAddr: nat, testStart: nat, testEnd: nat) returns (crash: Option<nat>)
    ensures crash == Verdict(dev, ref, endAddr, testStart, testEnd)
  {
    var wLen := SECTORS_PER_BUFFER;
    var i: nat := 0;
    ghost var b: nat := 0;
    ghost var n := endAddr * WORDS_PER_SECTOR;
    while i < endAddr
      invariant i <= endAddr && (i < endAddr ==> i == b * SECTORS_PER_BUFFER && wLen == SECTORS_PER_BUFFER)
      invariant FirstBad(dev, ref, 0, n, testStart, testEnd) ==
                FirstBad(dev, ref, i * WORDS_PER_SECTOR, n, testStart, testEnd)
    {
      if i + wLen > endAddr {
        wLen := endAddr - i;
      }
      crash := ReadBuffer(dev, ref, i, wLen, testStart, testEnd, b, n);
      if crash.Some? {
        return;
      }
      i := i + wLen;
      b := b + 1;
    }
    return None;
  }

  // Success means that every word that is not left out is the repeated reference.
  lemma NoneMeans(dev: Words, ref: Words, sectors: nat, from: nat, to: nat)
    ensures Verdict(dev, ref, sectors, from, to) == None <==>
            forall p: nat :: p < sectors * WORDS_PER_SECTOR ==> !Bad(dev, ref, p, from, to)
  {
    FirstBadMeans(dev, ref, 0, sectors * WORDS_PER_SECTOR, from, to);
  }

  // The word is in a buffer that does not begin in sectors [from, to), and differs.
  ghost predicate SeenWrong(dev: Words, ref: Words, p: nat, from: nat, to: nat) {
    !(from <= p / 0x10_0000 * 0x4000 < to) && dev(p) != ref(p % 0x10_0000)
  }

  // The verdict names the sector of the first such word, and nothing when there is none.
  lemma VerdictIs(dev: Words, ref: Words, sectors: nat, from: nat, to: nat)
    ensures match Verdict(dev, ref, sectors, from, to)
            case None => forall p: nat :: p < sectors * 64 ==> !SeenWrong(dev, ref, p, from, to)
            case Some(x) =>
              x < sectors &&
              exists p: nat :: x * 64 <= p < (x + 1) * 64 && SeenWrong(dev, ref, p, from, to)
                               && forall q: nat :: q < p ==> !SeenWrong(dev, ref, q, from, to)
  {
    var (n, r) := (sectors * 64, FirstBad(dev, ref, 0, sectors * 64, from, to));
    FirstBadMeans(dev, ref, 0, n, from, to);
    forall p: nat ensures Bad(dev, ref, p, from, to) <==> SeenWrong(dev, ref, p, from, to) {
    }
    if r < n {
      assert r / 64 * 64 <= r < (r / 64 + 1) * 64;
      assert SeenWrong(dev, ref, r, from, to);
    }
  }

  // With nothing left out, that is the whole area.
  lemma WholeAreaMatches(dev: Words, ref: Words, sectors: nat)
    ensures Verdict(dev, ref, sectors, 0, 0) == None <==>
            forall p: nat :: p < sectors * WORDS_PER_SECTOR ==> dev(p) == ref(p % WORDS_PER_BUFFER)
  {
    NoneMeans(dev, ref, sectors, 0, 0);
    if forall p: nat :: p < sectors * WORDS_PER_SECTOR ==> !Bad(dev, ref, p, 0, 0) {
      forall p: nat | p < sectors * WORDS_PER_SECTOR ensures dev(p) == ref(p % WORDS_PER_BUFFER) {
        assert !Bad(dev, ref, p, 0, 0);
      }
    }
  }

  // ----- Leaving out the test area -----

  // The skipping scan takes the area to begin at sector 0 when it computes its end.
  function AreaEnd(testLength: nat, total: nat): nat {
    if testLength <= total then testLength else total
  }

  method ReadUeccOutside(dev: Words, ref: Words, testStart: nat, testLength: nat, total: nat)
    returns (crash: Option<nat>)
    ensures crash == Verdict(dev, ref, total, testStart, AreaEnd(testLength, total))
  {
    var startAddr := 0;
    var testEnd := if startAddr + testLength <= total then startAddr + testLength else total;
    crash := ReadUeccVerify(dev, ref, total, testStart, testEnd);
  }

  // Every word outside the test area is the repeated reference.
  ghost predicate OutsideMatches(dev: Words, ref: Words, testStart: nat, testLength: nat, total: nat) {
    forall p: nat ::
      p < total * WORDS_PER_SECTOR && !(testStart <= p / WORDS_PER_SECTOR < testStart + testLength) ==>
        dev(p) == ref(p % WORDS_PER_BUFFER)
  }

  // The scan decides that, for every device and reference.
  ghost predicate DecidesOutside(testStart: nat, testLength: nat, total: nat) {
    forall dev: Words, ref: Words ::
      Verdict(dev, ref, total, testStart, AreaEnd(testLength, total)) == None <==>
      OutsideMatches(dev, ref, testStart, testLength, total)
  }

  // The sectors it compares.
  predicate Compared(x: nat, testStart: nat, testLength: nat, total: nat) {
    !(testStart <= x / SECTORS_PER_BUFFER * SECTORS_PER_BUFFER < AreaEnd(testLength, total))
  }

  lemma SkippedIff(p: nat, testStart: nat, testLength: nat, total: nat)
    ensures Skipped(p, testStart, AreaEnd(testLength, total)) <==>
            !Compared(p / WORDS_PER_SECTOR, testStart, testLength, total)
  {
    var (b, k) := (p / WORDS_PER_BUFFER, p % WORDS_PER_BUFFER);
    assert p == b * WORDS_PER_BUFFER + k;
    SectorOfWord(b, k);
    DivUnique(p / WORDS_PER_SECTOR, SECTORS_PER_BUFFER, b, k / WORDS_PER_SECTOR);
  }

  ghost predicate ComparesOutside(testStart: nat, testLength: nat, total: nat) {
    forall x: nat :: x < total ==>
      (Compared(x, testStart, testLength, total) <==> !(testStart <= x < testStart + testLength))
  }

  lemma BufferStart(x: nat)
    ensures x / SECTORS_PER_BUFFER * SECTORS_PER_BUFFER <= x
            < x / SECTORS_PER_BUFFER * SECTORS_PER_BUFFER + SECTORS_PER_BUFFER
    ensures x / SECTORS_PER_BUFFER * SECTORS_PER_BUFFER % SECTORS_PER_BUFFER == 0
  {
  }

  // The verdict says nothing of a sector it leaves out, and something of each other.
  lemma DecidesWhenCompares(dev: Words, ref: Words, testStart: nat, testLength: nat, total: nat)
    requires ComparesOutside(testStart, testLength, total)
    ensures Verdict(dev, ref, total, testStart, AreaEnd(testLength, total)) == None <==>
            OutsideMatches(dev, ref, testStart, testLength, total)
  {
    var e := AreaEnd(testLength, total);
    NoneMeans(dev, ref, total, testStart, e);
    forall p: nat | p < total * WORDS_PER_SECTOR
      ensures Bad(dev, ref, p, testStart, e) <==>
              !(testStart <= p / WORDS_PER_SECTOR < testStart + testLength) && dev(p) != ref(p % WORDS_PER_BUFFER)
    {
      SkippedIff(p, testStart, testLength, total);
      assert p / WORDS_PER_SECTOR < total;
    }
  }

  // A device that differs from the reference in the first word of sector x only.
  function Differs(x: nat): Words {
    (p: nat) => if p == x * WORDS_PER_SECTOR then 1 else 0
  }

  lemma DiffersIsSeen(x: nat, testStart: nat, testLength: nat, total: nat)
    requires x < total
    ensures Verdict(Differs(x), _ => 0, total, testStart, AreaEnd(testLength, total)) == None <==>
            !Compared(x, testStart, testLength, total)
    ensures OutsideMatches(Differs(x), _ => 0, testStart, testLength, total) <==>
            testStart <= x < testStart + testLength
  {
    var dev: Words, ref: Words := Differs(x), _ => 0;
    var e := AreaEnd(testLength, total);
    var w := x * WORDS_PER_SECTOR;
    DivUnique(w, WORDS_PER_SECTOR, x, 0);
    SkippedIff(w, testStart, testLength, total);
    NoneMeans(dev, ref, total, testStart, e);
    assert Bad(dev, ref, w, testStart, e) <==> Compared(x, testStart, testLength, total);
    assert dev(w) != ref(w % WORDS_PER_BUFFER);
  }

  // The scan decides whether the sectors outside the test area match only when that
  // area begins at sector 0 and ends with a buffer, or is the whole device.
  lemma OutsideIff(testStart: nat, testLength: nat, total: nat)
    requires testLength > 0 && testStart + testLength <= total
    ensures DecidesOutside(testStart, testLength, total) <==>
            testStart == 0 && (testLength % SECTORS_PER_BUFFER == 0 || testLength == total)
  {
    ComparesIff(testStart, testLength, total);
    if DecidesOutside(testStart, testLength, total) {
      forall x: nat | x < total
        ensures Compared(x, testStart, testLength, total) <==> !(testStart <= x < testStart + testLength)
      {
        DiffersIsSeen(x, testStart, testLength, total);
      }
    }
    if ComparesOutside(testStart, testLength, total) {
      forall dev: Words, ref: Words
        ensures Verdict(dev, ref, total, testStart, AreaEnd(testLength, total)) == None <==>
                OutsideMatches(dev, ref, testStart, testLength, total)
      {
        DecidesWhenCompares(dev, ref, testStart, testLength, total);
      }
    }
  }

  lemma ComparesIff(testStart: nat, testLength: nat, total: nat)
    requires testLength > 0 && testStart + testLength <= total
    ensures ComparesOutside(testStart, testLength, total) <==>
            testStart == 0 && (testLength % SECTORS_PER_BUFFER == 0 || testLength == total)
  {
    if ComparesOutside(testStart, testLength, total) {
      OutsideNeeds(testStart, testLength, total);
    }
    if testStart == 0 && (testLength % SECTORS_PER_BUFFER == 0 || testLength == total) {
      forall x: nat | x < total
        ensures Compared(x, testStart, testLength, total) <==> !(testStart <= x < testStart + testLength)
      {
        BufferStart(x);
        if testLength % SECTORS_PER_BUFFER == 0 {
          BelowMultiple(x, testLength);
        }
      }
    }
  }

  lemma BelowMultiple(x: nat, m: nat)
    requires m % SECTORS_PER_BUFFER == 0
    ensures x / SECTORS_PER_BUFFER * SECTORS_PER_BUFFER < m <==> x < m
  {
    var (q, k) := (x / SECTORS_PER_BUFFER, m / SECTORS_PER_BUFFER);
    assert m == k * SECTORS_PER_BUFFER;
    BufferStart(x);
  }

  lemma OutsideNeeds(testStart: nat, testLength: nat, total: nat)
    requires testLength > 0 && testStart + testLength <= total && ComparesOutside(testStart, testLength, total)
    ensures testStart == 0 && (testLength % SECTORS_PER_BUFFER == 0 || testLength == total)
  {
    var last := testStart + testLength - 1;
    BufferStart(testStart);
    BufferStart(last);
    assert !Compared(testStart, testStart, testLength, total);
    assert !Compared(last, testStart, testLength, total);
    if testLength < total {
      BufferStart(testLength);
      assert testStart == 0 ==> Compared(testLength, testStart, testLength, total);
    }
  }

  // ----- Sequential write -----

  const GIGABYTE_SECTORS := 0x20_0000

  // The next write position: back to the start when the buffer does not fit.
  function Fitted(i: nat, start: nat, end: nat): nat {
    if i + SECTORS_PER_BUFFER > end then start else i
  }

  // The position of the w-th write of all rounds, counted from 0.
  function WriteAt(w: nat, start: nat, end: nat): nat {
    if w == 0 then Fitted(start, start, end)
    else Fitted(WriteAt(w - 1, start, end) + SECTORS_PER_BUFFER, start, end)
  }

  // The writes go round the buffers that fit in the area, in order.
  lemma {:induction false} WritesGoRound(w: nat, start: nat, end: nat)
    requires start + SECTORS_PER_BUFFER <= end
    ensures (end - start) / SECTORS_PER_BUFFER > 0
    ensures WriteAt(w, start, end) == start + w % ((end - start) / SECTORS_PER_BUFFER) * SECTORS_PER_BUFFER
  {
    var slots := (end - start) / SECTORS_PER_BUFFER;
    assert end - start == slots * SECTORS_PER_BUFFER + (end - start) % SECTORS_PER_BUFFER;
    if w == 0 {
      DivUnique(0, slots, 0, 0);
    } else {
      WritesGoRound(w - 1, start, end);
      var k := (w - 1) % slots;
      assert w - 1 == (w - 1) / slots * slots + k;
      if k + 1 < slots {
        DivUnique(w, slots, (w - 1) / slots, k + 1);
      } else {
        assert w == ((w - 1) / slots + 1) * slots + 0;
        DivUnique(w, slots, (w - 1) / slots + 1, 0);
      }
    }
  }

  // Where no buffer fits all of them go to the start.
  lemma {:induction false} WritesNeverFit(w: nat, start: nat, end: nat)
    requires end < start + 0x4000
    ensures WriteAt(w, start, end) == start
  {
    if w > 0 {
      WritesNeverFit(w - 1, start, end);
    }
  }

  // Every write of every round stays in the area exactly when one buffer fits in it.
  lemma SequentialContainedIff(start: nat, end: nat)
    requires start <= end
    ensures (forall w: nat ::
              start <= WriteAt(w, start, end) && WriteAt(w, start, end) + SECTORS_PER_BUFFER <= end) <==>
            start + SECTORS_PER_BUFFER <= end
  {
    if start + SECTORS_PER_BUFFER <= end {
      forall w: nat ensures start <= WriteAt(w, start, end) && WriteAt(w, start, end) + SECTORS_PER_BUFFER <= end {
        WriteInside(w, start, end);
      }
    } else {
      assert WriteAt(0, start, end) == start;
    }
  }

  lemma {:induction false} WriteInside(w: nat, start: nat, end: nat)
    requires start + SECTORS_PER_BUFFER <= end
    ensures start <= WriteAt(w, start, end) && WriteAt(w, start, end) + SECTORS_PER_BUFFER <= end
  {
    if w > 0 {
      WriteInside(w - 1, start, end);
    }
  }

  // The writes are those from the done-th on.
  ghost predicate WritesFrom(writes: seq<nat>, done: nat, start: nat, end: nat) {
    forall k :: 0 <= k < |writes| ==> writes[k] == WriteAt(done + k, start, end)
  }

  lemma WritesJoin(a: seq<nat>, b: seq<nat>, start: nat, end: nat)
    requires WritesFrom(a, 0, start, end) && WritesFrom(b, |a|, start, end)
    ensures WritesFrom(a + b, 0, start, end)
  {
    forall k | 0 <= k < |a + b| ensures (a + b)[k] == WriteAt(k, start, end) {
      if k >= |a| {
        assert (a + b)[k] == b[k - |a|];
      }
    }
  }

  // Where the round after the done-th write begins.
  ghost function NextStart(done: nat, start: nat, end: nat): nat {
    if done == 0 then start else WriteAt(done - 1, start, end) + SECTORS_PER_BUFFER
  }

  // One round: 2^21 sectors, in whole buffers, from where the round before ended.
  method SequentialRound(startAddr: nat, newStart: nat, endAddr: nat, ghost done: nat)
    returns (next: nat, writes: seq<nat>)
    requires startAddr == NextStart(done, newStart, endAddr)
    ensures |writes| * 0x4000 == 0x20_0000
    ensures WritesFrom(writes, done, newStart, endAddr) && next == NextStart(done + |writes|, newStart, endAddr)
  {
    var tot := 0;
    var i := startAddr;
    writes := [];
    while tot < GIGABYTE_SECTORS
      invariant tot == |writes| * SECTORS_PER_BUFFER <= GIGABYTE_SECTORS
      invariant WritesFrom(writes, done, newStart, endAddr)
      invariant i == NextStart(done + |writes|, newStart, endAddr)
    {
      if i + SECTORS_PER_BUFFER > endAddr {
        i := newStart;
      }
      assert i == WriteAt(done + |writes|, newStart, endAddr);
      writes := writes + [i];
      tot := tot + SECTORS_PER_BUFFER;
      i := i + SECTORS_PER_BUFFER;
    }
    next := i;
  }

  // All rounds: each writes 2^21 sectors and carries its end on to the next.
  method SequentialWrite(testStart: nat, testLength: nat, total: nat, rounds: nat) returns (writes: seq<nat>)
    ensures |writes| * 0x4000 == rounds * 0x20_0000
    ensures WritesFrom(writes, 0, testStart, if testStart + testLength > total then total else testStart + testLength)
  {
    var endAddr := testStart + testLength;
    if endAddr > total {
      endAddr := total;
    }
    var startAddr := testStart;
    writes := [];
    var loop := 0;
    while loop < rounds
      invariant loop <= rounds && |writes| * SECTORS_PER_BUFFER == loop * GIGABYTE_SECTORS
      invariant WritesFrom(writes, 0, testStart, endAddr)
      invariant startAddr == NextStart(|writes|, testStart, endAddr)
    {
      var next, round := SequentialRound(startAddr, testStart, endAddr, |writes|);
      WritesJoin(writes, round, testStart, endAddr);
      writes := writes + round;
      startAddr := next;
      loop := loop + 1;
    }
  }

  // ----- Random write -----

  const RANDOM_SECTORS := 8

  // The offset of a random write for a draw, in 32-bit arithmetic; an area of exactly
  // one page divides by zero.
  function RandomOffset(rand: Word, length: Word): Option<nat> {
    var m := (length - RANDOM_SECTORS) % TWO_TO_THE_32;
    if m == 0 then None else Some(rand * RANDOM_SECTORS % TWO_TO_THE_32 % m)
  }

  ghost predicate StaysInside(length: Word) {
    forall rand: Word ::
      RandomOffset(rand, length).Some? && RandomOffset(rand, length).value + RANDOM_SECTORS <= length
  }

  lemma OffsetInside(rand: Word, length: Word)
    requires length > RANDOM_SECTORS
    ensures RandomOffset(rand, length).Some? && RandomOffset(rand, length).value + RANDOM_SECTORS < length
  {
    assert (length - RANDOM_SECTORS) % TWO_TO_THE_32 == length - RANDOM_SECTORS;
  }

  lemma OffsetOutside(length: Word)
    requires length <= RANDOM_SECTORS
    ensures length == RANDOM_SECTORS ==> RandomOffset(1, length) == None
    ensures length < RANDOM_SECTORS ==> RandomOffset(1, length) == Some(RANDOM_SECTORS)
  {
    if length < RANDOM_SECTORS {
      var m: nat := length - RANDOM_SECTORS + TWO_TO_THE_32;
      DivUnique(length - RANDOM_SECTORS, TWO_TO_THE_32, -1, m);
      DivUnique(RANDOM_SECTORS, m, 0, RANDOM_SECTORS);
      assert RANDOM_SECTORS % TWO_TO_THE_32 == RANDOM_SECTORS;
    }
  }

  // Every page boundary in front of the last page is the offset of some draw.
  lemma OffsetReached(o: nat, length: Word)
    requires o % 8 == 0 && o + 8 < length
    ensures RandomOffset(o / 8, length) == Some(o)
  {
    DivUnique(length - RANDOM_SECTORS, TWO_TO_THE_32, 0, length - RANDOM_SECTORS);
    DivUnique(o, TWO_TO_THE_32, 0, o);
    DivUnique(o, length - RANDOM_SECTORS, 0, o);
  }

  // Every draw gives a page inside the area exactly when it is larger than a page.
  lemma RandomInsideIff(length: Word)
    ensures StaysInside(length) <==> length > RANDOM_SECTORS
  {
    if length > RANDOM_SECTORS {
      forall rand: Word
        ensures RandomOffset(rand, length).Some? && RandomOffset(rand, length).value + RANDOM_SECTORS <= length
      {
        OffsetInside(rand, length);
      }
    } else {
      OffsetOutside(length);
    }
  }

  // ----- Reading the pattern back after the random writes -----

  const WORDS_PER_WRITE := 512

  // One random write: the draw that places it, and its words.
  datatype Write = Write(rand: Word, data: Words)

  function Place(testStart: nat, length: Word, rand: Word): (at: nat)
    requires length > RANDOM_SECTORS
    ensures testStart <= at && at + RANDOM_SECTORS < testStart + length
  {
    OffsetInside(rand, length);
    testStart + RandomOffset(rand, length).value
  }

  // The device that holds the repeated reference, after some random writes.
  function Written(ref: Words, writes: seq<Write>, testStart: nat, length: Word): Words
    requires length > RANDOM_SECTORS
  {
    if writes == [] then (p: nat) => ref(p % WORDS_PER_BUFFER)
    else
      var last := writes[|writes| - 1];
      var before := Written(ref, writes[..|writes| - 1], testStart, length);
      Overwritten(before, Place(testStart, length, last.rand) * WORDS_PER_SECTOR, last.data)
  }

  function Overwritten(before: Words, at: nat, data: Words): Words {
    (p: nat) => if at <= p < at + WORDS_PER_WRITE then data(p - at) else before(p)
  }

  lemma {:induction false} WrittenBehind(ref: Words, writes: seq<Write>, testStart: nat, length: Word, p: nat)
    requires length > RANDOM_SECTORS && p < testStart * WORDS_PER_SECTOR
    ensures Written(ref, writes, testStart, length)(p) == ref(p % WORDS_PER_BUFFER)
  {
    if writes != [] {
      WrittenBehind(ref, writes[..|writes| - 1], testStart, length, p);
    }
  }

  // The scan of the first `length` sectors of the device finds nothing, whatever the
  // reference, the draws and the random words are.
  ghost predicate AlwaysPasses(testStart: nat, length: Word)
    requires length > RANDOM_SECTORS
  {
    forall ref: Words, writes: seq<Write> ::
      Verdict(Written(ref, writes, testStart, length), ref, length, 0, 0) == None
  }

  // That scan begins at sector 0, not at the test area, so it passes for sure only when
  // the test area begins behind it: then it reads nothing of the test area at all.
  lemma AlwaysPassesIff(testStart: nat, length: Word)
    requires length > RANDOM_SECTORS
    ensures AlwaysPasses(testStart, length) <==> testStart >= length
  {
    if testStart >= length {
      forall ref: Words, writes: seq<Write>
        ensures Verdict(Written(ref, writes, testStart, length), ref, length, 0, 0) == None
      {
        var dev := Written(ref, writes, testStart, length);
        WholeAreaMatches(dev, ref, length);
        forall p: nat | p < length * WORDS_PER_SECTOR ensures dev(p) == ref(p % WORDS_PER_BUFFER) {
          WrittenBehind(ref, writes, testStart, length, p);
        }
      }
    } else {
      FirstWriteSeen(testStart, length);
    }
  }

  lemma DrawZero(testStart: nat, length: Word)
    requires length > RANDOM_SECTORS
    ensures Place(testStart, length, 0) == testStart
  {
    OffsetInside(0, length);
    DivUnique(0, length - RANDOM_SECTORS, 0, 0);
  }

  lemma OneWrite(ref: Words, w: Write, testStart: nat, length: Word)
    requires length > RANDOM_SECTORS && w.rand == 0
    ensures Written(ref, [w], testStart, length)(testStart * WORDS_PER_SECTOR) == w.data(0)
  {
    DrawZero(testStart, length);
  }

  lemma WriteFound(ref: Words, w: Write, testStart: nat, length: Word)
    requires length > RANDOM_SECTORS && testStart < length
    requires w.rand == 0 && w.data(0) != ref(testStart * WORDS_PER_SECTOR % WORDS_PER_BUFFER)
    ensures Verdict(Written(ref, [w], testStart, length), ref, length, 0, 0) != None
  {
    OneWrite(ref, w, testStart, length);
    OneDiffers(Written(ref, [w], testStart, length), ref, length, testStart * WORDS_PER_SECTOR);
  }

  lemma FirstWriteSeen(testStart: nat, length: Word)
    requires length > RANDOM_SECTORS && testStart < length
    ensures !AlwaysPasses(testStart, length)
  {
    WriteFound(_ => 0, Write(0, _ => 1), testStart, length);
  }

  lemma OneDiffers(dev: Words, ref: Words, sectors: nat, p: nat)
    requires p < sectors * WORDS_PER_SECTOR && dev(p) != ref(p % WORDS_PER_BUFFER)
    ensures Verdict(dev, ref, sectors, 0, 0) != None
  {
    WholeAreaMatches(dev, ref, sectors);
  }
}
