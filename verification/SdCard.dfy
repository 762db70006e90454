// The SD card as sectors of 512 bytes, and the dump format: bytes in consecutive
// sectors, the last one padded with zeros.
module SdCard {
  import opened Types

  type Sectors = map<nat, seq<Byte>>

  ghost predicate Formatted(c: Sectors) {
    forall k :: k in c ==> |c[k]| == SECTOR_SIZE
  }

  function Zeros(n: nat): (z: seq<Byte>)
    ensures |z| == n
    ensures forall i :: 0 <= i < n ==> z[i] == 0
  {
    seq(n, _ => 0)
  }

  function SectorsFor(length: nat): nat {
    (length + SECTOR_SIZE - 1) / SECTOR_SIZE
  }

  function SectorOf(bs: seq<Byte>, j: nat): (s: seq<Byte>)
    requires SECTOR_SIZE * j < |bs|
    ensures |s| == SECTOR_SIZE
  {
    var part := if SECTOR_SIZE * (j + 1) <= |bs| then bs[SECTOR_SIZE * j..SECTOR_SIZE * (j + 1)]
                else bs[SECTOR_SIZE * j..];
    part + Zeros(SECTOR_SIZE - |part|)
  }

  lemma SectorInRange(length: nat, j: nat)
    ensures j < SectorsFor(length) <==> SECTOR_SIZE * j < length
  {
  }

  // The sectors after the first n sectors of bs are written from `start` on.
  function SaveFirst(c: Sectors, bs: seq<Byte>, start: nat, n: nat): (d: Sectors)
    requires n <= SectorsFor(|bs|)
    ensures Formatted(c) ==> Formatted(d)
  {
    if n == 0 then c
    else
      SectorInRange(|bs|, n - 1);
      SaveFirst(c, bs, start, n - 1)[start + n - 1 := SectorOf(bs, n - 1)]
  }

  function SaveDump(c: Sectors, bs: seq<Byte>, start: nat): (d: Sectors)
    ensures Formatted(c) ==> Formatted(d)
  {
    SaveFirst(c, bs, start, SectorsFor(|bs|))
  }

  // A dump changes exactly its own extent.
  lemma {:induction false} SaveFirstAt(c: Sectors, bs: seq<Byte>, start: nat, n: nat, k: nat)
    requires n <= SectorsFor(|bs|)
    ensures var d := SaveFirst(c, bs, start, n);
            if start <= k < start + n
            then SECTOR_SIZE * (k - start) < |bs| && k in d && d[k] == SectorOf(bs, k - start)
            else (k in d <==> k in c) && (k in c ==> d[k] == c[k])
  {
    if n > 0 {
      SectorInRange(|bs|, n - 1);
      SaveFirstAt(c, bs, start, n - 1, k);
    }
  }

  predicate Present(c: Sectors, start: nat, n: nat) {
    forall k :: start <= k < start + n ==> k in c
  }

  // n sectors read one after another.
  function ReadSectors(c: Sectors, start: nat, n: nat): seq<Byte>
    requires Present(c, start, n)
  {
    if n == 0 then [] else ReadSectors(c, start, n - 1) + c[start + n - 1]
  }

  lemma {:induction false} ReadLength(c: Sectors, start: nat, n: nat)
    requires Present(c, start, n) && Formatted(c)
    ensures |ReadSectors(c, start, n)| == SECTOR_SIZE * n
  {
    if n > 0 {
      ReadLength(c, start, n - 1);
    }
  }

  function Padded(bs: seq<Byte>): (p: seq<Byte>)
    ensures |p| == SECTOR_SIZE * SectorsFor(|bs|)
    ensures bs <= p && forall i :: |bs| <= i < |p| ==> p[i] == 0
  {
    bs + Zeros(SECTOR_SIZE * SectorsFor(|bs|) - |bs|)
  }

  // Sector k of d is the right one of the dump of bs that starts at `start`.
  ghost predicate HoldsAt(d: Sectors, bs: seq<Byte>, start: nat, k: nat) {
    start <= k && SECTOR_SIZE * (k - start) < |bs| && k in d && d[k] == SectorOf(bs, k - start)
  }

  ghost predicate Holds(d: Sectors, bs: seq<Byte>, start: nat) {
    forall k: nat :: start <= k < start + SectorsFor(|bs|) ==> HoldsAt(d, bs, start, k)
  }

  lemma {:induction false} ReadHeld(d: Sectors, bs: seq<Byte>, start: nat, n: nat)
    requires n <= SectorsFor(|bs|) && Holds(d, bs, start) && Present(d, start, n)
    ensures ReadSectors(d, start, n) == Padded(bs)[..SECTOR_SIZE * n]
  {
    if n > 0 {
      ReadHeld(d, bs, start, n - 1);
      assert HoldsAt(d, bs, start, start + n - 1);
      assert SectorOf(bs, n - 1) == Padded(bs)[SECTOR_SIZE * (n - 1)..SECTOR_SIZE * n];
    }
  }

  lemma HeldPresent(d: Sectors, bs: seq<Byte>, start: nat)
    requires Holds(d, bs, start)
    ensures Present(d, start, SectorsFor(|bs|))
  {
    forall k | start <= k < start + SectorsFor(|bs|) ensures k in d {
      assert HoldsAt(d, bs, start, k);
    }
  }

  lemma SavedHolds(c: Sectors, bs: seq<Byte>, start: nat)
    ensures Holds(SaveDump(c, bs, start), bs, start)
  {
    forall k: nat | start <= k < start + SectorsFor(|bs|) ensures HoldsAt(SaveDump(c, bs, start), bs, start, k) {
      SaveFirstAt(c, bs, start, SectorsFor(|bs|), k);
    }
  }

  // A dump elsewhere leaves it in place.
  lemma HeldAfterOther(d: Sectors, bs: seq<Byte>, start: nat, other: seq<Byte>, at: nat)
    requires Holds(d, bs, start)
    requires at + SectorsFor(|other|) <= start || start + SectorsFor(|bs|) <= at
    ensures Holds(SaveDump(d, other, at), bs, start)
  {
    forall k: nat | start <= k < start + SectorsFor(|bs|) ensures HoldsAt(SaveDump(d, other, at), bs, start, k) {
      assert HoldsAt(d, bs, start, k);
      SaveFirstAt(d, other, at, SectorsFor(|other|), k);
    }
  }

  lemma ReadWhole(d: Sectors, bs: seq<Byte>, start: nat)
    requires Holds(d, bs, start)
    ensures Present(d, start, SectorsFor(|bs|))
    ensures ReadSectors(d, start, SectorsFor(|bs|)) == Padded(bs)
  {
    HeldPresent(d, bs, start);
    ReadHeld(d, bs, start, SectorsFor(|bs|));
    assert Padded(bs)[..SECTOR_SIZE * SectorsFor(|bs|)] == Padded(bs);
  }

  // What is in memory behind the bytes of a loaded dump of this length: zeros up
  // to the end of its last sector, then what was there before.
  function Behind(buf: seq<Byte>, length: nat): seq<Byte>
    requires SECTOR_SIZE * SectorsFor(length) <= |buf|
  {
    Zeros(SECTOR_SIZE * SectorsFor(length) - length) + buf[SECTOR_SIZE * SectorsFor(length)..]
  }

  // Loading a dump gives back its bytes, in ceil(length / 512) sectors.
  lemma DumpRoundTrip(d: Sectors, bs: seq<Byte>, start: nat, buf: seq<Byte>)
    requires Holds(d, bs, start) && SECTOR_SIZE * SectorsFor(|bs|) <= |buf|
    ensures Present(d, start, SectorsFor(|bs|))
    ensures LoadDump(d, buf, |bs|, start) == bs + Behind(buf, |bs|)
  {
    ReadWhole(d, bs, start);
    Regroup(bs, Zeros(SECTOR_SIZE * SectorsFor(|bs|) - |bs|), buf[SECTOR_SIZE * SectorsFor(|bs|)..]);
  }

  lemma Regroup(a: seq<Byte>, b: seq<Byte>, c: seq<Byte>)
    ensures a + b + c == a + (b + c)
  {
  }

  // What a load leaves in memory: the sectors read, then whatever was there.
  function LoadDump(c: Sectors, buf: seq<Byte>, length: nat, start: nat): seq<Byte>
    requires Present(c, start, SectorsFor(length))
    requires SECTOR_SIZE * SectorsFor(length) <= |buf|
  {
    ReadSectors(c, start, SectorsFor(length)) + buf[SECTOR_SIZE * SectorsFor(length)..]
  }

  function Cleared(c: Sectors, start: nat, count: nat): (d: Sectors)
    ensures Formatted(c) ==> Formatted(d)
  {
    if count == 0 then c else Cleared(c, start, count - 1)[start + count - 1 := Zeros(SECTOR_SIZE)]
  }

  // Exactly those sectors become 512 zero bytes.
  lemma {:induction false} ClearedAt(c: Sectors, start: nat, count: nat, k: nat)
    ensures var d := Cleared(c, start, count);
            if start <= k < start + count then k in d && |d[k]| == 512 && forall i :: 0 <= i < 512 ==> d[k][i] == 0
            else (k in d <==> k in c) && (k in c ==> d[k] == c[k])
  {
    if count > 0 {
      ClearedAt(c, start, count - 1, k);
    }
  }

  // Byte i of a dump is byte i % 512 of its sector i / 512, and zeros follow the last.
  lemma HeldByte(d: Sectors, bs: seq<Byte>, start: nat, i: nat)
    requires Holds(d, bs, start) && i / 512 * 512 < |bs|
    ensures var k := start + i / 512;
            k in d && |d[k]| == 512 && d[k][i % 512] == if i < |bs| then bs[i] else 0
  {
    var (j, r) := (i / 512, i % 512);
    SectorInRange(|bs|, j);
    assert HoldsAt(d, bs, start, start + j);
    assert i == 512 * j + r;
  }

  method CopyIn(buf: array<Byte>, offset: nat, s: seq<Byte>)
    requires offset + |s| <= buf.Length
    modifies buf
    ensures buf[..] == old(buf[..])[..offset] + s + old(buf[..])[offset + |s|..]
  {
    forall i | 0 <= i < |s| {
      buf[offset + i] := s[i];
    }
  }

  // One sector more copied behind what was read.
  lemma NextRead(r: seq<Byte>, before: seq<Byte>, offset: nat, s: seq<Byte>)
    requires |r| == offset && offset + |s| <= |before|
    ensures (r + before[offset..])[..offset] + s + (r + before[offset..])[offset + |s|..] ==
            r + s + before[offset + |s|..]
  {
  }

  method CopyNext(buf: array<Byte>, offset: nat, s: seq<Byte>, ghost r: seq<Byte>, ghost before: seq<Byte>)
    requires |r| == offset && offset + |s| <= |before| == buf.Length && buf[..] == r + before[offset..]
    modifies buf
    ensures buf[..] == r + s + before[offset + |s|..]
  {
    NextRead(r, before, offset, s);
    CopyIn(buf, offset, s);
  }

  class Card {
    var sectors: Sectors

    constructor ()
      ensures sectors == map[]
    {
      sectors := map[];
    }

    method SaveCrashDump(buf: array<Byte>, length: nat, start: nat) returns (used: nat)
      requires length <= buf.Length && Formatted(sectors)
      modifies this
      ensures used == SectorsFor(length) && Formatted(sectors)
      ensures sectors == SaveDump(old(sectors), buf[..length], start)
    {
      var left: int := length;
      var offset := 0;
      used := 0;
      while left > 0
        invariant offset == SECTOR_SIZE * used && left == length - offset
        invariant used <= SectorsFor(length)
        invariant sectors == SaveFirst(old(sectors), buf[..length], start, used)
      {
        var temp := MakeSector(buf, offset, if left > SECTOR_SIZE then SECTOR_SIZE else left);
        assert temp == SectorOf(buf[..length], used);
        sectors := sectors[start + used := temp];
        left := left - SECTOR_SIZE;
        offset := offset + SECTOR_SIZE;
        used := used + 1;
      }
    }

    // n bytes of the buffer in a zeroed sector.
    static method MakeSector(buf: array<Byte>, offset: nat, n: nat) returns (s: seq<Byte>)
      requires offset + n <= buf.Length && n <= SECTOR_SIZE
      ensures s == buf[offset..offset + n] + Zeros(SECTOR_SIZE - n)
    {
      var temp := new Byte[SECTOR_SIZE](_ => 0);
      forall i | 0 <= i < n {
        temp[i] := buf[offset + i];
      }
      s := temp[..];
    }

    method LoadSector(buf: array<Byte>, offset: nat, start: nat, used: nat, ghost before: seq<Byte>)
      requires Formatted(sectors) && Present(sectors, start, used + 1) && offset == SECTOR_SIZE * used
      requires offset + SECTOR_SIZE <= |before| == buf.Length
      requires buf[..] == ReadSectors(sectors, start, used) + before[offset..]
      modifies buf
      ensures buf[..] == ReadSectors(sectors, start, used + 1) + before[offset + SECTOR_SIZE..]
    {
      ReadLength(sectors, start, used);
      CopyNext(buf, offset, sectors[start + used], ReadSectors(sectors, start, used), before);
    }

    method LoadCrashDump(buf: array<Byte>, length: nat, start: nat) returns (used: nat)
      requires Formatted(sectors) && Present(sectors, start, SectorsFor(length))
      requires SECTOR_SIZE * SectorsFor(length) <= buf.Length
      modifies buf
      ensures used == SectorsFor(length)
      ensures buf[..] == LoadDump(sectors, old(buf[..]), length, start)
    {
      var left: int := length;
      var offset := 0;
      used := 0;
      ghost var before := buf[..];
      while left > 0
        invariant offset == SECTOR_SIZE * used && left == length - offset
        invariant used <= SectorsFor(length)
        invariant buf[..] == ReadSectors(sectors, start, used) + before[offset..]
      {
        SectorInRange(length, used);
        LoadSector(buf, offset, start, used, before);
        left := left - SECTOR_SIZE;
        offset := offset + SECTOR_SIZE;
        used := used + 1;
      }
    }

    // Overwrites count sectors with zeros.
    method ClearSectors(start: nat, count: nat)
      requires Formatted(sectors)
      modifies this
      ensures sectors == Cleared(old(sectors), start, count)
    {
      var n := 0;
      while n < count
        invariant n <= count
        invariant sectors == Cleared(old(sectors), start, n)
      {
        sectors := sectors[start + n := Zeros(SECTOR_SIZE)];
        n := n + 1;
      }
    }
  }
}
