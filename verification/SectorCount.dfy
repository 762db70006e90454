// Request sizes drawn from the write generator, and exactly which sizes each of
// the seven distributions can give.
module SectorCount {
  import opened Types
  import opened DivMod
  import opened Well512

  const KINDS := 7

  // (rand % ((max - min) / 8 + 1)) * 8 + min
  function Between(r: nat, min: nat, max: nat): nat
    requires SECTORS_PER_PAGE <= min < max
  {
    r % ((max - min) / SECTORS_PER_PAGE + 1) * SECTORS_PER_PAGE + min
  }

  function Doubled(k: nat): nat {
    if k == 0 then 16 else 2 * Doubled(k - 1)
  }

  // The size of kind `num` for a draw r; other kinds have no size.
  function Sectors(num: int, r: nat): nat {
    match num
    case 1 => var k := r % 120; if k < 61 then k / 15 * 8 + 8 else (k - 60) * 8 + 40
    case 2 => Between(r, 64, 512)
    case 3 => var k := r % 336; if k < 85 then k / 21 * 8 + 8 else (k - 84) * 8 + 40
    case 4 => Between(r, 64, 1024)
    case 5 => Between(r, 8, 512)
    case 6 => Between(r, 8, 1024)
    case 7 => var k := r % 35; if k < 28 then 8 else Doubled(k - 28)
    case _ => 0
  }

  predicate PagesBetween(n: nat, min: nat, max: nat) {
    min <= n <= max && n % SECTORS_PER_PAGE == 0
  }

  // The sizes of each kind: whole pages of a range, or 8 and the doublings of 16.
  predicate Possible(num: int, n: nat) {
    match num
    case 1 => PagesBetween(n, 8, 512)
    case 2 => PagesBetween(n, 64, 512)
    case 3 => PagesBetween(n, 8, 2048)
    case 4 => PagesBetween(n, 64, 1024)
    case 5 => PagesBetween(n, 8, 512)
    case 6 => PagesBetween(n, 8, 1024)
    case 7 => n in {8, 16, 32, 64, 128, 256, 512, 1024}
    case _ => n == 0
  }

  lemma BetweenIsWhole(r: nat, min: nat, max: nat)
    requires SECTORS_PER_PAGE <= min < max && min % SECTORS_PER_PAGE == 0 && max % SECTORS_PER_PAGE == 0
    ensures PagesBetween(Between(r, min, max), min, max)
  {
    var k := r % ((max - min) / SECTORS_PER_PAGE + 1);
    assert k <= (max - min) / SECTORS_PER_PAGE;
  }

  lemma BetweenHits(n: nat, min: nat, max: nat)
    requires SECTORS_PER_PAGE <= min < max && min % SECTORS_PER_PAGE == 0 && max % SECTORS_PER_PAGE == 0
    requires PagesBetween(n, min, max)
    ensures Between((n - min) / SECTORS_PER_PAGE, min, max) == n
  {
    var (k, cap) := ((n - min) / SECTORS_PER_PAGE, (max - min) / SECTORS_PER_PAGE + 1);
    assert k < cap && n == k * SECTORS_PER_PAGE + min;
    DivUnique(k, cap, 0, k);
  }

  lemma DoubledValues()
    ensures Doubled(0) == 16 && Doubled(1) == 32 && Doubled(2) == 64 && Doubled(3) == 128
    ensures Doubled(4) == 256 && Doubled(5) == 512 && Doubled(6) == 1024
  {
    assert Doubled(2) == 2 * Doubled(1) && Doubled(4) == 2 * Doubled(3) && Doubled(6) == 2 * Doubled(5);
  }

  lemma SectorsPossible(num: int, r: nat)
    ensures Possible(num, Sectors(num, r))
  {
    match num
    case 1 =>
    case 2 => BetweenIsWhole(r, 64, 512);
    case 3 =>
    case 4 => BetweenIsWhole(r, 64, 1024);
    case 5 => BetweenIsWhole(r, 8, 512);
    case 6 => BetweenIsWhole(r, 8, 1024);
    case 7 => DoubledValues();
    case _ =>
  }

  // A draw that gives size n.
  function Witness(num: int, n: nat): (r: Word)
    requires Possible(num, n)
  {
    match num
    case 1 => if n <= 40 then (n - 8) / 8 * 15 else (n - 40) / 8 + 60
    case 2 => (n - 64) / 8
    case 3 => if n <= 40 then (n - 8) / 8 * 21 else (n - 40) / 8 + 84
    case 4 => (n - 64) / 8
    case 5 => (n - 8) / 8
    case 6 => (n - 8) / 8
    case 7 =>
      if n == 8 then 0 else if n == 16 then 28 else if n == 32 then 29 else if n == 64 then 30
      else if n == 128 then 31 else if n == 256 then 32 else if n == 512 then 33 else 34
    case _ => 0
  }

  lemma FirstHits(n: nat)
    requires PagesBetween(n, 8, 512)
    ensures Sectors(1, Witness(1, n)) == n
  {
    var m := (n - 8) / 8;
    assert n == 8 * m + 8;
    if n <= 40 {
      assert 15 * m % 120 == 15 * m && 15 * m / 15 == m;
    } else {
      assert (n - 40) / 8 == m - 4;
      assert (m + 56) % 120 == m + 56;
    }
  }

  lemma ThirdHits(n: nat)
    requires PagesBetween(n, 8, 2048)
    ensures Sectors(3, Witness(3, n)) == n
  {
    var m := (n - 8) / 8;
    assert n == 8 * m + 8;
    if n <= 40 {
      assert 21 * m % 336 == 21 * m && 21 * m / 21 == m;
    } else {
      assert (n - 40) / 8 == m - 4;
      assert (m + 80) % 336 == m + 80;
    }
  }

  lemma SeventhHits(n: nat)
    requires Possible(7, n)
    ensures Sectors(7, Witness(7, n)) == n
  {
    DoubledValues();
  }

  lemma WitnessHits(num: int, n: nat)
    requires Possible(num, n)
    ensures Sectors(num, Witness(num, n)) == n
  {
    match num
    case 1 => FirstHits(n);
    case 2 => BetweenHits(n, 64, 512);
    case 3 => ThirdHits(n);
    case 4 => BetweenHits(n, 64, 1024);
    case 5 => BetweenHits(n, 8, 512);
    case 6 => BetweenHits(n, 8, 1024);
    case 7 => SeventhHits(n);
    case _ =>
  }

  // Each kind gives exactly its possible sizes.
  lemma SectorsImage(num: int, n: nat)
    ensures (exists r: Word :: Sectors(num, r) == n) <==> Possible(num, n)
  {
    if exists r: Word :: Sectors(num, r) == n {
      var r: Word :| Sectors(num, r) == n;
      SectorsPossible(num, r);
    }
    if Possible(num, n) {
      WitnessHits(num, n);
    }
  }

  // ----- How often each size comes -----

  // A draw counts modulo the period of its kind ...
  function Period(num: int): nat {
    match num
    case 1 => 120
    case 2 => 57
    case 3 => 336
    case 4 => 121
    case 5 => 64
    case 6 => 128
    case 7 => 35
    case _ => 1
  }

  // ... of which so many residues, from the witness on, give size n.
  function Share(num: int, n: nat): nat {
    match num
    case 1 => if n <= 32 then 15 else 1
    case 3 => if n <= 32 then 21 else 1
    case 7 => if n == 8 then 28 else 1
    case _ => 1
  }

  ghost predicate Among(num: int, n: nat, k: nat)
    requires Possible(num, n)
  {
    Witness(num, n) <= k < Witness(num, n) + Share(num, n)
  }

  lemma FirstShare(r: nat, n: nat)
    requires Possible(1, n)
    ensures Sectors(1, r) == n <==> Among(1, n, r % 120)
  {
    var (k, m) := (r % 120, (n - 8) / 8);
    assert n == 8 * m + 8;
    assert n > 40 ==> (n - 40) / 8 == m - 4;
  }

  lemma ThirdShare(r: nat, n: nat)
    requires Possible(3, n)
    ensures Sectors(3, r) == n <==> Among(3, n, r % 336)
  {
    var (k, m) := (r % 336, (n - 8) / 8);
    assert n == 8 * m + 8;
    assert n > 40 ==> (n - 40) / 8 == m - 4;
  }

  lemma SeventhShare(r: nat, n: nat)
    requires Possible(7, n)
    ensures Sectors(7, r) == n <==> Among(7, n, r % 35)
  {
    DoubledValues();
    var k := r % 35;
    assert k < 28 || k == 28 || k == 29 || k == 30 || k == 31 || k == 32 || k == 33 || k == 34;
  }

  // Over one period of draws each size comes as often as its share says.
  lemma SizeShares(num: int, r: nat, n: nat)
    requires 1 <= num <= KINDS && Possible(num, n)
    ensures Sectors(num, r) == n <==> Among(num, n, r % Period(num))
    ensures Witness(num, n) + Share(num, n) <= Period(num)
  {
    match num
    case 1 => FirstShare(r, n);
    case 3 => ThirdShare(r, n);
    case 7 => SeventhShare(r, n);
    case _ =>
  }

  method RandomSectorCount(g: Generator, num: int) returns (n: nat)
    requires g.Valid()
    modifies g, g.state
    ensures g.Valid() && Possible(num, n)
    ensures if 1 <= num <= KINDS then g.View() == Step(old(g.View())) && n == Sectors(num, Draw(old(g.View())) as nat)
            else g.View() == old(g.View()) && n == 0
  {
    n := 0;
    if 1 <= num <= KINDS {
      var r := g.WriteRand();
      n := Sectors(num, r as nat);
      SectorsPossible(num, r as nat);
    }
  }
}
