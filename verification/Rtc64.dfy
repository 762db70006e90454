// A 64-bit tick from a 32-bit tick counter that wraps and a clock in seconds.
module Rtc64 {
  import opened Types

  const HALF := 0x8000_0000
  const NS_IN_SECOND := 1_000_000_000

  // Nanoseconds in a tick, rounded, and ticks in a second, of the three boards.
  datatype Board = Smdk | Yse | Lg {
    function Res(): nat {
      match this
      case Smdk => 30518
      case Yse => 41
      case Lg => 52
    }

    function Rate(): nat {
      match this
      case Smdk => 32768
      case Yse => 24_000_000
      case Lg => 19_200_000
    }
  }

  function Tick2Sec(b: Board, tick: Word): (s: Word) {
    TickBound(b, tick);
    tick * b.Res() / NS_IN_SECOND
  }

  lemma TickBound(b: Board, tick: Word)
    ensures 0 <= tick * b.Res() / NS_IN_SECOND < TWO_TO_THE_32
  {
    assert tick * b.Res() < NS_IN_SECOND * TWO_TO_THE_32;
  }

  // The whole seconds in so many ticks, by the board's nanoseconds in a tick.
  lemma WholeSeconds(b: Board, tick: Word)
    ensures var (s, ns) := (Tick2Sec(b, tick), match b case Smdk => 30518 case Yse => 41 case Lg => 52);
            s * 1_000_000_000 <= tick * ns < (s + 1) * 1_000_000_000
  {
  }

  function Sec2Tick(b: Board, sec: Word): nat {
    sec * b.Rate()
  }

  // ----- Extending one reading -----

  function Joined(up: nat, low: Word): nat {
    up * TWO_TO_THE_32 + low
  }

  // The loop: the upper half is stepped until the seconds no longer lie half a range
  // or more ahead.
  function Raise(up: nat, low: Word, tsec: nat): (r: nat)
    ensures r >= up && tsec < Joined(r, low) + HALF
    ensures r == up || tsec >= Joined(r - 1, low) + HALF
    decreases tsec - Joined(up, low)
  {
    if tsec < Joined(up, low) + HALF then up else Raise(up + 1, low, tsec)
  }

  // No board's seconds ever raise the upper half above this, so that nothing computed
  // in 64 bits wraps.
  const MAX_UP := 0x200_0000
  const TWO_TO_THE_64 := 0x1_0000_0000_0000_0000

  lemma RaiseStep(up: nat, low: Word, tsec: nat)
    requires tsec >= Joined(up, low) + HALF
    ensures Raise(up, low, tsec) == Raise(up + 1, low, tsec)
  {
  }

  lemma RaiseDone(up: nat, low: Word, tsec: nat)
    requires tsec < Joined(up, low) + HALF
    ensures Raise(up, low, tsec) == up
  {
  }

  lemma RaiseBounded(b: Board, up: nat, low: Word, sec: Word)
    requires up <= MAX_UP
    ensures Raise(up, low, Sec2Tick(b, sec)) <= MAX_UP
    ensures Sec2Tick(b, sec) < TWO_TO_THE_64
  {
    assert sec * b.Rate() <= TWO_TO_THE_32 * 24_000_000;
  }

  lemma JoinedBounded(up: nat, low: Word)
    requires up <= MAX_UP
    ensures Joined(up, low) + HALF < TWO_TO_THE_64
  {
  }

  // The result is the true tick t exactly when the seconds are less than half a range
  // ahead of it, and not more than half a range behind unless no step is needed.
  lemma ExactIff(up: nat, t: nat, tsec: nat)
    requires up <= t / TWO_TO_THE_32
    ensures Joined(Raise(up, t % TWO_TO_THE_32, tsec), t % TWO_TO_THE_32) == t <==>
            tsec < t + HALF && (up == t / TWO_TO_THE_32 || tsec >= t - HALF)
  {
    var (q, low) := (t / TWO_TO_THE_32, t % TWO_TO_THE_32);
    assert t == Joined(q, low);
    var r := Raise(up, low, tsec);
    assert r < q ==> Joined(r, low) <= Joined(q - 1, low);
    assert r > q ==> Joined(r - 1, low) >= Joined(q, low);
  }

  lemma RaiseExact(up: nat, t: nat, tsec: nat)
    requires up <= t / TWO_TO_THE_32 && t - HALF <= tsec < t + HALF
    ensures var r := Raise(up, t % TWO_TO_THE_32, tsec);
            r == t / TWO_TO_THE_32 && Joined(r, t % TWO_TO_THE_32) == t
  {
    ExactIff(up, t, tsec);
    JoinedOnce(Raise(up, t % TWO_TO_THE_32, tsec), t);
  }

  // ----- Runs -----

  // One call: the true tick then, and the tick its seconds reading stands for.
  datatype Reading = Reading(tick: nat, tsec: nat)

  ghost predicate Within(r: Reading) {
    r.tick - HALF <= r.tsec < r.tick + HALF
  }

  ghost predicate Forward(rs: seq<Reading>) {
    forall i, j :: 0 <= i < j < |rs| ==> rs[i].tick <= rs[j].tick
  }

  // The upper half after all the readings.
  function UpAfter(up: nat, rs: seq<Reading>): nat {
    if rs == [] then up
    else
      var r := rs[|rs| - 1];
      Raise(UpAfter(up, rs[..|rs| - 1]), r.tick % TWO_TO_THE_32, r.tsec)
  }

  // The results of all the readings.
  function Results(up: nat, rs: seq<Reading>): (ts: seq<nat>)
    ensures |ts| == |rs|
  {
    if rs == [] then []
    else Results(up, rs[..|rs| - 1]) + [Joined(UpAfter(up, rs), rs[|rs| - 1].tick % TWO_TO_THE_32)]
  }

  lemma {:induction false} UpExact(up: nat, rs: seq<Reading>)
    requires Forward(rs) && (forall i :: 0 <= i < |rs| ==> Within(rs[i])) && rs != []
    requires up <= rs[0].tick / TWO_TO_THE_32
    ensures UpAfter(up, rs) == rs[|rs| - 1].tick / TWO_TO_THE_32
  {
    var n := |rs| - 1;
    var r := rs[n];
    var before := UpAfter(up, rs[..n]);
    assert before <= r.tick / TWO_TO_THE_32 by {
      if n > 0 {
        UpExact(up, rs[..n]);
        QuotientGrows(rs[n - 1].tick, r.tick);
      }
    }
    assert Within(r);
    ExactIff(before, r.tick, r.tsec);
    JoinedOnce(UpAfter(up, rs), r.tick);
  }

  lemma QuotientGrows(a: nat, b: nat)
    requires a <= b
    ensures a / TWO_TO_THE_32 <= b / TWO_TO_THE_32
  {
  }

  lemma JoinedOnce(up: nat, t: nat)
    requires Joined(up, t % TWO_TO_THE_32) == t
    ensures up == t / TWO_TO_THE_32
  {
  }

  // When at every call the seconds are within half a range of the true tick, every
  // result is the true tick, however many wraps pass between two calls.
  lemma {:induction false} ResultsExact(up: nat, rs: seq<Reading>, i: nat)
    requires Forward(rs) && (forall k :: 0 <= k < |rs| ==> Within(rs[k])) && i < |rs|
    requires up <= rs[0].tick / TWO_TO_THE_32
    ensures Results(up, rs)[i] == rs[i].tick
  {
    var n := |rs| - 1;
    if i < n {
      ResultsExact(up, rs[..n], i);
    } else {
      UpExact(up, rs);
    }
  }

  // Hence the results never go backwards.
  lemma ResultsForward(up: nat, rs: seq<Reading>, i: nat, j: nat)
    requires Forward(rs) && (forall k :: 0 <= k < |rs| ==> Within(rs[k])) && i < j < |rs|
    requires up <= rs[0].tick / TWO_TO_THE_32
    ensures Results(up, rs)[i] <= Results(up, rs)[j]
  {
    ResultsExact(up, rs, i);
    ResultsExact(up, rs, j);
  }

  // The upper half is never lowered: one reading whose seconds run half a range
  // ahead leaves every later result too large until the true tick has caught up.
  lemma {:induction false} OvershootStays(up: nat, rs: seq<Reading>, i: nat)
    requires i < |rs| && Results(up, rs)[i] > rs[i].tick
    requires rs[|rs| - 1].tick / TWO_TO_THE_32 == rs[i].tick / TWO_TO_THE_32
    ensures Results(up, rs)[|rs| - 1] > rs[|rs| - 1].tick
  {
    UpKept(up, rs, i);
    var (t, last) := (rs[i].tick, rs[|rs| - 1].tick);
    assert Results(up, rs)[i] == Joined(UpAfter(up, rs[..i + 1]), t % TWO_TO_THE_32);
    assert UpAfter(up, rs[..i + 1]) > t / TWO_TO_THE_32;
  }

  lemma {:induction false} UpKept(up: nat, rs: seq<Reading>, i: nat)
    requires i < |rs|
    ensures UpAfter(up, rs[..i + 1]) <= UpAfter(up, rs)
    ensures Results(up, rs)[i] == Joined(UpAfter(up, rs[..i + 1]), rs[i].tick % TWO_TO_THE_32)
    decreases |rs|
  {
    if i == |rs| - 1 {
      assert rs[..i + 1] == rs;
    } else {
      UpKept(up, rs[..|rs| - 1], i);
      assert rs[..|rs| - 1][..i + 1] == rs[..i + 1];
    }
  }

  // ----- The two clocks -----

  const DRIFT := HALF - 0x0800_0000

  // The conversion of the base tick to seconds and back loses less than 2^27 ticks.
  lemma BaseLoss(b: Board, base: Word)
    ensures -0x0800_0000 < Sec2Tick(b, Tick2Sec(b, base)) - base < 0x0800_0000
  {
    var s := Tick2Sec(b, base);
    var x := base * b.Res();
    assert s * NS_IN_SECOND <= x < s * NS_IN_SECOND + NS_IN_SECOND;
    match b
    case Smdk =>
    case Yse =>
    case Lg =>
  }

  // `ticks` ticks after the origin the seconds clock shows `secs` more; apart from
  // the phase of the seconds the clocks may drift by all but 2^27 of half a range.
  ghost predicate Agree(b: Board, ticks: nat, secs: nat) {
    -DRIFT <= secs * b.Rate() - ticks < DRIFT
  }

  lemma AgreeWithin(b: Board, base: Word, ticks: nat, secs: nat)
    requires Agree(b, ticks, secs)
    ensures Within(Reading(base + ticks, (Tick2Sec(b, base) + secs) * b.Rate()))
  {
    BaseLoss(b, base);
    var s := Tick2Sec(b, base);
    assert (s + secs) * b.Rate() == s * b.Rate() + secs * b.Rate();
  }

  // The readings when ticks[i] ticks and secs[i] seconds have passed at the i-th call.
  ghost function Readings(b: Board, base: Word, ticks: seq<nat>, secs: seq<nat>): (rs: seq<Reading>)
    requires |ticks| == |secs|
    ensures |rs| == |ticks|
    ensures forall i :: 0 <= i < |rs| ==>
                          rs[i] == Reading(base + ticks[i], (Tick2Sec(b, base) + secs[i]) * b.Rate())
  {
    seq(|ticks|, i requires 0 <= i < |ticks| => Reading(base + ticks[i], (Tick2Sec(b, base) + secs[i]) * b.Rate()))
  }

  // On every board and from every base, as long as the two clocks agree at each call
  // every result is the base and all the ticks since, wraps included.
  lemma AgreeingClocksExact(b: Board, base: Word, ticks: seq<nat>, secs: seq<nat>, i: nat)
    requires |ticks| == |secs| && i < |ticks|
    requires forall j, k :: 0 <= j < k < |ticks| ==> ticks[j] <= ticks[k]
    requires forall k :: 0 <= k < |ticks| ==> Agree(b, ticks[k], secs[k])
    ensures Results(0, Readings(b, base, ticks, secs))[i] == base + ticks[i]
  {
    var rs := Readings(b, base, ticks, secs);
    forall k | 0 <= k < |rs| ensures Within(rs[k]) {
      AgreeWithin(b, base, ticks[k], secs[k]);
    }
    ResultsExact(0, rs, i);
  }

  class Clock {
    const board: Board
    var tickBase: Word
    var tickOffset: Word
    var secBase: Word
    var secOffset: Word
    var tickUp: nat

    constructor (board: Board)
      ensures this.board == board && Narrow()
    {
      this.board := board;
      tickBase, tickOffset, secBase, secOffset, tickUp := 0, 0, 0, 0, 0;
    }

    predicate Narrow()
      reads this
    {
      tickUp <= MAX_UP
    }

    // The counter and the seconds clock stand at these values.
    method SetTickCount(base: Word, counter: Word, rtc: Word)
      modifies this
      ensures Narrow() && tickUp == 0 && tickBase == base && tickOffset == counter
      ensures secOffset == rtc && secBase == Tick2Sec(board, base)
    {
      tickUp := 0;
      tickOffset := counter;
      secOffset := rtc;
      tickBase := base;
      secBase := Tick2Sec(board, tickBase);
    }

    function Seconds(rtc: Word): Word
      reads this
    {
      (rtc - secOffset + secBase) % TWO_TO_THE_32
    }

    function Low(counter: Word): Word
      reads this
    {
      (counter + tickBase - tickOffset) % TWO_TO_THE_32
    }

    method GetTickCount(counter: Word, rtc: Word) returns (t64: nat)
      requires Narrow()
      modifies this`tickUp
      ensures Narrow() && t64 < TWO_TO_THE_64
      ensures tickUp == Raise(old(tickUp), Low(counter), Sec2Tick(board, Seconds(rtc)))
      ensures t64 == Joined(tickUp, Low(counter))
    {
      var t32 := Low(counter);
      var s1 := Seconds(rtc);
      var tsec := Sec2Tick(board, s1);
      assert Raise(tickUp, t32, tsec) <= MAX_UP && tsec < TWO_TO_THE_64 by {
        RaiseBounded(board, tickUp, t32, s1);
      }
      t64 := Joined(tickUp, t32);
      JoinedBounded(tickUp, t32);
      while tsec >= t64 + HALF
        invariant t64 == Joined(tickUp, t32) && tickUp <= MAX_UP && t64 + HALF < TWO_TO_THE_64
        invariant Raise(tickUp, t32, tsec) == Raise(old(tickUp), t32, tsec)
        decreases tsec - t64
      {
        RaiseStep(tickUp, t32, tsec);
        tickUp := tickUp + 1;
        t64 := Joined(tickUp, t32);
        JoinedBounded(tickUp, t32);
      }
      RaiseDone(tickUp, t32, tsec);
    }

    // What the two clocks show when `ticks` ticks and `secs` seconds have passed since
    // they were set, is the reading of the true tick.
    lemma ReadingOf(ticks: nat, secs: nat)
      requires secBase == Tick2Sec(board, tickBase) && secBase + secs < TWO_TO_THE_32
      ensures Low((tickOffset + ticks) % TWO_TO_THE_32) == (tickBase + ticks) % TWO_TO_THE_32
      ensures Sec2Tick(board, Seconds((secOffset + secs) % TWO_TO_THE_32)) ==
              (Tick2Sec(board, tickBase) + secs) *
              (match board case Smdk => 32768 case Yse => 24_000_000 case Lg => 19_200_000)
    {
      WrapShift(tickOffset + ticks, tickBase - tickOffset);
      SecondsOf(secs);
    }

    // So as long as the clocks agree and no earlier call overshot, a call at that time
    // gives the base and all the ticks since.
    lemma CallExact(ticks: nat, secs: nat, counter: Word, rtc: Word)
      requires secBase == Tick2Sec(board, tickBase) && secBase + secs < TWO_TO_THE_32
      requires counter == (tickOffset + ticks) % TWO_TO_THE_32 && rtc == (secOffset + secs) % TWO_TO_THE_32
      requires Agree(board, ticks, secs) && tickUp <= (tickBase + ticks) / TWO_TO_THE_32
      ensures var (up, low) := (Raise(tickUp, Low(counter), Sec2Tick(board, Seconds(rtc))), Low(counter));
              Joined(up, low) == tickBase + ticks && up == (tickBase + ticks) / TWO_TO_THE_32
    {
      var (t, tsec) := (tickBase + ticks, (Tick2Sec(board, tickBase) + secs) * board.Rate());
      assert Low(counter) == t % TWO_TO_THE_32 && Sec2Tick(board, Seconds(rtc)) == tsec by {
        ReadingOf(ticks, secs);
      }
      assert Within(Reading(t, tsec)) by {
        AgreeWithin(board, tickBase, ticks, secs);
      }
      RaiseExact(tickUp, t, tsec);
    }

    lemma SecondsOf(secs: nat)
      requires secBase + secs < TWO_TO_THE_32
      ensures Seconds((secOffset + secs) % TWO_TO_THE_32) == secBase + secs
    {
      WrapShift(secOffset + secs, secBase - secOffset);
      SmallWrap(secBase + secs);
    }
  }

  lemma SmallWrap(x: nat)
    requires x < TWO_TO_THE_32
    ensures x % TWO_TO_THE_32 == x
  {
  }

  lemma WrapShift(x: int, d: int)
    ensures (x % TWO_TO_THE_32 + d) % TWO_TO_THE_32 == (x + d) % TWO_TO_THE_32
  {
    var m := TWO_TO_THE_32;
    assert x == m * (x / m) + x % m;
    var y := x % m + d;
    assert x + d == y + m * (x / m);
    ModMultiple(y, x / m);
  }

  lemma ModMultiple(y: int, k: int)
    ensures (y + TWO_TO_THE_32 * k) % TWO_TO_THE_32 == y % TWO_TO_THE_32
  {
  }
}
