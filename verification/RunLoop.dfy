// The repeat loop of the tester: boot, look at the stored crash word, verify, write,
// power off, again -- and what keeps it from writing over evidence of a crash.
module RunLoop {
  import opened Types

  const VERI_NOERR := 0
  const PLR_EIO := 2
  const PLR_ECRASH := 5
  const CALIBRATION_INTERVAL := 1024

  // ----- What verification reports -----

  // The error number of a verification verdict; a crash is not an error here.
  function ErrorNum(verdict: nat): int {
    if verdict == VERI_NOERR then 0 else if verdict < VERI_EREQUEST then PLR_EIO else 0
  }

  function CrashNum(verdict: nat): int {
    if verdict >= VERI_EREQUEST then PLR_ECRASH else 0
  }

  function GetResult(verdict: nat): int {
    if ErrorNum(verdict) != 0 then ErrorNum(verdict) else CrashNum(verdict)
  }

  // Everything one iteration meets: SD card, verification, writing, power control.
  // `result` is what the test case returned, `verdict` what verification recorded.
  datatype Env = Env(crashReadOk: bool, crashWriteOk: bool, calibrationOk: bool, result: int, verdict: nat,
                     writeOk: bool, finishes: bool, poweredOff: bool, powerOk: bool)

  datatype Setup = Setup(internal: bool, countFinish: bool, finishValue: nat)

  datatype Outcome = Out | Finish | Repeat

  // After an iteration: the stored crash word, how it ended, and whether its writing
  // phase was started -- with the stored word as it was then.
  datatype Iteration = Iteration(word: int, outcome: Outcome, wrote: bool)

  // Stores the crash word when the verdict is not an error: the number reported and
  // the stored word.
  function VerificationErrorResult(e: Env, word: int): (int, int) {
    if e.result == 0 then (0, word)
    else if ErrorNum(e.verdict) != 0 then (ErrorNum(e.verdict), word)
    else if !e.crashWriteOk then (-1, word)
    else (CrashNum(e.verdict), PLR_ECRASH)
  }

  function Iterate(c: Setup, boot: nat, word: int, e: Env): Iteration {
    if c.countFinish && boot > c.finishValue then Iteration(word, Finish, false)
    else if c.internal && boot % CALIBRATION_INTERVAL == 0 && !e.calibrationOk then Iteration(word, Out, false)
    else if !e.crashReadOk || word != 0 then Iteration(word, Out, false)
    else
      var (err, word') := VerificationErrorResult(e, word);
      if err != 0 then Iteration(word', Out, false)
      else if !e.writeOk then Iteration(word', Out, true)
      else if e.finishes then Iteration(word', Finish, true)
      else if e.poweredOff && !e.powerOk then Iteration(word', Out, true)
      else Iteration(word', Repeat, true)
  }

  // ----- What one iteration does -----

  // The finish count and the calibration let the iteration go on.
  predicate Admitted(c: Setup, boot: nat, e: Env) {
    && (c.countFinish ==> boot <= c.finishValue)
    && (c.internal && boot % 1024 == 0 ==> e.calibrationOk)
  }

  // The writing phase starts exactly when the iteration is admitted, no crash word is
  // stored, and the test case did well, or failed with nothing recorded and the card
  // took the word.
  lemma WritesIff(c: Setup, boot: nat, word: int, e: Env)
    ensures Iterate(c, boot, word, e).wrote <==>
            && Admitted(c, boot, e) && e.crashReadOk && word == 0
            && (e.result == 0 || (e.verdict == 0 && e.crashWriteOk))
  {
    NothingRecordedIff(e.verdict);
  }

  // How it ends.
  lemma OutcomeIs(c: Setup, boot: nat, word: int, e: Env)
    ensures var it := Iterate(c, boot, word, e);
            && (it.outcome == Finish <==>
                  (c.countFinish && boot > c.finishValue) || (it.wrote && e.writeOk && e.finishes))
            && (it.outcome == Repeat <==>
                  it.wrote && e.writeOk && !e.finishes && (e.poweredOff ==> e.powerOk))
  {
  }

  // The stored word changes exactly when a failed test case was looked at, what it
  // recorded is a crash or nothing, and the card took the word; then it is 5.
  lemma WordIs(c: Setup, boot: nat, word: int, e: Env)
    ensures Iterate(c, boot, word, e).word ==
            if Admitted(c, boot, e) && e.crashReadOk && word == 0 && e.result != 0
               && (e.verdict == 0 || e.verdict >= 5) && e.crashWriteOk
            then 5 else word
  {
  }

  // ----- The crash latch -----

  // A test case that fails without recording anything: the one way past the latch.
  predicate Slips(e: Env) {
    e.result != 0 && e.verdict == VERI_NOERR
  }

  // A writing phase starts while the stored crash word is not zero exactly when the
  // test case failed with nothing recorded, in an iteration that got that far.
  lemma WritesOverCrashIff(c: Setup, boot: nat, word: int, e: Env)
    ensures Iterate(c, boot, word, e).wrote && Iterate(c, boot, word, e).word != 0 <==>
            && !(c.countFinish && boot > c.finishValue)
            && !(c.internal && boot % CALIBRATION_INTERVAL == 0 && !e.calibrationOk)
            && e.crashReadOk && word == 0 && e.crashWriteOk && Slips(e)
  {
    NothingRecordedIff(e.verdict);
  }

  // A verdict is reported as 2 for an error and as 5 for a crash.
  lemma NothingRecordedIff(verdict: nat)
    ensures ErrorNum(verdict) == 0 && CrashNum(verdict) == 0 <==> verdict == VERI_NOERR
    ensures GetResult(verdict) == if verdict == 0 then 0 else if verdict < 5 then 2 else 5
  {
  }

  // A test case that returns what verification recorded never slips.
  lemma RecordedNeverSlips(e: Env)
    requires e.result == GetResult(e.verdict)
    ensures !Slips(e)
  {
    NothingRecordedIff(e.verdict);
  }

  // Boots and iterations one after another, whatever the boot counts: the stored word
  // after the first n, and whether the n-th wrote.
  function WordAfter(c: Setup, boots: seq<nat>, es: seq<Env>, word: int): int
    requires |boots| == |es|
  {
    if es == [] then word
    else Iterate(c, boots[|es| - 1], WordAfter(c, boots[..|es| - 1], es[..|es| - 1], word), es[|es| - 1]).word
  }

  function Wrote(c: Setup, boots: seq<nat>, es: seq<Env>, word: int, n: nat): bool
    requires |boots| == |es| && n < |es|
  {
    Iterate(c, boots[n], WordAfter(c, boots[..n], es[..n], word), es[n]).wrote
  }

  lemma {:induction false} WordStays(c: Setup, boots: seq<nat>, es: seq<Env>, word: int, m: nat)
    requires |boots| == |es| && m <= |es|
    requires WordAfter(c, boots[..m], es[..m], word) != 0
    ensures WordAfter(c, boots, es, word) != 0
  {
    if m == |es| {
      assert boots[..m] == boots && es[..m] == es;
    } else {
      var n := |es| - 1;
      assert boots[..n][..m] == boots[..m] && es[..n][..m] == es[..m];
      WordStays(c, boots[..n], es[..n], word, m);
    }
  }

  lemma PrefixOf<T>(s: seq<T>, m: nat, n: nat)
    requires m <= n <= |s|
    ensures s[..n][..m] == s[..m]
  {
  }

  // Once the crash word is stored no later iteration, in any boot, starts writing.
  lemma NoWriteAfterCrash(c: Setup, boots: seq<nat>, es: seq<Env>, word: int, m: nat, n: nat)
    requires |boots| == |es| && m <= n < |es|
    requires WordAfter(c, boots[..m], es[..m], word) != 0
    ensures !Wrote(c, boots, es, word, n)
  {
    PrefixOf(boots, m, n);
    PrefixOf(es, m, n);
    WordStays(c, boots[..n], es[..n], word, m);
  }

  // In a run that never slips every writing phase starts with a zero crash word, and
  // the word is still zero when it ends.
  lemma WritesOnlyUnlatched(c: Setup, boots: seq<nat>, es: seq<Env>, word: int, n: nat)
    requires |boots| == |es| && n < |es| && (forall i :: 0 <= i < |es| ==> !Slips(es[i]))
    requires Wrote(c, boots, es, word, n)
    ensures WordAfter(c, boots[..n], es[..n], word) == 0
    ensures Iterate(c, boots[n], WordAfter(c, boots[..n], es[..n], word), es[n]).word == 0
  {
    WritesOverCrashIff(c, boots[n], WordAfter(c, boots[..n], es[..n], word), es[n]);
  }

  // ----- The loop -----

  // The boot counts of n iterations, and what they meet.
  function Boots(c: Setup, boot: nat, n: nat): (boots: seq<nat>)
    ensures |boots| == n
  {
    seq(n, k requires 0 <= k < n => if c.internal then boot + k + 1 else boot)
  }

  function Envs(env: nat -> Env, n: nat): (es: seq<Env>)
    ensures |es| == n
  {
    seq(n, k requires 0 <= k < n => env(k))
  }

  // The k-th iteration of a loop that begins with this boot count and stored word.
  function Turn(c: Setup, boot: nat, word: int, env: nat -> Env, k: nat): Iteration {
    Iterate(c, if c.internal then boot + k + 1 else boot, WordAfter(c, Boots(c, boot, k), Envs(env, k), word), env(k))
  }

  lemma TurnWord(c: Setup, boot: nat, word: int, env: nat -> Env, n: nat)
    ensures WordAfter(c, Boots(c, boot, n + 1), Envs(env, n + 1), word) == Turn(c, boot, word, env, n).word
  {
    var (boots, es) := (Boots(c, boot, n + 1), Envs(env, n + 1));
    assert boots[..n] == Boots(c, boot, n) && es[..n] == Envs(env, n);
  }

  // How many of the first n iterations wrote.
  function Phases(c: Setup, boot: nat, word: int, env: nat -> Env, n: nat): nat {
    if n == 0 then 0
    else Phases(c, boot, word, env, n - 1) + (if Turn(c, boot, word, env, n - 1).wrote then 1 else 0)
  }

  // After n iterations, all but the last of which asked for another one.
  ghost predicate Looped(c: Setup, boot: nat, word: int, env: nat -> Env, n: nat,
                         outcome: Outcome, word': int, phases: int)
  {
    && (forall k :: 0 <= k < n - 1 ==> Turn(c, boot, word, env, k).outcome == Repeat)
    && outcome == (if n == 0 then Repeat else Turn(c, boot, word, env, n - 1).outcome)
    && word' == WordAfter(c, Boots(c, boot, n), Envs(env, n), word)
    && phases == Phases(c, boot, word, env, n)
  }

  lemma LoopedNext(c: Setup, boot: nat, word: int, env: nat -> Env, n: nat, word': int, phases: int)
    requires Looped(c, boot, word, env, n, Repeat, word', phases)
    ensures var it := Iterate(c, if c.internal then boot + n + 1 else boot, word', env(n));
            Looped(c, boot, word, env, n + 1, it.outcome, it.word, phases + (if it.wrote then 1 else 0))
  {
    TurnWord(c, boot, word, env, n);
  }

  function Max(a: int, b: int): int {
    if a < b then b else a
  }

  class Tester {
    const setup: Setup
    var boot: nat
    var crashWord: int
    // Writing phases started.
    var phases: nat

    constructor (setup: Setup, boot: nat, crashWord: int)
      ensures this.setup == setup && this.boot == boot && this.crashWord == crashWord && phases == 0
    {
      this.setup, this.boot, this.crashWord, phases := setup, boot, crashWord, 0;
    }

    // One iteration of the loop.
    method RunOnce(e: Env) returns (outcome: Outcome)
      modifies this
      ensures boot == old(boot) + (if setup.internal then 1 else 0)
      ensures var it := Iterate(setup, boot, old(crashWord), e);
              && crashWord == it.word && outcome == it.outcome
              && phases == old(phases) + (if it.wrote then 1 else 0)
    {
      if setup.internal {
        boot := boot + 1;
      }
      if setup.countFinish && boot > setup.finishValue {
        return Finish;
      }
      if setup.internal && boot % CALIBRATION_INTERVAL == 0 {
        if !e.calibrationOk {
          return Out;
        }
      }
      if !e.crashReadOk || crashWord != 0 {
        return Out;
      }
      var err := ReportVerification(e);
      if err != 0 {
        return Out;
      }
      phases := phases + 1;
      if !e.writeOk {
        return Out;
      }
      if e.finishes {
        return Finish;
      }
      if e.poweredOff && !e.powerOk {
        return Out;
      }
      return Repeat;
    }

    method ReportVerification(e: Env) returns (err: int)
      modifies this`crashWord
      ensures (err, crashWord) == VerificationErrorResult(e, old(crashWord))
    {
      err := 0;
      if e.result != 0 {
        err := ErrorNum(e.verdict);
        if err == 0 {
          err := CrashNum(e.verdict);
          if !e.crashWriteOk {
            return -1;
          }
          crashWord := PLR_ECRASH;
        }
      }
    }

    // The n-th turn of a loop that began with this boot count, stored word and phases.
    method RunNext(env: nat -> Env, n: nat, ghost boot0: nat, ghost word0: int, ghost phases0: nat)
      returns (outcome: Outcome)
      requires boot == boot0 + (if setup.internal then n else 0)
      requires Looped(setup, boot0, word0, env, n, Repeat, crashWord, phases - phases0)
      modifies this
      ensures boot == old(boot) + (if setup.internal then 1 else 0) && old(phases) <= phases <= old(phases) + 1
      ensures Looped(setup, boot0, word0, env, n + 1, outcome, crashWord, phases - phases0)
      ensures setup.countFinish && boot > setup.finishValue ==> outcome == Finish && phases == old(phases)
      ensures old(crashWord) != 0 ==> phases == old(phases) && crashWord == old(crashWord)
    {
      ghost var it := Iterate(setup, if setup.internal then boot0 + n + 1 else boot0, crashWord, env(n));
      ghost var done := phases - phases0 + (if it.wrote then 1 else 0);
      LoopedNext(setup, boot0, word0, env, n, crashWord, phases - phases0);
      outcome := RunOnce(env(n));
      assert (outcome, crashWord, phases - phases0) == (it.outcome, it.word, done);
    }

    // The loop, for `turns` iterations or until it ends.  With internal power-off and a
    // finish count it ends by itself, after at most as many writing phases as boots are
    // left, whatever happens in each iteration; and it never writes over a stored word.
    method Run(env: nat -> Env, turns: nat) returns (outcome: Outcome, n: nat)
      modifies this
      ensures n <= turns && (outcome == Repeat ==> n == turns)
      ensures Looped(setup, old(boot), old(crashWord), env, n, outcome, crashWord, phases - old(phases))
      ensures boot == old(boot) + (if setup.internal then n else 0) && old(phases) <= phases <= old(phases) + n
      ensures setup.internal && setup.countFinish ==>
                && phases - old(phases) <= Max(0, setup.finishValue - old(boot))
                && (turns > Max(0, setup.finishValue - old(boot)) ==> outcome != Repeat)
      ensures old(crashWord) != 0 ==> phases == old(phases) && crashWord == old(crashWord)
    {
      ghost var left := Max(0, setup.finishValue - old(boot));
      outcome, n := Repeat, 0;
      while outcome == Repeat && n < turns
        invariant n <= turns && boot == old(boot) + (if setup.internal then n else 0)
        invariant old(phases) <= phases <= old(phases) + n
        invariant setup.internal && setup.countFinish ==> phases - old(phases) <= left
        invariant setup.internal && setup.countFinish && outcome == Repeat ==> n <= left
        invariant old(crashWord) != 0 ==> phases == old(phases) && crashWord == old(crashWord)
        invariant Looped(setup, old(boot), old(crashWord), env, n, outcome, crashWord, phases - old(phases))
      {
        outcome := RunNext(env, n, old(boot), old(crashWord), old(phases));
        n := n + 1;
      }
    }
  }
}
