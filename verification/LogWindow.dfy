// What the crash log keeps of one verification run: the requests at most
// MAX_NORMAL_REQUEST positions away from a crashed request.  This module is the
// specification of the linked structure in VerifyLog: `Add` is one insertion
// into the open request list of the current step.
module LogWindow {
  import opened Types

  const MAX_NORMAL_REQUEST := 20

  datatype Entry = Entry(lsn: Word, sectors: Word, status: Word, pages: Option<seq<Byte>>)

  predicate Crash(e: Entry) {
    e.status >= VERI_EREQUEST
  }

  predicate HasCrash(es: seq<Entry>) {
    exists i :: 0 <= i < |es| && Crash(es[i])
  }

  // The lists already closed, the open list, and the two normal-request counters.
  datatype Window = Window(closed: seq<seq<Entry>>, open: seq<Entry>, before: nat, after: nat)

  const FRESH := Window([], [], 0, 0)

  function Add(w: Window, e: Entry): Window {
    var open := w.open + [e];
    if !HasCrash(w.open) then
      var evict := w.before + 1 > MAX_NORMAL_REQUEST + 1;
      w.(open := if evict then open[1..] else open,
         before := if evict then w.before else w.before + 1,
         after := if Crash(e) then 0 else w.after)
    else if w.after + 1 >= MAX_NORMAL_REQUEST && !Crash(e) then
      Window(w.closed + [open], [], 0, 0)
    else
      w.(open := open, after := if Crash(e) then 0 else w.after + 1)
  }

  function RunFrom(w: Window, es: seq<Entry>): Window {
    if es == [] then w else Add(RunFrom(w, es[..|es| - 1]), es[|es| - 1])
  }

  function Run(h: seq<Entry>): Window {
    RunFrom(FRESH, h)
  }

  function Flatten<T>(ls: seq<seq<T>>): seq<T> {
    if ls == [] then [] else Flatten(ls[..|ls| - 1]) + ls[|ls| - 1]
  }

  // The lists that are printed and saved: those that hold a crash.
  function Kept(ls: seq<seq<Entry>>): seq<seq<Entry>> {
    if ls == [] then []
    else Kept(ls[..|ls| - 1]) + (if HasCrash(ls[|ls| - 1]) then [ls[|ls| - 1]] else [])
  }

  function Lists(w: Window): seq<seq<Entry>> {
    w.closed + [w.open]
  }

  // ----- Retention: an independent description of what must be kept -----

  ghost predicate Near(h: seq<Entry>, i: nat)
    requires i < |h|
  {
    exists j :: 0 <= j < |h| && h[j].status >= 5 && j - 20 <= i <= j + 20
  }

  ghost function Pick(h: seq<Entry>, k: nat): seq<Entry>
    requires k <= |h|
  {
    if k == 0 then [] else Pick(h, k - 1) + (if Near(h, k - 1) then [h[k - 1]] else [])
  }

  // The in-order subsequence of h near some crash.
  ghost function Retained(h: seq<Entry>): seq<Entry> {
    Pick(h, |h|)
  }

  lemma {:induction false} PickSame(h: seq<Entry>, g: seq<Entry>, k: nat)
    requires k <= |h| && k <= |g| && h[..k] == g[..k]
    requires forall i :: 0 <= i < k ==> Near(h, i) == Near(g, i)
    ensures Pick(h, k) == Pick(g, k)
  {
    if k > 0 {
      assert h[..k - 1] == h[..k][..k - 1] == g[..k - 1];
      assert h[k - 1] == h[..k][k - 1] == g[k - 1];
      PickSame(h, g, k - 1);
    }
  }

  lemma {:induction false} PickAll(h: seq<Entry>, a: nat, b: nat)
    requires a <= b <= |h|
    requires forall i :: a <= i < b ==> Near(h, i)
    ensures Pick(h, b) == Pick(h, a) + h[a..b]
  {
    if a < b {
      PickAll(h, a, b - 1);
      assert h[a..b] == h[a..b - 1] + [h[b - 1]];
    } else {
      assert h[a..b] == [];
    }
  }

  lemma {:induction false} PickNone(h: seq<Entry>, a: nat, b: nat)
    requires a <= b <= |h|
    requires forall i :: a <= i < b ==> !Near(h, i)
    ensures Pick(h, b) == Pick(h, a)
  {
    if a < b {
      PickNone(h, a, b - 1);
    }
  }

  // Appending a normal request changes no earlier verdict.
  lemma RetainedNormal(h: seq<Entry>, e: Entry)
    requires !Crash(e)
    ensures Retained(h + [e]) == Retained(h) + (if Near(h + [e], |h|) then [e] else [])
  {
    var g := h + [e];
    forall i | 0 <= i < |h| ensures Near(h, i) == Near(g, i) {
      NearPrefix(h, e, i);
    }
    PickSame(h, g, |h|);
  }

  lemma NearPrefix(h: seq<Entry>, e: Entry, i: nat)
    requires i < |h|
    ensures Near(h + [e], i) <==> Near(h, i) || (Crash(e) && |h| - i <= MAX_NORMAL_REQUEST)
  {
    var g := h + [e];
    if Near(h, i) {
      var j :| 0 <= j < |h| && Crash(h[j]) && j - MAX_NORMAL_REQUEST <= i <= j + MAX_NORMAL_REQUEST;
      assert Crash(g[j]);
    }
    if Crash(e) && |h| - i <= MAX_NORMAL_REQUEST {
      assert Crash(g[|h|]);
    }
    if Near(g, i) {
      var j :| 0 <= j < |g| && Crash(g[j]) && j - MAX_NORMAL_REQUEST <= i <= j + MAX_NORMAL_REQUEST;
      if j < |h| {
        assert Crash(h[j]);
      }
    }
  }

  // A crash makes the requests from position m on retained, provided the ones
  // that were in reach before m already were and none from m on was.
  lemma RetainedCrash(h: seq<Entry>, e: Entry, m: nat)
    requires Crash(e) && m <= |h| && |h| - m <= MAX_NORMAL_REQUEST
    requires forall i :: m <= i < |h| ==> !Near(h, i)
    requires forall i :: 0 <= i < m && |h| - i <= MAX_NORMAL_REQUEST ==> Near(h, i)
    ensures Retained(h + [e]) == Retained(h) + h[m..] + [e]
  {
    var g := h + [e];
    forall i | 0 <= i < m ensures Near(h, i) == Near(g, i) {
      NearPrefix(h, e, i);
    }
    assert h[..m] == g[..m];
    PickSame(h, g, m);
    PickNone(h, m, |h|);
    forall i | m <= i < |g| ensures Near(g, i) {
      assert Crash(g[|h|]);
    }
    PickAll(g, m, |g|);
    assert g[m..|g|] == h[m..] + [e];
  }

  // What the window looks like after history h: `s` is where the open list's
  // epoch began.
  ghost predicate Tracks(h: seq<Entry>, w: Window, s: nat) {
    if HasCrash(w.open) then
      && w.after < MAX_NORMAL_REQUEST
      && w.after < |h|
      && Crash(h[|h| - 1 - w.after])
      && (forall j :: |h| - w.after <= j < |h| ==> !Crash(h[j]))
      && Flatten(w.closed) + w.open == Retained(h)
    else
      && s <= |h|
      && w.after == 0
      && w.before == |w.open| == (if |h| - s < MAX_NORMAL_REQUEST + 1 then |h| - s else MAX_NORMAL_REQUEST + 1)
      && w.open == h[|h| - |w.open|..]
      && (s == 0 || (s > MAX_NORMAL_REQUEST && Crash(h[s - MAX_NORMAL_REQUEST - 1])))
      && (forall j :: s - MAX_NORMAL_REQUEST <= j < |h| && 0 <= j ==> !Crash(h[j]))
      && Flatten(w.closed) == Retained(h)
  }

  lemma CrashesCarryOver(es: seq<Entry>, e: Entry)
    ensures HasCrash(es + [e]) <==> HasCrash(es) || Crash(e)
  {
    var x := es + [e];
    if HasCrash(es) {
      var i :| 0 <= i < |es| && Crash(es[i]);
      assert Crash(x[i]);
    }
    if Crash(e) {
      assert Crash(x[|es|]);
    }
  }

  // A normal request after a crash that is still in reach.
  lemma TracksAfterCrash(h: seq<Entry>, w: Window, s: nat, e: Entry)
    requires Tracks(h, w, s) && !Crash(e) && HasCrash(w.open)
    ensures Tracks(h + [e], Add(w, e), |h| + 1)
  {
    var g := h + [e];
    var open := w.open + [e];
    RetainedNormal(h, e);
    CrashesCarryOver(w.open, e);
    var p := |h| - 1 - w.after;
    assert g[p] == h[p];
    assert Near(g, |h|) by {
      assert Crash(g[p]);
    }
    assert Flatten(w.closed) + open == Retained(g) by {
      assert Flatten(w.closed) + open == Flatten(w.closed) + w.open + [e];
    }
    if w.after + 1 >= MAX_NORMAL_REQUEST {
      assert (w.closed + [open])[..|w.closed|] == w.closed;
      assert !HasCrash([]);
      assert Crash(g[|g| - MAX_NORMAL_REQUEST - 1]);
      assert g[|g|..] == [];
    }
  }

  // No crash in reach of the end of h puts none in reach of a normal request there.
  lemma NoCrashNear(h: seq<Entry>, s: nat, e: Entry)
    requires s <= |h| && !Crash(e)
    requires forall j :: s - MAX_NORMAL_REQUEST <= j < |h| && 0 <= j ==> !Crash(h[j])
    ensures !Near(h + [e], |h|)
    ensures forall j :: s - MAX_NORMAL_REQUEST <= j < |h + [e]| && 0 <= j ==> !Crash((h + [e])[j])
  {
    var g := h + [e];
    forall j | s - MAX_NORMAL_REQUEST <= j < |g| && 0 <= j ensures !Crash(g[j]) {
      assert g[j] == if j < |h| then h[j] else e;
    }
  }

  lemma SuffixExtended(h: seq<Entry>, open: seq<Entry>, e: Entry)
    requires |open| <= |h| && open == h[|h| - |open|..]
    ensures open + [e] == (h + [e])[|h| - |open|..]
    ensures (open + [e])[1..] == (h + [e])[|h| + 1 - |open|..]
  {
  }

  lemma NoneCrashes(es: seq<Entry>, e: Entry)
    requires !HasCrash(es) && !Crash(e)
    ensures !HasCrash(es + [e]) && !HasCrash((es + [e])[1..])
  {
    CrashesCarryOver(es, e);
    var x := es + [e];
    forall i | 0 <= i < |x[1..]| ensures !Crash(x[1..][i]) {
      assert x[1..][i] == x[i + 1];
    }
  }

  // A normal request while the open list holds no crash.
  lemma TracksNoCrash(h: seq<Entry>, w: Window, s: nat, e: Entry)
    requires Tracks(h, w, s) && !Crash(e) && !HasCrash(w.open)
    ensures Tracks(h + [e], Add(w, e), s)
  {
    var g := h + [e];
    NoCrashNear(h, s, e);
    RetainedNormal(h, e);
    assert Retained(h) + [] == Retained(h);
    SuffixExtended(h, w.open, e);
    NoneCrashes(w.open, e);
    assert s > MAX_NORMAL_REQUEST ==> g[s - MAX_NORMAL_REQUEST - 1] == h[s - MAX_NORMAL_REQUEST - 1];
  }

  // A crash while an earlier one is in the open list.
  lemma TracksMoreCrashes(h: seq<Entry>, w: Window, s: nat, e: Entry)
    requires Tracks(h, w, s) && Crash(e) && HasCrash(w.open)
    ensures Tracks(h + [e], Add(w, e), 0)
  {
    var g := h + [e];
    var p := |h| - 1 - w.after;
    CrashesCarryOver(w.open, e);
    forall i | 0 <= i < |h| && |h| - i <= MAX_NORMAL_REQUEST ensures Near(h, i) {
      assert Crash(h[p]);
    }
    RetainedCrash(h, e, |h|);
    assert h[|h|..] == [] && g[|g| - 1] == e;
    assert Flatten(w.closed) + (w.open + [e]) == Flatten(w.closed) + w.open + [] + [e];
  }

  // The first crash of the open list, which holds the requests of h from m on.
  lemma TracksFirstCrash(h: seq<Entry>, w: Window, s: nat, e: Entry, m: nat)
    requires Tracks(h, w, s) && Crash(e) && !HasCrash(w.open)
    requires m == |h| - |Add(w, e).open| + 1
    ensures Add(w, e).open == h[m..] + [e] && |h| - m <= MAX_NORMAL_REQUEST
    ensures forall i :: m <= i < |h| ==> !Near(h, i)
    ensures forall i :: 0 <= i < m && |h| - i <= MAX_NORMAL_REQUEST ==> Near(h, i)
  {
    SuffixExtended(h, w.open, e);
    assert (h + [e])[m..] == h[m..] + [e];
    forall i | 0 <= i < m && |h| - i <= MAX_NORMAL_REQUEST ensures Near(h, i) {
      assert m == s && s > 0;
      assert Crash(h[s - MAX_NORMAL_REQUEST - 1]);
    }
  }

  lemma TracksCrash(h: seq<Entry>, w: Window, s: nat, e: Entry)
    requires Tracks(h, w, s) && Crash(e)
    ensures Tracks(h + [e], Add(w, e), 0)
  {
    if HasCrash(w.open) {
      TracksMoreCrashes(h, w, s, e);
    } else {
      var g, w' := h + [e], Add(w, e);
      var m := |h| - |w'.open| + 1;
      TracksFirstCrash(h, w, s, e, m);
      RetainedCrash(h, e, m);
      assert w'.open[|w'.open| - 1] == e == g[|g| - 1];
      assert Flatten(w.closed) + (h[m..] + [e]) == Flatten(w.closed) + h[m..] + [e];
    }
  }

  lemma {:induction false} RunTracks(h: seq<Entry>) returns (s: nat)
    ensures Tracks(h, Run(h), s)
  {
    if h == [] {
      s := 0;
    } else {
      var g, e := h[..|h| - 1], h[|h| - 1];
      assert g + [e] == h;
      s := RunTracks(g);
      if Crash(e) {
        TracksCrash(g, Run(g), s, e);
        s := 0;
      } else if HasCrash(Run(g).open) {
        TracksAfterCrash(g, Run(g), s, e);
        s := |h|;
      } else {
        TracksNoCrash(g, Run(g), s, e);
      }
    }
  }

  // Every closed list holds a crash, so only the open one can be dropped.
  lemma {:induction false} KeptClosed(ls: seq<seq<Entry>>)
    requires forall i :: 0 <= i < |ls| ==> HasCrash(ls[i])
    ensures Kept(ls) == ls
  {
    if ls != [] {
      KeptClosed(ls[..|ls| - 1]);
    }
  }

  lemma KeptLists(w: Window)
    requires forall i :: 0 <= i < |w.closed| ==> HasCrash(w.closed[i])
    ensures Kept(Lists(w)) == w.closed + (if HasCrash(w.open) then [w.open] else [])
  {
    assert Lists(w)[..|w.closed|] == w.closed;
    KeptClosed(w.closed);
  }

  // The bounded log against the full history: the lists with a crash, put end to
  // end, are exactly the requests near a crash, and a crash-free open list never
  // exceeds MAX_NORMAL_REQUEST + 1 requests.
  lemma RetentionRefinement(h: seq<Entry>)
    ensures Flatten(Kept(Lists(Run(h)))) == Retained(h)
    ensures !HasCrash(Run(h).open) ==> |Run(h).open| <= MAX_NORMAL_REQUEST + 1
  {
    var s := RunTracks(h);
    var w := Run(h);
    RunSealed(h);
    KeptLists(w);
    if HasCrash(w.open) {
      assert (w.closed + [w.open])[..|w.closed|] == w.closed;
    } else {
      assert w.closed + [] == w.closed;
    }
  }

  // ----- Reload: feeding the kept lists back through the same windowing -----

  lemma {:induction false} RunFromAppend(w: Window, a: seq<Entry>, b: seq<Entry>)
    ensures RunFrom(w, a + b) == RunFrom(RunFrom(w, a), b)
    decreases |b|
  {
    if b == [] {
      assert a + b == a;
    } else {
      RunFromAppend(w, a, b[..|b| - 1]);
      assert (a + b)[..|a + b| - 1] == a + b[..|b| - 1];
    }
  }

  // The closed lists are never looked at again.
  lemma {:induction false} RunFromFrame(c: seq<seq<Entry>>, w: Window, es: seq<Entry>)
    ensures RunFrom(w.(closed := c + w.closed), es) ==
            RunFrom(w, es).(closed := c + RunFrom(w, es).closed)
  {
    if es != [] {
      RunFromFrame(c, w, es[..|es| - 1]);
      var x := RunFrom(w, es[..|es| - 1]);
      assert c + (x.closed + [x.open + [es[|es| - 1]]]) == c + x.closed + [x.open + [es[|es| - 1]]];
    }
  }

  ghost predicate EndsWithNormals(es: seq<Entry>, n: nat) {
    && n < |es|
    && Crash(es[|es| - 1 - n])
    && forall j :: |es| - n <= j < |es| ==> !Crash(es[j])
  }

  // A list the window itself closed: replayed alone, it closes again, as one list.
  ghost predicate Sealed(es: seq<Entry>) {
    && Run(es) == Window([es], [], 0, 0)
    && EndsWithNormals(es, MAX_NORMAL_REQUEST)
  }

  // A list that is (or was, when its step ended) open.
  ghost predicate Unsealed(es: seq<Entry>) {
    && Run(es).closed == [] && Run(es).open == es
    && (HasCrash(es) ==> Run(es).after < MAX_NORMAL_REQUEST && EndsWithNormals(es, Run(es).after))
    && (!HasCrash(es) ==> Run(es).after == 0 && Run(es).before == |es| <= MAX_NORMAL_REQUEST + 1)
  }

  ghost predicate WindowInv(w: Window) {
    && (forall i :: 0 <= i < |w.closed| ==> Sealed(w.closed[i]))
    && Unsealed(w.open)
    && Run(w.open) == w.(closed := [])
  }

  lemma {:induction false} RunNormals(es: seq<Entry>)
    requires !HasCrash(es) && |es| <= MAX_NORMAL_REQUEST + 1
    ensures Run(es) == Window([], es, |es|, 0)
  {
    if es != [] {
      var init := es[..|es| - 1];
      assert !HasCrash(init) by {
        forall i | 0 <= i < |init| ensures !Crash(init[i]) { assert init[i] == es[i]; }
      }
      RunNormals(init);
      assert init + [es[|es| - 1]] == es;
      assert !Crash(es[|es| - 1]);
    }
  }

  lemma RunExtends(es: seq<Entry>, e: Entry)
    ensures Run(es + [e]) == Add(Run(es), e)
  {
    assert (es + [e])[..|es|] == es;
  }

  lemma NormalsExtended(es: seq<Entry>, n: nat, e: Entry)
    requires EndsWithNormals(es, n)
    ensures EndsWithNormals(es + [e], if Crash(e) then 0 else n + 1)
  {
    var x := es + [e];
    assert x[|es|] == e && x[|es| - 1 - n] == es[|es| - 1 - n];
    forall j | |es| - n <= j < |es| ensures !Crash(x[j]) {
      assert x[j] == es[j];
    }
  }

  // An open list with a crash, replayed alone with one more request.
  lemma AddAloneAfterCrash(es: seq<Entry>, e: Entry)
    requires Unsealed(es) && HasCrash(es)
    ensures var (w, n) := (Run(es + [e]), Run(es).after);
            if n + 1 >= MAX_NORMAL_REQUEST && !Crash(e) then w == Window([es + [e]], [], 0, 0)
            else w.closed == [] && w.open == es + [e] && w.after == if Crash(e) then 0 else n + 1
    ensures EndsWithNormals(es + [e], if Crash(e) then 0 else Run(es).after + 1)
  {
    RunExtends(es, e);
    NormalsExtended(es, Run(es).after, e);
    assert [] + [es + [e]] == [es + [e]];
  }

  lemma AddAfterCrashKeepsInv(w: Window, e: Entry)
    requires WindowInv(w) && HasCrash(w.open)
    ensures WindowInv(Add(w, e))
  {
    AddAloneAfterCrash(w.open, e);
    CrashesCarryOver(w.open, e);
    if w.after + 1 >= MAX_NORMAL_REQUEST && !Crash(e) {
      assert Sealed(w.open + [e]);
      RunNormals([]);
    } else {
      RunExtends(w.open, e);
    }
  }

  lemma AddNoCrashKeepsInv(w: Window, e: Entry)
    requires WindowInv(w) && !HasCrash(w.open)
    ensures WindowInv(Add(w, e))
  {
    var open := Add(w, e).open;
    var init := open[..|open| - 1];
    assert open == init + [e];
    forall i | 0 <= i < |init| ensures !Crash(init[i]) {
      assert init[i] == w.open[i] || init[i] == w.open[i + 1];
    }
    RunNormals(init);
    RunExtends(init, e);
    CrashesCarryOver(init, e);
    if !Crash(e) {
      RunNormals(open);
    }
  }

  lemma AddKeepsInv(w: Window, e: Entry)
    requires WindowInv(w)
    ensures WindowInv(Add(w, e))
  {
    if HasCrash(w.open) {
      AddAfterCrashKeepsInv(w, e);
    } else {
      AddNoCrashKeepsInv(w, e);
    }
  }

  lemma {:induction false} RunFromKeepsInv(w: Window, es: seq<Entry>)
    requires WindowInv(w)
    ensures WindowInv(RunFrom(w, es))
  {
    if es != [] {
      RunFromKeepsInv(w, es[..|es| - 1]);
      AddKeepsInv(RunFrom(w, es[..|es| - 1]), es[|es| - 1]);
    }
  }

  lemma RunSealed(h: seq<Entry>)
    ensures WindowInv(Run(h))
    ensures forall i :: 0 <= i < |Run(h).closed| ==> HasCrash(Run(h).closed[i])
  {
    assert Unsealed([]);
    RunFromKeepsInv(FRESH, h);
    forall i | 0 <= i < |Run(h).closed| ensures HasCrash(Run(h).closed[i]) {
      assert Sealed(Run(h).closed[i]);
    }
  }

  // After closed lists c, a further list behaves as it does alone.
  lemma RunAnother(c: seq<seq<Entry>>, es: seq<Entry>, last: seq<Entry>)
    requires Run(es) == Window(c, [], 0, 0)
    ensures Run(es + last) == Run(last).(closed := c + Run(last).closed)
  {
    RunFromAppend(FRESH, es, last);
    RunFromFrame(c, FRESH, last);
    assert c + FRESH.closed == c;
  }

  // Sealed lists replayed one after another close one after another.
  lemma {:induction false} RunSealedLists(ls: seq<seq<Entry>>)
    requires forall i :: 0 <= i < |ls| ==> Sealed(ls[i])
    ensures Run(Flatten(ls)) == Window(ls, [], 0, 0)
  {
    if ls != [] {
      var init, last := ls[..|ls| - 1], ls[|ls| - 1];
      assert init + [last] == ls;
      RunSealedLists(init);
      RunAnother(init, Flatten(init), last);
    }
  }

  // ls: the lists one step holds, whatever the order in which steps were visited.
  ghost predicate StepLists(ls: seq<seq<Entry>>) {
    forall i :: 0 <= i < |ls| ==> Sealed(ls[i]) || Unsealed(ls[i])
  }

  lemma {:induction false} KeptMembers(ls: seq<seq<Entry>>)
    requires StepLists(ls)
    ensures StepLists(Kept(ls))
    ensures forall i :: 0 <= i < |Kept(ls)| ==> HasCrash(Kept(ls)[i])
  {
    if ls != [] {
      KeptMembers(ls[..|ls| - 1]);
    }
  }

  function Reload(ls: seq<seq<Entry>>): seq<seq<Entry>> {
    Kept(Lists(Run(Flatten(Kept(ls)))))
  }

  // Reloading gives back the same lists, with the same boundaries, exactly when
  // every saved list but the last ends in MAX_NORMAL_REQUEST normal requests.
  lemma ReloadSameIff(ls: seq<seq<Entry>>)
    requires StepLists(ls)
    ensures Reload(ls) == Kept(ls) <==>
            forall i :: 0 <= i < |Kept(ls)| - 1 ==> EndsWithNormals(Kept(ls)[i], MAX_NORMAL_REQUEST)
  {
    var k := Kept(ls);
    KeptMembers(ls);
    var w := Run(Flatten(k));
    RunSealed(Flatten(k));
    KeptLists(w);
    if Reload(ls) == k {
      forall i | 0 <= i < |k| - 1 ensures EndsWithNormals(k[i], MAX_NORMAL_REQUEST) {
        assert k[i] == w.closed[i];
        assert Sealed(w.closed[i]);
      }
    }
    if forall i :: 0 <= i < |k| - 1 ==> EndsWithNormals(k[i], MAX_NORMAL_REQUEST) {
      ReloadWhenSealed(k);
    }
  }

  lemma EndsWithNormalsUnique(es: seq<Entry>, m: nat, n: nat)
    requires EndsWithNormals(es, m) && EndsWithNormals(es, n)
    ensures m == n
  {
    var i, j := |es| - 1 - m, |es| - 1 - n;
    assert Crash(es[i]) && Crash(es[j]);
  }

  lemma AllSealed(k: seq<seq<Entry>>)
    requires StepLists(k)
    requires forall i :: 0 <= i < |k| ==> EndsWithNormals(k[i], MAX_NORMAL_REQUEST)
    ensures forall i :: 0 <= i < |k| ==> Sealed(k[i])
  {
    forall i | 0 <= i < |k| ensures Sealed(k[i]) {
      if Unsealed(k[i]) {
        assert HasCrash(k[i]);
        EndsWithNormalsUnique(k[i], MAX_NORMAL_REQUEST, Run(k[i]).after);
      }
    }
  }

  lemma KeptExtended(r: Window, init: seq<seq<Entry>>, last: seq<Entry>)
    requires forall i :: 0 <= i < |init| ==> HasCrash(init[i])
    requires HasCrash(last)
    requires (r.closed == [last] && r.open == []) || (r.closed == [] && r.open == last)
    ensures Kept(Lists(r.(closed := init + r.closed))) == init + [last]
  {
    KeptLists(r.(closed := init + r.closed));
  }

  lemma {:induction false} ReloadAfterSealed(init: seq<seq<Entry>>, last: seq<Entry>)
    requires forall i :: 0 <= i < |init| ==> HasCrash(init[i]) && Sealed(init[i])
    requires HasCrash(last) && (Sealed(last) || Unsealed(last))
    ensures Kept(Lists(Run(Flatten(init) + last))) == init + [last]
  {
    var r := Run(last);
    assert (r.closed == [last] && r.open == []) || (r.closed == [] && r.open == last);
    RunSealedLists(init);
    RunAnother(init, Flatten(init), last);
    KeptExtended(r, init, last);
  }

  lemma {:induction false} ReloadWhenSealed(k: seq<seq<Entry>>)
    requires StepLists(k)
    requires forall i :: 0 <= i < |k| ==> HasCrash(k[i])
    requires forall i :: 0 <= i < |k| - 1 ==> EndsWithNormals(k[i], MAX_NORMAL_REQUEST)
    ensures Kept(Lists(Run(Flatten(k)))) == k
  {
    if k == [] {
      KeptLists(FRESH);
    } else {
      var init, last := k[..|k| - 1], k[|k| - 1];
      assert init + [last] == k;
      AllSealed(init);
      ReloadAfterSealed(init, last);
    }
  }

  // A step visited once reloads to itself.
  lemma ReloadRun(h: seq<Entry>)
    ensures StepLists(Lists(Run(h)))
    ensures Reload(Lists(Run(h))) == Kept(Lists(Run(h)))
  {
    RunSealed(h);
    var w := Run(h);
    KeptLists(w);
    var k := Kept(Lists(w));
    assert StepLists(Lists(w));
    forall i | 0 <= i < |k| - 1 ensures EndsWithNormals(k[i], MAX_NORMAL_REQUEST) {
      assert k[i] == w.closed[i] && Sealed(w.closed[i]);
    }
    ReloadSameIff(Lists(w));
  }

  // The printing code looks only at the first list of a step to decide that the
  // step has nothing to show; for a step visited once that is right.
  lemma FirstListDecides(h: seq<Entry>)
    ensures HasCrash(Lists(Run(h))[0]) <==> exists i :: 0 <= i < |h| && Crash(h[i])
  {
    RunSealed(h);
    var s := RunTracks(h);
    var w := Run(h);
    if exists i :: 0 <= i < |h| && Crash(h[i]) {
      if w.closed == [] && !HasCrash(w.open) {
        var i :| 0 <= i < |h| && Crash(h[i]);
        assert Near(h, i);
        RetainedHas(h, i, |h|);
        assert false;
      }
    } else {
      RetainedNone(h);
      RetentionRefinement(h);
      KeptLists(w);
      if HasCrash(Lists(w)[0]) {
        FlattenFirst(Kept(Lists(w)));
        assert false;
      }
    }
  }

  lemma {:induction false} RetainedHas(h: seq<Entry>, i: nat, k: nat)
    requires i < k <= |h| && Near(h, i)
    ensures Pick(h, k) != []
  {
    if i < k - 1 {
      RetainedHas(h, i, k - 1);
    }
  }

  lemma RetainedNone(h: seq<Entry>)
    requires !HasCrash(h)
    ensures Retained(h) == []
  {
    forall i | 0 <= i < |h| ensures !Near(h, i) {
    }
    PickNone(h, 0, |h|);
  }

  lemma {:induction false} FlattenFirst(ls: seq<seq<Entry>>)
    requires ls != [] && ls[0] != []
    ensures Flatten(ls) != []
  {
    if |ls| > 1 {
      FlattenFirst(ls[..|ls| - 1]);
    }
  }
}
