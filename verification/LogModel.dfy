// The three per-step logs together, as values: the specification of the heap
// structure in VerifyLog and the state the save and load code round-trips.
module LogModel {
  import opened LogWindow

  datatype Step = DefaultStep | LsnCrcStep | ExtraStep

  function Order(s: Step): nat {
    match s
    case DefaultStep => 1
    case LsnCrcStep => 2
    case ExtraStep => 3
  }

  datatype Log = Log(step1: seq<seq<Entry>>, step2: seq<seq<Entry>>, step3: seq<seq<Entry>>,
                     current: Step, before: nat, after: nat)
  {
    function Of(s: Step): seq<seq<Entry>> {
      match s
      case DefaultStep => step1
      case LsnCrcStep => step2
      case ExtraStep => step3
    }

    function With(s: Step, ls: seq<seq<Entry>>): (l: Log)
      ensures l.Of(s) == ls
      ensures forall t: Step :: t != s ==> l.Of(t) == Of(t)
      ensures l.current == current && l.before == before && l.after == after
    {
      match s
      case DefaultStep => this.(step1 := ls)
      case LsnCrcStep => this.(step2 := ls)
      case ExtraStep => this.(step3 := ls)
    }

    // The open list is always the last one of the current step.
    predicate HasOpen() {
      Of(current) != []
    }

    function OpenWindow(): Window
      requires HasOpen()
    {
      var ls := Of(current);
      Window(ls[..|ls| - 1], ls[|ls| - 1], before, after)
    }
  }

  const INIT_LOG := Log([[]], [], [], DefaultStep, 0, 0)

  // A new empty list at the end of step s becomes the open one.
  function StartList(l: Log, s: Step): (r: Log)
    ensures r.HasOpen() && r.current == s
  {
    l.With(s, l.Of(s) + [[]]).(current := s, before := 0, after := 0)
  }

  function PutWindow(l: Log, w: Window): (r: Log)
    ensures r.current == l.current && r.HasOpen() && r.OpenWindow() == w
    ensures forall t: Step :: t != l.current ==> r.Of(t) == l.Of(t)
  {
    assert Lists(w)[..|w.closed|] == w.closed;
    l.With(l.current, Lists(w)).(before := w.before, after := w.after)
  }

  function Insert(l: Log, s: Step, e: Entry): (r: Log)
    requires l.HasOpen()
    ensures r.HasOpen() && r.current == s
  {
    var l1 := if l.current == s then l else StartList(l, s);
    PutWindow(l1, Add(l1.OpenWindow(), e))
  }

  function InsertAll(l: Log, s: Step, es: seq<Entry>): (r: Log)
    requires l.HasOpen()
    ensures r.HasOpen()
    ensures es != [] ==> r.current == s
    ensures es == [] ==> r == l
  {
    if es == [] then l else Insert(InsertAll(l, s, es[..|es| - 1]), s, es[|es| - 1])
  }

  // A whole verification: each request comes with the step it was made in.
  function RunLog(h: seq<(Step, Entry)>): (r: Log)
    ensures r.HasOpen()
  {
    if h == [] then INIT_LOG else Insert(RunLog(h[..|h| - 1]), h[|h| - 1].0, h[|h| - 1].1)
  }

  function StepHistory(h: seq<(Step, Entry)>, s: Step): seq<Entry> {
    if h == [] then []
    else StepHistory(h[..|h| - 1], s) + (if h[|h| - 1].0 == s then [h[|h| - 1].1] else [])
  }

  ghost predicate StepsInOrder(h: seq<(Step, Entry)>) {
    forall i, j :: 0 <= i < j < |h| ==> Order(h[i].0) <= Order(h[j].0)
  }

  // ----- Whatever the order of steps, every list is one the window made -----

  ghost predicate LogInv(l: Log) {
    && l.HasOpen()
    && (forall s: Step :: StepLists(l.Of(s)))
    && Unsealed(l.OpenWindow().open)
    && Run(l.OpenWindow().open) == l.OpenWindow().(closed := [])
  }

  lemma StartKeepsInv(l: Log, s: Step)
    requires LogInv(l)
    ensures LogInv(StartList(l, s))
  {
    RunNormals([]);
    assert Unsealed([]);
    var r := StartList(l, s);
    assert r.OpenWindow().open == [];
    forall t: Step ensures StepLists(r.Of(t)) {
      StartKeepsLists(l, s, t);
    }
  }

  lemma StartKeepsLists(l: Log, s: Step, t: Step)
    requires LogInv(l)
    ensures StepLists(StartList(l, s).Of(t))
  {
    RunNormals([]);
    assert StepLists(l.Of(t));
  }

  lemma StepListsGrow(c: seq<seq<Entry>>, d: seq<seq<Entry>>)
    requires StepLists(c) && StepLists(d)
    ensures StepLists(c + d)
  {
  }

  lemma AddIgnoresClosed(w: Window, e: Entry)
    ensures var x := Add(w.(closed := []), e);
            Add(w, e) == x.(closed := w.closed + x.closed)
  {
    assert w.closed + [] == w.closed;
  }

  lemma InsertOpenKeepsInv(l: Log, e: Entry)
    requires LogInv(l)
    ensures LogInv(PutWindow(l, Add(l.OpenWindow(), e)))
  {
    var w := l.OpenWindow();
    var alone := w.(closed := []);
    AddKeepsInv(alone, e);
    AddIgnoresClosed(w, e);
    var x := Add(alone, e);
    assert StepLists(l.Of(l.current));
    StepListsGrow(w.closed, x.closed);
    StepListsGrow(w.closed + x.closed, [x.open]);
    var r := PutWindow(l, Add(w, e));
    forall t: Step ensures StepLists(r.Of(t)) {
      assert StepLists(l.Of(t));
    }
  }

  lemma InsertKeepsInv(l: Log, s: Step, e: Entry)
    requires LogInv(l)
    ensures LogInv(Insert(l, s, e))
  {
    if l.current == s {
      InsertOpenKeepsInv(l, e);
    } else {
      StartKeepsInv(l, s);
      InsertOpenKeepsInv(StartList(l, s), e);
    }
  }

  lemma {:induction false} RunLogInv(h: seq<(Step, Entry)>)
    ensures LogInv(RunLog(h))
  {
    if h == [] {
      RunNormals([]);
      assert Unsealed([]);
    } else {
      RunLogInv(h[..|h| - 1]);
      InsertKeepsInv(RunLog(h[..|h| - 1]), h[|h| - 1].0, h[|h| - 1].1);
    }
  }

  // Feeding one step's saved requests to a log that never visited that step.
  lemma StartIsFresh(l: Log, s: Step)
    requires l.Of(s) == []
    ensures StartList(l, s).OpenWindow() == FRESH
  {
  }

  lemma OfIsLists(l: Log)
    requires l.HasOpen()
    ensures l.Of(l.current) == Lists(l.OpenWindow())
  {
  }

  lemma InsertRun(l: Log, s: Step, es: seq<Entry>, e: Entry)
    requires l.HasOpen()
    requires if l.current == s then l.OpenWindow() == Run(es) else es == [] && l.Of(s) == []
    ensures Insert(l, s, e).OpenWindow() == Run(es + [e])
    ensures Insert(l, s, e).Of(s) == Lists(Run(es + [e]))
    ensures forall t: Step :: t != s ==> Insert(l, s, e).Of(t) == l.Of(t)
  {
    RunExtends(es, e);
    if l.current != s {
      StartIsFresh(l, s);
      assert Run(es) == FRESH;
    }
    OfIsLists(Insert(l, s, e));
  }

  lemma InsertAllLast(l: Log, s: Step, es: seq<Entry>)
    requires l.HasOpen() && es != []
    ensures InsertAll(l, s, es) == Insert(InsertAll(l, s, es[..|es| - 1]), s, es[|es| - 1])
  {
  }

  lemma {:induction false} InsertAllFresh(l: Log, s: Step, es: seq<Entry>)
    requires l.HasOpen()
    requires if l.current == s then l.OpenWindow() == FRESH else l.Of(s) == []
    ensures es != [] ==> InsertAll(l, s, es).OpenWindow() == Run(es)
    ensures es != [] ==> InsertAll(l, s, es).Of(s) == Lists(Run(es))
    ensures forall t: Step :: t != s ==> InsertAll(l, s, es).Of(t) == l.Of(t)
  {
    if es != [] {
      var init, e := es[..|es| - 1], es[|es| - 1];
      assert init + [e] == es;
      InsertAllFresh(l, s, init);
      InsertAllLast(l, s, es);
      InsertRun(InsertAll(l, s, init), s, init, e);
    }
  }

  // ----- With the steps visited in order, each step's lists are one run -----

  ghost predicate OneRun(ls: seq<seq<Entry>>, es: seq<Entry>) {
    ls == Lists(Run(es)) || (ls == [] && es == [])
  }

  ghost predicate InOrderInv(h: seq<(Step, Entry)>, l: Log) {
    && l.HasOpen()
    && OneRun(l.step1, StepHistory(h, DefaultStep))
    && OneRun(l.step2, StepHistory(h, LsnCrcStep))
    && OneRun(l.step3, StepHistory(h, ExtraStep))
    && l.OpenWindow() == Run(StepHistory(h, l.current))
    && (Order(l.current) < 2 ==> l.step2 == [])
    && (Order(l.current) < 3 ==> l.step3 == [])
  }

  lemma InOrderStep(h: seq<(Step, Entry)>, l: Log, s: Step)
    requires InOrderInv(h, l)
    ensures OneRun(l.Of(s), StepHistory(h, s))
    ensures Order(s) > Order(l.current) ==> l.Of(s) == []
  {
  }

  lemma StepHistorySnoc(h: seq<(Step, Entry)>, s: Step, e: Entry, t: Step)
    ensures StepHistory(h + [(s, e)], t) == StepHistory(h, t) + (if t == s then [e] else [])
  {
    var g := h + [(s, e)];
    assert g[..|g| - 1] == h && g[|g| - 1] == (s, e);
  }

  lemma StepHistoryOther(h: seq<(Step, Entry)>, s: Step, e: Entry, t: Step)
    requires t != s
    ensures StepHistory(h + [(s, e)], t) == StepHistory(h, t)
  {
    StepHistorySnoc(h, s, e, t);
    assert StepHistory(h, t) + [] == StepHistory(h, t);
  }

  lemma OneRunNext(h: seq<(Step, Entry)>, l: Log, s: Step, e: Entry, t: Step)
    requires l.HasOpen() && OneRun(l.Of(t), StepHistory(h, t))
    requires if l.current == s then l.OpenWindow() == Run(StepHistory(h, s))
             else l.Of(s) == [] && StepHistory(h, s) == []
    ensures OneRun(Insert(l, s, e).Of(t), StepHistory(h + [(s, e)], t))
    ensures t == s ==> Insert(l, s, e).OpenWindow() == Run(StepHistory(h + [(s, e)], t))
  {
    InsertRun(l, s, StepHistory(h, s), e);
    if t == s {
      StepHistorySnoc(h, s, e, t);
    } else {
      StepHistoryOther(h, s, e, t);
    }
  }

  lemma LaterEmpty(l: Log, s: Step, e: Entry)
    requires l.HasOpen() && Order(l.current) <= Order(s)
    requires Order(l.current) < 2 ==> l.step2 == []
    requires Order(l.current) < 3 ==> l.step3 == []
    ensures Order(s) < 2 ==> Insert(l, s, e).step2 == []
    ensures Order(s) < 3 ==> Insert(l, s, e).step3 == []
  {
    assert s != LsnCrcStep ==> Insert(l, s, e).Of(LsnCrcStep) == l.Of(LsnCrcStep);
    assert s != ExtraStep ==> Insert(l, s, e).Of(ExtraStep) == l.Of(ExtraStep);
  }

  lemma InOrderAdd(h: seq<(Step, Entry)>, l: Log, s: Step, e: Entry)
    requires InOrderInv(h, l) && Order(l.current) <= Order(s)
    ensures InOrderInv(h + [(s, e)], Insert(l, s, e))
  {
    InOrderStep(h, l, s);
    assert l.current != s ==> Order(s) > Order(l.current);
    assert l.Of(s) == [] ==> StepHistory(h, s) == [];
    OneRunNext(h, l, s, e, DefaultStep);
    OneRunNext(h, l, s, e, LsnCrcStep);
    OneRunNext(h, l, s, e, ExtraStep);
    LaterEmpty(l, s, e);
  }

  lemma InOrderPrefix(h: seq<(Step, Entry)>)
    requires StepsInOrder(h) && h != []
    ensures StepsInOrder(h[..|h| - 1])
    ensures |h| > 1 ==> Order(h[..|h| - 1][|h| - 2].0) <= Order(h[|h| - 1].0)
  {
  }

  lemma InOrderInit()
    ensures InOrderInv([], INIT_LOG)
  {
    assert RunFrom(FRESH, []) == FRESH;
    assert Lists(FRESH) == [[]];
    assert INIT_LOG.step1[..0] == [];
  }

  lemma RunLogExtends(g: seq<(Step, Entry)>, s: Step, e: Entry)
    ensures RunLog(g + [(s, e)]) == Insert(RunLog(g), s, e)
  {
    assert (g + [(s, e)])[..|g|] == g;
  }

  lemma {:induction false} InOrderRuns(h: seq<(Step, Entry)>)
    requires StepsInOrder(h)
    ensures InOrderInv(h, RunLog(h))
    ensures RunLog(h).current == if h == [] then DefaultStep else h[|h| - 1].0
  {
    if h == [] {
      InOrderInit();
    } else {
      var g := h[..|h| - 1];
      var s, e := h[|h| - 1].0, h[|h| - 1].1;
      assert h == g + [(s, e)];
      InOrderPrefix(h);
      InOrderRuns(g);
      var l := RunLog(g);
      assert Order(l.current) <= Order(s);
      InOrderAdd(g, l, s, e);
      RunLogExtends(g, s, e);
    }
  }

  // The whole log against the whole history, step by step.
  lemma LogRetention(h: seq<(Step, Entry)>, s: Step)
    requires StepsInOrder(h)
    ensures Flatten(Kept(RunLog(h).Of(s))) == Retained(StepHistory(h, s))
  {
    InOrderRuns(h);
    var es := StepHistory(h, s);
    InOrderStep(h, RunLog(h), s);
    RetentionRefinement(es);
    if RunLog(h).Of(s) == [] && es == [] {
      assert Retained(es) == [];
    }
  }

  // For any order of steps, a step's lists survive a reload with their boundaries
  // exactly when each of them but the last ends in MAX_NORMAL_REQUEST normals.
  lemma StepReloadsIff(h: seq<(Step, Entry)>, s: Step)
    ensures var k := Kept(RunLog(h).Of(s));
            Reload(RunLog(h).Of(s)) == k <==>
            forall i :: 0 <= i < |k| - 1 ==> EndsWithNormals(k[i], MAX_NORMAL_REQUEST)
  {
    RunLogInv(h);
    ReloadSameIff(RunLog(h).Of(s));
  }

  // Leaving a step and coming back breaks this: the two lists come back as one.
  lemma RevisitMerges(a: Entry, b: Entry, c: Entry)
    requires Crash(a) && Crash(c)
    ensures var h := [] + [(DefaultStep, a)] + [(LsnCrcStep, b)] + [(DefaultStep, c)];
            Kept(RunLog(h).step1) == [[a], [c]] && Reload(RunLog(h).step1) == [[a, c]]
  {
    var h1 := [] + [(DefaultStep, a)];
    var h2 := h1 + [(LsnCrcStep, b)];
    RunLogExtends([], DefaultStep, a);
    RunLogExtends(h1, LsnCrcStep, b);
    RunLogExtends(h2, DefaultStep, c);
    assert Add(FRESH, a).closed == [] && Add(FRESH, a).open == [a] by {
      RunNormals([]);
    }
    assert INIT_LOG.OpenWindow() == FRESH;
    assert RunLog(h1).step1 == [[a]];
    InsertCrashAfterReturn(RunLog(h2), a, c);
    MergedLists(a, c);
  }

  lemma InsertCrashAfterReturn(l: Log, a: Entry, c: Entry)
    requires l.HasOpen() && l.current == LsnCrcStep && l.step1 == [[a]] && Crash(c)
    ensures Insert(l, DefaultStep, c).step1 == [[a]] + [[c]]
  {
    var r := StartList(l, DefaultStep);
    assert r.OpenWindow() == Window([[a]], [], 0, 0);
    assert [] + [c] == [c];
  }

  lemma MergedLists(a: Entry, c: Entry)
    requires Crash(a) && Crash(c)
    ensures Kept([[a]] + [[c]]) == [[a], [c]] && Reload([[a]] + [[c]]) == [[a, c]]
  {
    var k := [[a]] + [[c]];
    assert HasCrash([a]) by { assert Crash([a][0]); }
    assert HasCrash([c]) by { assert Crash([c][0]); }
    KeptClosed(k);
    assert k == [[a], [c]];
    FlattenPair([a], [c]);
    MergedRun(a, c);
  }

  lemma FlattenPair(a: seq<Entry>, c: seq<Entry>)
    ensures Flatten([a, c]) == a + c
  {
    var one := [a];
    assert one[..0] == [] && Flatten(one) == [] + a == a;
    assert [a, c][..1] == one;
  }

  lemma MergedRun(a: Entry, c: Entry)
    requires Crash(a) && Crash(c)
    ensures Kept(Lists(Run([a] + [c]))) == [[a, c]]
  {
    RunExtends([], a);
    RunExtends([a], c);
    assert [] + [a] == [a] && [a] + [c] == [a, c];
    assert Crash([a][0]) && Crash([a, c][0]);
    KeptLists(Run([a, c]));
  }
}
