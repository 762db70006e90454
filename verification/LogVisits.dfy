// The log of a verification that goes from step to step in any order: each step keeps
// what its visits keep, one after another.
module LogVisits {
  import opened LogWindow
  import opened LogModel

  function Current(h: seq<(Step, Entry)>): Step {
    if h == [] then DefaultStep else h[|h| - 1].0
  }

  // The requests of step s, one sequence for each time the verification was in it.
  function Visits(h: seq<(Step, Entry)>, s: Step): (vs: seq<seq<Entry>>)
    ensures h != [] && Current(h) == s ==> vs != []
  {
    if h == [] then []
    else
      var g, e := h[..|h| - 1], h[|h| - 1].1;
      var vs := Visits(g, s);
      if Current(h) != s then vs
      else if g != [] && Current(g) == s then vs[..|vs| - 1] + [vs[|vs| - 1] + [e]]
      else vs + [[e]]
  }

  lemma {:induction false} VisitsAreHistory(h: seq<(Step, Entry)>, s: Step)
    ensures Flatten(Visits(h, s)) == StepHistory(h, s)
  {
    if h != [] {
      var g, e := h[..|h| - 1], h[|h| - 1].1;
      var vs := Visits(g, s);
      VisitsAreHistory(g, s);
      if Current(h) != s {
        assert StepHistory(g, s) + [] == StepHistory(g, s);
      } else if g != [] && Current(g) == s {
        FlattenLast(vs[..|vs| - 1], vs[|vs| - 1] + [e]);
        assert Flatten(vs[..|vs| - 1]) + (vs[|vs| - 1] + [e]) == Flatten(vs) + [e];
      } else {
        FlattenLast(vs, [e]);
      }
    }
  }

  lemma FlattenLast<T>(ls: seq<seq<T>>, l: seq<T>)
    ensures Flatten(ls + [l]) == Flatten(ls) + l
  {
    assert (ls + [l])[..|ls|] == ls;
  }

  // What separate runs of the visits keep.
  function KeptAll(vs: seq<seq<Entry>>): seq<seq<Entry>> {
    if vs == [] then [] else KeptAll(vs[..|vs| - 1]) + Kept(Lists(Run(vs[|vs| - 1])))
  }

  ghost function RetainedAll(vs: seq<seq<Entry>>): seq<Entry> {
    if vs == [] then [] else RetainedAll(vs[..|vs| - 1]) + Retained(vs[|vs| - 1])
  }

  lemma {:induction false} FlattenAppend<T>(a: seq<seq<T>>, b: seq<seq<T>>)
    ensures Flatten(a + b) == Flatten(a) + Flatten(b)
    decreases |b|
  {
    if b == [] {
      assert a + b == a;
    } else {
      var init, last := b[..|b| - 1], b[|b| - 1];
      FlattenAppend(a, init);
      assert (a + b)[..|a + b| - 1] == a + init;
      assert Flatten(a) + Flatten(init) + last == Flatten(a) + (Flatten(init) + last);
    }
  }

  lemma {:induction false} KeptAppend(a: seq<seq<Entry>>, b: seq<seq<Entry>>)
    ensures Kept(a + b) == Kept(a) + Kept(b)
    decreases |b|
  {
    if b == [] {
      assert a + b == a;
    } else {
      var init, last := b[..|b| - 1], if HasCrash(b[|b| - 1]) then [b[|b| - 1]] else [];
      KeptAppend(a, init);
      assert (a + b)[..|a + b| - 1] == a + init;
      assert Kept(a) + Kept(init) + last == Kept(a) + (Kept(init) + last);
    }
  }

  lemma {:induction false} RetainedByVisits(vs: seq<seq<Entry>>)
    ensures Flatten(KeptAll(vs)) == RetainedAll(vs)
  {
    if vs != [] {
      var last := vs[|vs| - 1];
      RetainedByVisits(vs[..|vs| - 1]);
      FlattenAppend(KeptAll(vs[..|vs| - 1]), Kept(Lists(Run(last))));
      RetentionRefinement(last);
    }
  }

  // ----- The visit the verification is in -----

  function Visit(h: seq<(Step, Entry)>): seq<Entry> {
    if h == [] then [] else var vs := Visits(h, Current(h)); vs[|vs| - 1]
  }

  function Earlier(h: seq<(Step, Entry)>): seq<seq<Entry>> {
    if h == [] then [] else var vs := Visits(h, Current(h)); vs[..|vs| - 1]
  }

  // The open window is that of the visit alone, behind the lists c of earlier ones.
  ghost predicate InVisit(h: seq<(Step, Entry)>, l: Log, c: seq<seq<Entry>>) {
    && l.HasOpen() && l.current == Current(h)
    && l.OpenWindow() == Run(Visit(h)).(closed := c + Run(Visit(h)).closed)
    && Kept(c) == KeptAll(Earlier(h))
  }

  ghost predicate ElsewhereKept(h: seq<(Step, Entry)>, l: Log) {
    forall t: Step :: t != l.current ==> Kept(l.Of(t)) == KeptAll(Visits(h, t))
  }

  lemma CurrentKept(h: seq<(Step, Entry)>, l: Log, c: seq<seq<Entry>>)
    requires InVisit(h, l, c)
    ensures Kept(l.Of(l.current)) == KeptAll(Visits(h, l.current))
  {
    var w := Run(Visit(h));
    OfIsLists(l);
    assert c + w.closed + [w.open] == c + Lists(w);
    KeptAppend(c, Lists(w));
    if h == [] {
      KeptLists(FRESH);
    }
  }

  lemma AddBehind(c: seq<seq<Entry>>, w: Window, e: Entry)
    ensures Add(w.(closed := c + w.closed), e) == Add(w, e).(closed := c + Add(w, e).closed)
  {
    var open := [w.open + [e]];
    assert c + (w.closed + open) == c + w.closed + open;
  }

  // What one more request makes of the visits.
  lemma VisitsNext(h: seq<(Step, Entry)>, s: Step, e: Entry, t: Step)
    ensures var g := h + [(s, e)];
            && Current(g) == s && (t != s ==> Visits(g, t) == Visits(h, t))
            && Visit(g) == (if s == Current(h) then Visit(h) else []) + [e]
            && Earlier(g) == if s == Current(h) then Earlier(h) else Visits(h, s)
  {
    var g := h + [(s, e)];
    assert g[..|g| - 1] == h && g[|g| - 1] == (s, e);
    var vs := Visits(h, s);
    if h != [] && s == Current(h) {
      assert (vs[..|vs| - 1] + [vs[|vs| - 1] + [e]])[..|vs| - 1] == vs[..|vs| - 1];
    } else {
      assert (vs + [[e]])[..|vs|] == vs;
    }
  }

  lemma SameVisit(h: seq<(Step, Entry)>, l: Log, c: seq<seq<Entry>>, s: Step, e: Entry)
    requires InVisit(h, l, c) && s == l.current
    ensures InVisit(h + [(s, e)], Insert(l, s, e), c)
  {
    VisitsNext(h, s, e, s);
    RunExtends(Visit(h), e);
    AddBehind(c, Run(Visit(h)), e);
  }

  lemma NewVisit(h: seq<(Step, Entry)>, l: Log, s: Step, e: Entry)
    requires l.HasOpen() && l.current == Current(h) != s && ElsewhereKept(h, l)
    ensures InVisit(h + [(s, e)], Insert(l, s, e), l.Of(s))
  {
    VisitsNext(h, s, e, s);
    RunExtends([], e);
    AddBehind(l.Of(s), FRESH, e);
    assert StartList(l, s).OpenWindow() == Window(l.Of(s), [], 0, 0);
    assert l.Of(s) + FRESH.closed == l.Of(s);
  }

  lemma InsertElsewhere(l: Log, s: Step, e: Entry, t: Step)
    requires l.HasOpen() && t != s
    ensures Insert(l, s, e).Of(t) == l.Of(t) && Insert(l, s, e).current == s
  {
  }

  lemma StillKeptAt(h: seq<(Step, Entry)>, l: Log, c: seq<seq<Entry>>, s: Step, e: Entry, t: Step)
    requires InVisit(h, l, c) && ElsewhereKept(h, l) && t != s
    ensures Kept(Insert(l, s, e).Of(t)) == KeptAll(Visits(h + [(s, e)], t))
  {
    VisitsNext(h, s, e, t);
    InsertElsewhere(l, s, e, t);
    if t == l.current {
      CurrentKept(h, l, c);
    }
  }

  lemma StillKept(h: seq<(Step, Entry)>, l: Log, c: seq<seq<Entry>>, s: Step, e: Entry)
    requires InVisit(h, l, c) && ElsewhereKept(h, l)
    ensures ElsewhereKept(h + [(s, e)], Insert(l, s, e))
  {
    forall t: Step | t != s ensures Kept(Insert(l, s, e).Of(t)) == KeptAll(Visits(h + [(s, e)], t)) {
      StillKeptAt(h, l, c, s, e, t);
    }
  }

  lemma {:induction false} VisitsTracked(h: seq<(Step, Entry)>) returns (c: seq<seq<Entry>>)
    ensures InVisit(h, RunLog(h), c) && ElsewhereKept(h, RunLog(h))
  {
    if h == [] {
      c := [];
      assert INIT_LOG.OpenWindow() == FRESH;
    } else {
      var g, s, e := h[..|h| - 1], h[|h| - 1].0, h[|h| - 1].1;
      assert h == g + [(s, e)];
      c := VisitsTracked(g);
      RunLogExtends(g, s, e);
      StillKept(g, RunLog(g), c, s, e);
      if s == RunLog(g).current {
        SameVisit(g, RunLog(g), c, s, e);
      } else {
        NewVisit(g, RunLog(g), s, e);
        c := RunLog(g).Of(s);
      }
    }
  }

  // Whatever the order of steps, a step's crash lists are those of separate runs of
  // its visits, one after another; so it keeps the retained requests of each visit.
  lemma VisitRetention(h: seq<(Step, Entry)>, s: Step)
    ensures Kept(RunLog(h).Of(s)) == KeptAll(Visits(h, s))
    ensures Flatten(Kept(RunLog(h).Of(s))) == RetainedAll(Visits(h, s))
    ensures Flatten(Visits(h, s)) == StepHistory(h, s)
  {
    var c := VisitsTracked(h);
    if s == RunLog(h).current {
      CurrentKept(h, RunLog(h), c);
    }
    RetainedByVisits(Visits(h, s));
    VisitsAreHistory(h, s);
  }
}
