// The crash log as the program keeps it: request lists linked into one list per
// verification step, each request list a chain of requests with a growing array
// of pointers to its crashed ones.
module VerifyLog {
  import opened Types
  import opened LogWindow
  import opened LogModel
  import opened LogCodec

  const DEFAULT_CRASH_ALLOC_COUNT := 3

  class RequestInfo {
    const lsn: Word
    const sectors: Word
    const status: Word
    const pages: Option<seq<Byte>>
    var next: RequestInfo?

    constructor (lsn: Word, sectors: Word, status: Word, pages: Option<seq<Byte>>)
      ensures this.lsn == lsn && this.sectors == sectors && this.status == status && this.pages == pages
      ensures next == null
    {
      this.lsn, this.sectors, this.status, this.pages := lsn, sectors, status, pages;
      next := null;
    }

    function View(): Entry {
      Entry(lsn, sectors, status, pages)
    }
  }

  ghost function Views(nodes: seq<RequestInfo>): (es: seq<Entry>)
    ensures |es| == |nodes|
    ensures forall i :: 0 <= i < |nodes| ==> es[i] == nodes[i].View()
  {
    seq(|nodes|, i requires 0 <= i < |nodes| => nodes[i].View())
  }

  // The crashed nodes of a chain, in chain order.
  ghost function CrashNodes(nodes: seq<RequestInfo>): seq<RequestInfo?> {
    if nodes == [] then []
    else
      CrashNodes(nodes[..|nodes| - 1]) +
      (if Crash(nodes[|nodes| - 1].View()) then [nodes[|nodes| - 1]] else [])
  }

  // Room for n pointers: n rounded up to the allocation unit.
  function Capacity(n: nat): (c: nat)
    ensures n <= c < n + DEFAULT_CRASH_ALLOC_COUNT
    ensures c % DEFAULT_CRASH_ALLOC_COUNT == 0
  {
    (n + DEFAULT_CRASH_ALLOC_COUNT - 1) / DEFAULT_CRASH_ALLOC_COUNT * DEFAULT_CRASH_ALLOC_COUNT
  }

  lemma {:induction false} CrashNodesEmpty(nodes: seq<RequestInfo>)
    ensures CrashNodes(nodes) == [] <==> !HasCrash(Views(nodes))
  {
    if nodes != [] {
      var init, last := nodes[..|nodes| - 1], nodes[|nodes| - 1];
      CrashNodesEmpty(init);
      assert Views(nodes) == Views(init) + [last.View()];
      CrashesCarryOver(Views(init), last.View());
    }
  }

  lemma CrashNodesExtends(ns: seq<RequestInfo>, info: RequestInfo)
    ensures CrashNodes(ns + [info]) == CrashNodes(ns) + (if Crash(info.View()) then [info] else [])
  {
    assert (ns + [info])[..|ns|] == ns;
  }

  // The nodes left when info slides into a list without a crash.
  ghost function Slid(ns: seq<RequestInfo>, info: RequestInfo): seq<RequestInfo> {
    if |ns| + 1 > MAX_NORMAL_REQUEST + 1 then (ns + [info])[1..] else ns + [info]
  }

  lemma NoCrashSuffix(ns: seq<RequestInfo>)
    requires CrashNodes(ns) == [] && ns != []
    ensures CrashNodes(ns[1..]) == []
  {
    CrashNodesEmpty(ns);
    forall i | 0 <= i < |ns| - 1 ensures !Crash(Views(ns[1..])[i]) {
      assert !Crash(Views(ns)[i + 1]);
    }
    CrashNodesEmpty(ns[1..]);
  }

  lemma SlidCrashNodes(ns: seq<RequestInfo>, info: RequestInfo)
    requires CrashNodes(ns) == []
    ensures CrashNodes(Slid(ns, info)) == if Crash(info.View()) then [info] else []
  {
    if |ns| + 1 > MAX_NORMAL_REQUEST + 1 {
      NoCrashSuffix(ns);
      CrashNodesExtends(ns[1..], info);
      assert Slid(ns, info) == ns[1..] + [info];
    } else {
      CrashNodesExtends(ns, info);
    }
  }

  // The nodes left when info goes into a list with nodes ns.
  ghost function Pushed(ns: seq<RequestInfo>, info: RequestInfo): seq<RequestInfo> {
    if CrashNodes(ns) == [] then Slid(ns, info) else ns + [info]
  }

  lemma SlideIsAdd(ns: seq<RequestInfo>, info: RequestInfo, before: nat, after: nat)
    requires CrashNodes(ns) == [] && before == |ns|
    ensures Add(Window([], Views(ns), before, after), info.View()) ==
            Window([], Views(Slid(ns, info)), |Slid(ns, info)|, if Crash(info.View()) then 0 else after)
  {
    CrashNodesEmpty(ns);
    assert Views(ns + [info]) == Views(ns) + [info.View()];
    assert Views((ns + [info])[1..]) == Views(ns + [info])[1..];
  }

  lemma AppendIsAdd(ns: seq<RequestInfo>, info: RequestInfo, before: nat, after: nat)
    requires CrashNodes(ns) != []
    ensures var ms, e := ns + [info], info.View();
            Add(Window([], Views(ns), before, after), e) ==
            if after + 1 >= MAX_NORMAL_REQUEST && !Crash(e) then Window([Views(ms)], [], 0, 0)
            else Window([], Views(ms), before, if Crash(e) then 0 else after + 1)
  {
    CrashNodesEmpty(ns);
    assert Views(ns + [info]) == Views(ns) + [info.View()];
  }

  lemma PushedMembers(ns: seq<RequestInfo>, info: RequestInfo)
    ensures var ms := Pushed(ns, info);
            forall i :: 0 <= i < |ms| ==> ms[i] == info || ms[i] in ns
  {
  }

  lemma PushedNodes(ns: seq<RequestInfo>, info: RequestInfo)
    ensures var ms := Pushed(ns, info);
            && CrashNodes(ms) == CrashNodes(ns) + (if Crash(info.View()) then [info] else [])
            && (forall i :: 0 <= i < |ms| ==> ms[i] == info || ms[i] in ns)
  {
    if CrashNodes(ns) == [] {
      SlidCrashNodes(ns, info);
    } else {
      CrashNodesExtends(ns, info);
    }
    PushedMembers(ns, info);
  }

  // Pushing a node is one `Add` on the view.
  lemma PushedIsAdd(ns: seq<RequestInfo>, info: RequestInfo, before: nat, after: nat)
    requires CrashNodes(ns) == [] ==> before == |ns|
    ensures var (ms, e) := (Pushed(ns, info), info.View());
            Add(Window([], Views(ns), before, after), e) ==
            if CrashNodes(ns) == [] then Window([], Views(ms), |ms|, if Crash(e) then 0 else after)
            else if after + 1 >= MAX_NORMAL_REQUEST && !Crash(e) then Window([Views(ms)], [], 0, 0)
            else Window([], Views(ms), before, if Crash(e) then 0 else after + 1)
  {
    if CrashNodes(ns) == [] {
      SlideIsAdd(ns, info, before, after);
    } else {
      AppendIsAdd(ns, info, before, after);
    }
  }

  // Putting back a window whose open list became es, closed or not.
  lemma PutClosed(l: Log, es: seq<Entry>)
    requires l.HasOpen()
    ensures var vs := l.Of(l.current);
            var l' := l.With(l.current, vs[..|vs| - 1] + [es]);
            PutWindow(l, Window(vs[..|vs| - 1] + [es], [], 0, 0)) == StartList(l', l.current)
  {
  }

  lemma PutOpen(l: Log, es: seq<Entry>, b: nat, a: nat)
    requires l.HasOpen()
    ensures var vs := l.Of(l.current);
            PutWindow(l, Window(vs[..|vs| - 1], es, b, a)) ==
            l.With(l.current, vs[..|vs| - 1] + [es]).(before := b, after := a)
  {
  }

  lemma ShownWith(l: Log, s: Step, b0: nat, a0: nat, vs: seq<seq<Entry>>, b: nat, a: nat)
    ensures l.With(s, vs).(current := s, before := b, after := a) ==
            l.(current := s, before := b0, after := a0).With(s, vs).(before := b, after := a)
  {
  }

  // What one `Add` does to the open window of a log, given what it does alone.
  lemma AddOpen(l: Log, open: seq<Entry>, e: Entry)
    requires l.HasOpen() && l.OpenWindow().open == open
    ensures var vs := l.Of(l.current);
            var x := Add(Window([], open, l.before, l.after), e);
            Add(l.OpenWindow(), e) == Window(vs[..|vs| - 1] + x.closed, x.open, x.before, x.after)
  {
    AddIgnoresClosed(l.OpenWindow(), e);
    assert l.OpenWindow().(closed := []) == Window([], open, l.before, l.after);
  }

  lemma PutAdded(l: Log, x: Window, es: seq<Entry>)
    requires l.HasOpen()
    requires x == Window([es], [], 0, 0) || x == Window([], es, x.before, x.after)
    ensures var vs := l.Of(l.current);
            var l' := l.With(l.current, vs[..|vs| - 1] + [es]);
            PutWindow(l, Window(vs[..|vs| - 1] + x.closed, x.open, x.before, x.after)) ==
            if x.closed != [] then StartList(l', l.current) else l'.(before := x.before, after := x.after)
  {
    var vs := l.Of(l.current);
    if x.closed != [] {
      PutClosed(l, es);
    } else {
      assert vs[..|vs| - 1] + [] == vs[..|vs| - 1];
      PutOpen(l, es, x.before, x.after);
    }
  }

  // What pushing a node means for the log the lists show.
  lemma {:induction false} PushedIsPut(l: Log, ns: seq<RequestInfo>, info: RequestInfo)
    requires l.HasOpen() && l.OpenWindow().open == Views(ns)
    requires CrashNodes(ns) == [] ==> l.before == |ns|
    ensures var (vs, es, e) := (l.Of(l.current), Views(Pushed(ns, info)), info.View());
            var l' := l.With(l.current, vs[..|vs| - 1] + [es]);
            PutWindow(l, Add(l.OpenWindow(), e)) ==
            if CrashNodes(ns) == [] then l'.(before := |es|, after := if Crash(e) then 0 else l.after)
            else if l.after + 1 >= MAX_NORMAL_REQUEST && !Crash(e) then StartList(l', l.current)
            else l'.(after := if Crash(e) then 0 else l.after + 1)
  {
    var x := Add(Window([], Views(ns), l.before, l.after), info.View());
    PushedIsAdd(ns, info, l.before, l.after);
    AddOpen(l, Views(ns), info.View());
    PutAdded(l, x, Views(Pushed(ns, info)));
  }

  // The same, for what an insertion leaves behind: the log shows v.
  lemma PushedOutcome(l: Log, ns: seq<RequestInfo>, info: RequestInfo, v: Log, full: bool)
    requires l.HasOpen() && l.OpenWindow().open == Views(ns)
    requires CrashNodes(ns) == [] ==> l.before == |ns|
    requires v == l.With(l.current, l.Of(l.current)[..|l.Of(l.current)| - 1] + [Views(Pushed(ns, info))])
                  .(before := v.before, after := v.after)
    requires v.before == if CrashNodes(ns) == [] then |Pushed(ns, info)| else l.before
    requires v.after == if Crash(info.View()) then 0 else if CrashNodes(ns) == [] then l.after else l.after + 1
    requires full == (CrashNodes(ns) != [] && v.after >= MAX_NORMAL_REQUEST)
    ensures PutWindow(l, Add(l.OpenWindow(), info.View())) == if full then StartList(v, v.current) else v
  {
    PushedIsPut(l, ns, info);
  }

  // What an insertion does to the two counters, and whether the list is complete then:
  // for a list with or without a crash before, and with so many nodes after it.
  predicate Counted(noCrash: bool, nodes: nat, before: nat, after: nat, crash: bool, b: nat, a: nat, full: bool) {
    && b == (if noCrash then nodes else before)
    && a == (if crash then 0 else if noCrash then after else after + 1)
    && full == (!noCrash && a >= MAX_NORMAL_REQUEST)
  }

  class RequestList {
    var head: RequestInfo?
    var tail: RequestInfo?
    var requestCount: nat
    // The growing array of crashed requests; its length is the allocated capacity.
    var crashPointer: seq<RequestInfo?>
    var crashRequestCount: nat
    var next: RequestList?
    ghost var nodes: seq<RequestInfo>
    // Every object of the lists in front of this one.
    ghost const rest: set<object>

    // A chain of exactly requestCount nodes from head to tail, where it ends.
    ghost predicate Chain()
      reads this`head, this`tail, this`requestCount, this`nodes, nodes
    {
      && requestCount == |nodes|
      && (nodes == [] ==> head == null && tail == null)
      && (nodes != [] ==> head == nodes[0] && tail == nodes[|nodes| - 1] && tail.next == null)
      && (forall i :: 0 <= i < |nodes| - 1 ==> nodes[i].next == nodes[i + 1])
    }

    // The pointer array lists exactly the crashed nodes of ns, in order, and has
    // the crash count rounded up as its capacity.
    ghost predicate Crashes(ns: seq<RequestInfo>)
      reads this`crashPointer, this`crashRequestCount
    {
      && crashRequestCount == |CrashNodes(ns)|
      && |crashPointer| == Capacity(crashRequestCount)
      && crashPointer[..crashRequestCount] == CrashNodes(ns)
    }

    ghost predicate Valid()
      reads this`head, this`tail, this`requestCount, this`nodes, nodes
      reads this`crashPointer, this`crashRequestCount
    {
      Chain() && Crashes(nodes)
    }

    ghost function View(): seq<Entry>
      reads this`nodes
    {
      Views(nodes)
    }

    constructor (ghost rest: set<object>)
      ensures Valid() && nodes == [] && next == null && this.rest == rest
    {
      this.rest := rest;
      head, tail, next := null, null, null;
      crashPointer := [];
      crashRequestCount, requestCount := 0, 0;
      nodes := [];
    }

    method Append(info: RequestInfo)
      requires Chain() && info.next == null && info !in nodes
      modifies this`head, this`tail, this`requestCount, this`nodes, tail
      ensures Chain() && nodes == old(nodes) + [info]
    {
      if requestCount == 0 {
        head := info;
        tail := info;
      } else {
        tail.next := info;
        tail := info;
      }
      requestCount := requestCount + 1;
      nodes := nodes + [info];
    }

    method EvictHead()
      requires Chain() && |nodes| >= 2
      modifies this`head, this`requestCount, this`nodes
      ensures Chain() && nodes == old(nodes)[1..]
    {
      head := head.next;
      requestCount := requestCount - 1;
      nodes := nodes[1..];
    }

    // Stores info behind the crashed nodes of ns, growing the array when it is
    // full; rs is a chain with one crashed node more.
    method RecordCrash(info: RequestInfo, ghost ns: seq<RequestInfo>, ghost rs: seq<RequestInfo>)
      requires Crashes(ns) && CrashNodes(rs) == CrashNodes(ns) + [info]
      modifies this`crashPointer, this`crashRequestCount
      ensures Crashes(rs)
    {
      if crashRequestCount == 0 {
        crashPointer := seq(DEFAULT_CRASH_ALLOC_COUNT, _ => null);
      } else if crashRequestCount % DEFAULT_CRASH_ALLOC_COUNT == 0 {
        var allocCount := (crashRequestCount / DEFAULT_CRASH_ALLOC_COUNT + 1) * DEFAULT_CRASH_ALLOC_COUNT;
        crashPointer := crashPointer[..crashRequestCount] + seq(allocCount - crashRequestCount, _ => null);
      }
      crashPointer := crashPointer[crashRequestCount := info];
      crashRequestCount := crashRequestCount + 1;
    }

    // Append while there is no crash: only the last MAX_NORMAL_REQUEST + 1 stay.
    method Slide(info: RequestInfo, before: nat) returns (before': nat)
      requires Chain() && info.next == null && info !in nodes
      requires before == |nodes|
      modifies this`head, this`tail, this`requestCount, this`nodes, tail
      ensures Chain() && nodes == Slid(old(nodes), info) && before' == |nodes|
    {
      before' := before;
      Append(info);
      before' := before' + 1;
      if before' > MAX_NORMAL_REQUEST + 1 {
        EvictHead();
        before' := before' - 1;
      }
    }

    // The chain part of one insertion; `full` says that the list is complete.
    method Push(info: RequestInfo, before: nat, after: nat) returns (before': nat, after': nat, full: bool)
      requires Chain() && info.next == null && info !in nodes
      requires crashRequestCount == |CrashNodes(nodes)|
      requires crashRequestCount == 0 ==> before == |nodes|
      modifies this`head, this`tail, this`requestCount, this`nodes, tail
      ensures Chain() && nodes == Pushed(old(nodes), info)
      ensures before' == if crashRequestCount == 0 then |nodes| else before
      ensures after' == if crashRequestCount == 0 then after else after + 1
      ensures full == (crashRequestCount != 0 && after' >= MAX_NORMAL_REQUEST && !Crash(info.View()))
    {
      before', after', full := before, after, false;
      if crashRequestCount == 0 {
        before' := Slide(info, before);
      } else {
        Append(info);
        after' := after' + 1;
        full := after' >= MAX_NORMAL_REQUEST && info.status < VERI_EREQUEST;
      }
    }

    // Puts info at the end of the open list, lets the window slide and records a
    // crash; when `full`, a new list is to be opened.
    method Insert(info: RequestInfo, before: nat, after: nat) returns (before': nat, after': nat, full: bool)
      requires Valid() && info.next == null && info !in nodes
      requires crashRequestCount == 0 ==> before == |nodes|
      modifies this`head, this`tail, this`requestCount, this`nodes, tail
      modifies this`crashPointer, this`crashRequestCount
      ensures Valid() && nodes == Pushed(old(nodes), info)
      ensures forall i :: 0 <= i < |nodes| ==> nodes[i] == info || nodes[i] in old(nodes)
      ensures crashRequestCount == 0 ==> before' == |nodes|
      ensures Counted(old(crashRequestCount) == 0, |nodes|, before, after, Crash(info.View()), before', after', full)
    {
      ghost var ns := nodes;
      PushedNodes(ns, info);
      before', after', full := Push(info, before, after);
      if info.status >= VERI_EREQUEST {
        after' := 0;
        RecordCrash(info, ns, nodes);
      }
    }
  }

  // A chain has no cycle: no node comes twice.
  lemma {:induction false} ChainAcyclic(l: RequestList, i: nat, j: nat)
    requires l.Chain() && i < j < |l.nodes|
    ensures l.nodes[i] != l.nodes[j]
    decreases |l.nodes| - j
  {
    assert l.nodes[i].next == l.nodes[i + 1];
    if j < |l.nodes| - 1 {
      assert l.nodes[j].next == l.nodes[j + 1];
      ChainAcyclic(l, i + 1, j + 1);
    }
  }

  // A list and its nodes are among the objects r.
  ghost predicate Inside(l: RequestList, r: set<object>)
    reads l`nodes
  {
    l in r && forall i :: 0 <= i < |l.nodes| ==> l.nodes[i] in r
  }

  // A list has nothing in common with the lists in front of it.
  ghost predicate Apart(l: RequestList)
    reads l`nodes
  {
    l !in l.rest && forall i :: 0 <= i < |l.nodes| ==> l.nodes[i] !in l.rest
  }

  // The lists that are no longer open: valid, showing vs, linked in order up to
  // nxt, made of objects in r, and sharing no node with one another.
  ghost predicate Done(ls: seq<RequestList>, vs: seq<seq<Entry>>, r: set<object>, nxt: RequestList)
    reads r
    decreases |ls|
  {
    && |ls| == |vs|
    && (ls != [] ==>
          var last := ls[|ls| - 1];
          && last in r && Inside(last, r) && Apart(last) && last.rest <= r
          && last.Valid() && last.next == nxt && last.View() == vs[|vs| - 1]
          && Done(ls[..|ls| - 1], vs[..|vs| - 1], last.rest, last))
  }

  lemma {:induction false} DoneAt(ls: seq<RequestList>, vs: seq<seq<Entry>>, r: set<object>, nxt: RequestList, i: nat)
    requires Done(ls, vs, r, nxt) && i < |ls|
    ensures ls[i] in r && ls[i].Valid() && ls[i].View() == vs[i]
    ensures ls[i].next == if i + 1 < |ls| then ls[i + 1] else nxt
    decreases |ls|
  {
    var last := ls[|ls| - 1];
    if i < |ls| - 1 {
      DoneAt(ls[..|ls| - 1], vs[..|vs| - 1], last.rest, last, i);
    }
  }

  lemma DoneMore(p: Past, t: RequestList, r: set<object>, nxt: RequestList)
    requires Done(p.lists, p.views, t.rest, t)
    requires t in r && Inside(t, r) && Apart(t) && t.rest <= r && t.Valid() && t.next == nxt
    ensures Done(p.lists + [t], p.views + [t.View()], r, nxt)
  {
    assert (p.lists + [t])[..|p.lists|] == p.lists;
    assert (p.views + [t.View()])[..|p.views|] == p.views;
  }

  // The lists before the last one of a step and what they show.
  datatype Past = Past(lists: seq<RequestList>, views: seq<seq<Entry>>)

  class LogManager {
    var head: RequestList?
    var tail: RequestList?
    ghost var past: Past

    // The lists show vs, and repr holds every object of the structure.
    ghost predicate Valid(repr: set<object>, vs: seq<seq<Entry>>)
      reads this, repr
    {
      && this in repr
      && (tail == null ==> head == null && past == Past([], []) && vs == [])
      && (tail != null ==> EndsIn(tail, repr) && vs == past.views + [tail.View()])
    }

    ghost predicate EndsIn(t: RequestList, repr: set<object>)
      reads this, repr
    {
      && head == (if past.lists == [] then t else past.lists[0])
      && t in repr && Inside(t, repr) && Apart(t)
      && this !in t.rest && t.rest <= repr
      && t.next == null && t.Valid()
      && Done(past.lists, past.views, t.rest, t)
    }

    // The objects in front of a list that is linked next.
    ghost function NextRest(): set<object>
      reads this, tail
    {
      if tail == null then {} else tail.rest + {tail} + set o: object | o in tail.nodes
    }

    constructor ()
      ensures Valid({this}, []) && tail == null
    {
      head, tail := null, null;
      past := Past([], []);
    }

    // With t linked to list, the lists up to t are past.
    ghost method Pass(list: RequestList, t: RequestList, repr: set<object>)
      requires this in repr && t in repr && list !in repr && tail == list
      requires head == (if past.lists == [] then t else past.lists[0])
      requires Inside(t, list.rest) && Apart(t) && t.rest <= list.rest <= repr && this !in list.rest
      requires t.Valid() && t.next == list
      requires list.Valid() && list.next == null && list.nodes == []
      requires Done(past.lists, past.views, t.rest, t)
      modifies this`past
      ensures Valid(repr + {list}, old(past.views) + [t.View()] + [[]])
    {
      DoneMore(past, t, list.rest, list);
      past := Past(past.lists + [t], past.views + [t.View()]);
    }

    method InsertBehind(list: RequestList, t: RequestList, ghost repr: set<object>, ghost vs: seq<seq<Entry>>)
      requires Valid(repr, vs) && tail == t && list !in repr
      requires list.Valid() && list.next == null && list.nodes == [] && list.rest == NextRest()
      modifies this`tail, this`past, t`next
      ensures Valid(repr + {list}, vs + [[]]) && tail == list && list.nodes == []
    {
      Link(t, list);
      Pass(list, t, repr);
    }

    method Link(t: RequestList, list: RequestList)
      requires t.Valid() && t != list
      modifies this`tail, t`next
      ensures tail == list && t.next == list && t.Valid()
    {
      t.next := list;
      tail := list;
    }

    // A fresh list is linked behind the others.
    method InsertList(list: RequestList, ghost repr: set<object>, ghost vs: seq<seq<Entry>>)
      requires Valid(repr, vs) && list !in repr
      requires list.Valid() && list.next == null && list.nodes == [] && list.rest == NextRest()
      modifies repr
      ensures Valid(repr + {list}, vs + [[]]) && tail == list && list.nodes == []
    {
      if head == null {
        head := list;
        tail := list;
      } else {
        InsertBehind(list, tail, repr, vs);
      }
    }

    // One request goes into the last list; the others stay as they are.
    method InsertTail(info: RequestInfo, before: nat, after: nat, ghost repr: set<object>, ghost vs: seq<seq<Entry>>)
      returns (before': nat, after': nat, full: bool)
      requires Valid(repr, vs) && tail != null && info !in repr && info.next == null
      requires tail.crashRequestCount == 0 ==> before == |tail.nodes|
      modifies repr
      ensures tail == old(tail)
      ensures vs != [] && Valid(repr + {info}, vs[..|vs| - 1] + [tail.View()])
      ensures tail.nodes == Pushed(old(tail.nodes), info)
      ensures tail.crashRequestCount == 0 ==> before' == |tail.nodes|
      ensures Counted(old(tail.crashRequestCount) == 0, |tail.nodes|, before, after, Crash(info.View()),
                      before', after', full)
    {
      assert vs[..|vs| - 1] == past.views;
      before', after', full := PushTail(tail, info, before, after, repr);
    }

    // The lists in front of the last one are not touched.
    method PushTail(t: RequestList, info: RequestInfo, before: nat, after: nat, ghost repr: set<object>)
      returns (before': nat, after': nat, full: bool)
      requires t.Valid() && Inside(t, repr) && Apart(t) && t.rest <= repr && info !in repr && info.next == null
      requires Done(past.lists, past.views, t.rest, t)
      requires t.crashRequestCount == 0 ==> before == |t.nodes|
      modifies t`head, t`tail, t`requestCount, t`nodes, t`crashPointer, t`crashRequestCount, t.tail
      ensures t.Valid() && Inside(t, repr + {info}) && Apart(t)
      ensures Done(past.lists, past.views, t.rest, t)
      ensures t.nodes == Pushed(old(t.nodes), info)
      ensures t.crashRequestCount == 0 ==> before' == |t.nodes|
      ensures Counted(old(t.crashRequestCount) == 0, |t.nodes|, before, after, Crash(info.View()),
                      before', after', full)
    {
      before', after', full := t.Insert(info, before, after);
    }

    method Clear()
      modifies this
      ensures Valid({this}, []) && tail == null
    {
      head, tail := null, null;
      past := Past([], []);
    }
  }

  datatype Reprs = Reprs(repr1: set<object>, repr2: set<object>, repr3: set<object>) {
    ghost function Of(s: Step): set<object> {
      match s
      case DefaultStep => repr1
      case LsnCrcStep => repr2
      case ExtraStep => repr3
    }

    ghost function With(s: Step, r: set<object>): (rs: Reprs)
      ensures rs.Of(s) == r
      ensures forall t :: t != s ==> rs.Of(t) == Of(t)
    {
      match s
      case DefaultStep => this.(repr1 := r)
      case LsnCrcStep => this.(repr2 := r)
      case ExtraStep => this.(repr3 := r)
    }
  }

  // The steps' objects are all in `all`, do not overlap, and exclude the log itself.
  ghost predicate Separate(rs: Reprs, all: set<object>, self: object) {
    && self !in all
    && rs.repr1 <= all && rs.repr2 <= all && rs.repr3 <= all
    && rs.repr1 !! rs.repr2 && rs.repr1 !! rs.repr3 && rs.repr2 !! rs.repr3
  }

  lemma SeparateGrows(rs: Reprs, all: set<object>, self: object, s: Step, o: object)
    requires Separate(rs, all, self) && o !in all && o != self
    ensures Separate(rs.With(s, rs.Of(s) + {o}), all + {o}, self)
  {
  }

  lemma SeparateSteps(rs: Reprs, all: set<object>, self: object, s: Step)
    requires Separate(rs, all, self)
    ensures rs.Of(s) <= all && self !in rs.Of(s)
    ensures forall t {:trigger rs.Of(t)} :: t != s ==> rs.Of(t) !! rs.Of(s)
  {
  }

  class CrashLog {
    const step1: LogManager
    const step2: LogManager
    const step3: LogManager
    var open: RequestList?
    var before: nat
    var after: nat
    var currentStep: Step
    // The objects of each step and what its lists show.
    ghost var reprs: Reprs
    ghost var shown: Log
    ghost var repr: set<object>

    function Manager(s: Step): LogManager {
      match s
      case DefaultStep => step1
      case LsnCrcStep => step2
      case ExtraStep => step3
    }

    // The steps own disjoint structures.
    ghost predicate Steps()
      reads this`reprs, this`shown, this`repr, repr
    {
      && Separate(reprs, repr, this)
      && (forall s {:trigger reprs.Of(s)} :: Manager(s) in reprs.Of(s) && reprs.Of(s) <= repr)
      && (forall s {:trigger reprs.Of(s)} :: Manager(s).Valid(reprs.Of(s), shown.Of(s)))
    }

    // ... and the open list ends the current step.
    ghost predicate Valid()
      reads this, repr
    {
      && Steps()
      && (open != null ==>
            && open in reprs.Of(currentStep)
            && Manager(currentStep).tail == open
            && (open.crashRequestCount == 0 ==> before == |open.nodes|))
    }

    ghost function View(): Log
      reads this
    {
      shown.(current := currentStep, before := before, after := after)
    }

    constructor ()
      ensures Valid() && fresh(repr) && open == null
    {
      step1 := new LogManager();
      step2 := new LogManager();
      step3 := new LogManager();
      open, before, after, currentStep := null, 0, 0, DefaultStep;
      shown := Log([], [], [], DefaultStep, 0, 0);
      reprs := Reprs({step1}, {step2}, {step3});
      repr := {step1, step2, step3};
    }

    // Every step but s is as recorded.
    ghost predicate Others(s: Step)
      reads this`reprs, this`shown, this`repr, repr
    {
      && Separate(reprs, repr, this)
      && (forall t {:trigger reprs.Of(t)} :: Manager(t) in reprs.Of(t) && reprs.Of(t) <= repr)
      && (forall t {:trigger reprs.Of(t)} :: t != s ==> Manager(t).Valid(reprs.Of(t), shown.Of(t)))
    }

    // Takes note of one more object in step s and of what the step shows now.
    ghost method Note(s: Step, o: object, vs: seq<seq<Entry>>)
      requires Others(s) && o !in repr && o != this && Manager(s).Valid(reprs.Of(s) + {o}, vs)
      modifies this`repr, this`reprs, this`shown
      ensures Steps() && repr == old(repr) + {o} && reprs == old(reprs).With(s, old(reprs).Of(s) + {o})
      ensures shown == old(shown).With(s, vs)
    {
      SeparateGrows(reprs, repr, this, s, o);
      reprs := reprs.With(s, reprs.Of(s) + {o});
      shown := shown.With(s, vs);
      repr := repr + {o};
    }

    method InsertManagerList(list: RequestList, s: Step)
      requires Steps() && list !in repr
      requires list.Valid() && list.next == null && list.nodes == [] && list.rest == Manager(s).NextRest()
      modifies this`repr, this`reprs, this`shown, reprs.Of(s)
      ensures Steps() && repr == old(repr) + {list} && list in reprs.Of(s)
      ensures Manager(s).tail == list && list.nodes == []
      ensures shown == old(shown).With(s, old(shown).Of(s) + [[]])
    {
      SeparateSteps(reprs, repr, this, s);
      Manager(s).InsertList(list, reprs.Of(s), shown.Of(s));
      Note(s, list, shown.Of(s) + [[]]);
    }

    lemma StepsKept()
      requires Steps()
      ensures Separate(reprs, repr, this)
      ensures forall s {:trigger reprs.Of(s)} :: Manager(s) in reprs.Of(s) && reprs.Of(s) <= repr
      ensures forall s {:trigger reprs.Of(s)} :: Manager(s).Valid(reprs.Of(s), shown.Of(s))
    {
    }

    // List t, the last of step s, is the open one, with these counters.
    method Adopt(t: RequestList, s: Step, b: nat, a: nat)
      requires Steps() && t in reprs.Of(s) && Manager(s).tail == t
      requires t.crashRequestCount == 0 ==> b == |t.nodes|
      modifies this`open, this`before, this`after, this`currentStep
      ensures Valid() && open == t
      ensures View() == shown.(current := s, before := b, after := a)
    {
      SetGlobals(t, s, b, a);
      StepsKept();
    }

    method SetGlobals(t: RequestList, s: Step, b: nat, a: nat)
      modifies this`open, this`before, this`after, this`currentStep
      ensures open == t && currentStep == s && before == b && after == a
    {
      open, before, after, currentStep := t, b, a, s;
    }

    // A fresh empty list, hung at the end of step s, becomes the open one.
    method StartOpenList(s: Step)
      requires Valid()
      modifies this, repr
      ensures Valid() && open != null && fresh(open) && repr == old(repr) + {open}
      ensures View() == StartList(old(View()), s)
    {
      SeparateSteps(reprs, repr, this, s);
      var list := new RequestList(Manager(s).NextRest());
      InsertManagerList(list, s);
      Adopt(list, s, 0, 0);
    }

    method ClearManagers()
      requires step1 != step2 && step1 != step3 && step2 != step3
      modifies step1, step2, step3
      ensures step1.Valid({step1}, []) && step2.Valid({step2}, []) && step3.Valid({step3}, [])
    {
      step1.Clear();
      step2.Clear();
      step3.Clear();
    }

    ghost method ForgetAll()
      requires step1 != step2 && step1 != step3 && step2 != step3
      requires step1.Valid({step1}, []) && step2.Valid({step2}, []) && step3.Valid({step3}, [])
      modifies this`shown, this`reprs, this`repr
      ensures Steps() && repr == {step1, step2, step3} && shown == Log([], [], [], DefaultStep, 0, 0)
    {
      shown := Log([], [], [], DefaultStep, 0, 0);
      reprs := Reprs({step1}, {step2}, {step3});
      repr := {step1, step2, step3};
    }

    lemma ManagersApart()
      requires Steps()
      ensures step1 != step2 && step1 != step3 && step2 != step3 && {step1, step2, step3} <= repr
    {
      assert Manager(DefaultStep) in reprs.Of(DefaultStep);
      assert Manager(LsnCrcStep) in reprs.Of(LsnCrcStep);
      assert Manager(ExtraStep) in reprs.Of(ExtraStep);
    }

    method CloseList()
      requires Steps()
      modifies this`open
      ensures Valid() && open == null
    {
      open := null;
    }

    // Forgets every list; the counters and the step stay.
    method VerifyDestroyLog()
      requires Valid()
      modifies this, step1, step2, step3
      ensures Valid() && open == null && repr == {step1, step2, step3}
      ensures currentStep == old(currentStep) && before == old(before) && after == old(after)
      ensures View() == Log([], [], [], currentStep, before, after)
    {
      ManagersApart();
      ClearManagers();
      ForgetAll();
      CloseList();
    }

    method VerifyInitLog() returns (ghost added: set<object>)
      requires Valid()
      modifies this, repr
      ensures Valid() && open != null && View() == INIT_LOG
      ensures fresh(added) && repr <= old(repr) + added
    {
      ManagersApart();
      VerifyDestroyLog();
      StartOpenList(DefaultStep);
      added := {open};
    }

    // One request into list t, the last of step s.
    method InsertStep(t: RequestList, s: Step, info: RequestInfo) returns (before': nat, after': nat, full: bool)
      requires Steps() && Manager(s).tail == t && t in reprs.Of(s)
      requires info !in repr && info.next == null
      requires t.crashRequestCount == 0 ==> before == |t.nodes|
      modifies this`repr, this`reprs, this`shown, reprs.Of(s)
      ensures Steps() && repr == old(repr) + {info} && reprs.Of(s) == old(reprs).Of(s) + {info}
      ensures Manager(s).tail == t && t.nodes == Pushed(old(t.nodes), info)
      ensures t.crashRequestCount == 0 ==> before' == |t.nodes|
      ensures old(shown).Of(s) != []
      ensures shown == old(shown).With(s, old(shown).Of(s)[..|old(shown).Of(s)| - 1] + [t.View()])
      ensures Counted(old(t.crashRequestCount) == 0, |t.nodes|, before, after, Crash(info.View()),
                      before', after', full)
    {
      ghost var vs := shown.Of(s);
      SeparateSteps(reprs, repr, this, s);
      before', after', full := Manager(s).InsertTail(info, before, after, reprs.Of(s), vs);
      assert Others(s);
      Note(s, info, vs[..|vs| - 1] + [t.View()]);
    }

    method InsertOpen(t: RequestList, info: RequestInfo) returns (full: bool)
      requires Valid() && open == t && info !in repr && info.next == null
      modifies this, repr
      ensures Valid() && repr == old(repr) + {info} && open == t && currentStep == old(currentStep)
      ensures t.nodes == Pushed(old(t.nodes), info)
      ensures old(View()).HasOpen()
      ensures var (l, s) := (old(View()), old(currentStep));
              View() == l.With(s, l.Of(s)[..|l.Of(s)| - 1] + [t.View()]).(before := before, after := after)
      ensures Counted(old(t.crashRequestCount) == 0, |t.nodes|, old(before), old(after), Crash(info.View()),
                      before, after, full)
    {
      OpenShown();
      ghost var (sh, l) := (shown, View());
      var b, a, f := InsertStep(t, currentStep, info);
      ghost var vs := sh.Of(l.current)[..|sh.Of(l.current)| - 1] + [t.View()];
      assert shown == sh.With(l.current, vs);
      ShownWith(sh, l.current, l.before, l.after, vs, b, a);
      Adopt(t, currentStep, b, a);
      full := f;
    }

    // One request into the open list; what is left to do when it is full.
    method InsertWindow(t: RequestList, info: RequestInfo) returns (full: bool)
      requires Valid() && open == t && info !in repr && info.next == null
      modifies this, repr
      ensures Valid() && repr == old(repr) + {info} && open == t && currentStep == old(currentStep)
      ensures old(View()).HasOpen()
      ensures PutWindow(old(View()), Add(old(View()).OpenWindow(), info.View())) ==
              if full then StartList(View(), currentStep) else View()
    {
      OpenShown();
      ghost var l := View();
      ghost var ns := t.nodes;
      full := InsertOpen(t, info);
      PushedOutcome(l, ns, info, View(), full);
    }

    // A list that is complete starts a new one.
    method InsertCurrent(info: RequestInfo) returns (ghost added: set<object>)
      requires Valid() && open != null && info !in repr && info.next == null
      modifies this, repr, info
      ensures Valid() && open != null && old(View()).HasOpen()
      ensures fresh(added) && repr == old(repr) + {info} + added
      ensures View() == PutWindow(old(View()), Add(old(View()).OpenWindow(), info.View()))
    {
      added := {};
      var full := InsertWindow(open, info);
      if full {
        StartOpenList(currentStep);
        added := {open};
      }
    }

    // A new step starts a list.
    method SwitchStep(step: Step) returns (ghost added: set<object>)
      requires Valid() && open != null
      modifies this, repr
      ensures Valid() && open != null
      ensures fresh(added) && repr == old(repr) + added
      ensures View() == if old(currentStep) == step then old(View()) else StartList(old(View()), step)
    {
      added := {};
      if currentStep != step {
        StartOpenList(step);
        added := {open};
      }
    }

    method InsertUnderStep(info: RequestInfo, step: Step) returns (ghost added: set<object>)
      requires Valid() && open != null && info !in repr && info.next == null
      modifies this, repr, info
      ensures Valid() && open != null && old(View()).HasOpen()
      ensures fresh(added) && repr == old(repr) + {info} + added
      ensures View() == LogModel.Insert(old(View()), step, info.View())
    {
      OpenShown();
      added := SwitchStep(step);
      ghost var more := InsertCurrent(info);
      added := added + more;
    }

    // The request goes into the list of the current step.
    method InsertRequestList(info: RequestInfo, step: Step) returns (ghost added: set<object>)
      requires Valid() && info !in repr && info.next == null
      modifies this, repr, info
      ensures Valid()
      ensures fresh(added) && repr <= old(repr) + {info} + added
      ensures old(open) == null ==> open == null && View() == old(View())
      ensures old(open) != null ==> open != null && old(View()).HasOpen()
      ensures old(open) != null ==> View() == LogModel.Insert(old(View()), step, info.View())
    {
      added := {};
      if open == null {
        return;
      }
      added := InsertUnderStep(info, step);
    }

    // Builds the record of one verified request and files it under the given step.
    method VerifyInsertRequestInfo(lsn: Word, sectors: Word, pages: Option<seq<Byte>>, status: Word, step: Step)
      returns (ghost added: set<object>)
      requires Valid()
      requires pages.Some? && Crash(Entry(lsn, sectors, status, pages)) ==> |pages.value| >= Pages(sectors)
      modifies this, repr
      ensures Valid()
      ensures fresh(added) && repr <= old(repr) + added
      ensures old(open) == null ==> open == null && View() == old(View())
      ensures old(open) != null ==> open != null && old(View()).HasOpen()
      ensures old(open) != null ==>
                View() == LogModel.Insert(old(View()), step, MakeEntry(lsn, sectors, pages, status))
    {
      var kept := None;
      if pages.Some? && status >= VERI_EREQUEST {
        kept := Some(pages.value[..Pages(sectors)]);
      }
      var info := new RequestInfo(lsn, sectors, status, kept);
      added := InsertRequestList(info, step);
      added := added + {info};
    }

    lemma OpenShown()
      requires Valid() && open != null
      ensures shown.Of(currentStep) != []
      ensures shown.Of(currentStep)[|shown.Of(currentStep)| - 1] == open.View() == View().OpenWindow().open
      ensures open.crashRequestCount == |CrashNodes(open.nodes)|
    {
      assert Manager(currentStep).Valid(reprs.Of(currentStep), shown.Of(currentStep));
    }
  }
}
