/**
 The state of one replica of the DAG as a value, and what it means for that
 state to be right: every index is a function of the events delivered so far.
 */
module DagState {
  import opened Events
  import opened Graphs

  datatype State = State(
    participants: set<PublicKey>,
    events: Graph,
    seenBy: map<EventId, set<PublicKey>>,
    depth: map<EventId, nat>,
    children: map<EventId, set<EventId>>,
    pending: Graph,
    waitingFor: map<EventId, set<EventId>>)

  // Everything ever delivered: the accepted events and the buffered ones.
  ghost function Delivered(s: State): Graph
    requires s.events.Keys !! s.pending.Keys
  {
    s.events + s.pending
  }

  // ---- What each index must say about the events ----

  // d is one more than the deepest parent, and 0 without parents
  ghost predicate IsDepth(depth: map<EventId, nat>, parents: seq<EventId>, d: nat) {
    && (forall p :: p in parents && p in depth ==> depth[p] < d)
    && (d == 0 || exists p :: p in parents && p in depth && depth[p] + 1 == d)
  }

  ghost predicate DepthExact(events: Graph, depth: map<EventId, nat>) {
    && depth.Keys == events.Keys
    && forall i {:trigger IsDepth(depth, events[i].parents, depth[i])} ::
      i in events ==> IsDepth(depth, events[i].parents, depth[i])
  }

  // a wrote an accepted event that has i as itself or as an ancestor
  ghost predicate Acked(events: Graph, a: PublicKey, i: EventId) {
    exists f :: f in events && events[f].author == a && Reaches(events, f, i)
  }

  ghost predicate SeenExact(participants: set<PublicKey>, events: Graph, seenBy: map<EventId, set<PublicKey>>) {
    && seenBy.Keys == events.Keys
    && forall i, a {:trigger Acked(events, a, i)} {:trigger a in seenBy[i]} ::
      i in events ==> (a in seenBy[i] <==> a in participants && Acked(events, a, i))
  }

  // The events of g that name p as a parent.
  ghost function Namers(g: Graph, p: EventId): set<EventId> {
    set c | c in g && p in g[c].parents
  }

  // p, when outside known, is a key exactly when some event of g names it as a
  // parent, and then maps to all those events.
  ghost predicate IndexedAt(known: set<EventId>, g: Graph, index: map<EventId, set<EventId>>, p: EventId) {
    && (p in index <==> p !in known && Namers(g, p) != {})
    && (p in index ==> index[p] == Namers(g, p))
  }

  ghost predicate IndexesNamers(known: set<EventId>, g: Graph, index: map<EventId, set<EventId>>) {
    forall p {:trigger IndexedAt(known, g, index, p)} :: IndexedAt(known, g, index, p)
  }

  ghost predicate NoneReady(events: Graph, pending: Graph) {
    forall q {:trigger Ready(events, pending[q])} :: q in pending ==> !Ready(events, pending[q])
  }

  // The part of the invariant that only the accepted events take part in.
  ghost predicate AcceptedInv(
      participants: set<PublicKey>, events: Graph, seenBy: map<EventId, set<PublicKey>>,
      depth: map<EventId, nat>, children: map<EventId, set<EventId>>)
  {
    && DownwardClosed(events)
    && DepthExact(events, depth)
    && SeenExact(participants, events, seenBy)
    && IndexesNamers({}, events, children)
  }

  // What every public operation of the DAG keeps.
  ghost predicate Inv(s: State) {
    && s.events.Keys !! s.pending.Keys
    && AcceptedInv(s.participants, s.events, s.seenBy, s.depth, s.children)
    && IndexesNamers(s.events.Keys, s.pending, s.waitingFor)
    && NoneReady(s.events, s.pending)
  }

  // ---- Acceptance is a least fixpoint ----

  // Every delivered event whose parents are all in a is in a.
  ghost predicate ClosedFor(delivered: Graph, a: set<EventId>) {
    forall i :: i in delivered && (forall p :: p in delivered[i].parents ==> p in a) ==> i in a
  }

  lemma {:induction false} AcceptedInClosedSet(
      events: Graph, depth: map<EventId, nat>, delivered: Graph, a: set<EventId>, i: EventId)
    requires DownwardClosed(events) && DepthExact(events, depth) && SubGraph(events, delivered)
    requires ClosedFor(delivered, a) && i in events
    ensures i in a
    decreases depth[i]
  {
    assert Ready(events, events[i]) && IsDepth(depth, events[i].parents, depth[i]);
    forall p | p in delivered[i].parents ensures p in a {
      AcceptedInClosedSet(events, depth, delivered, a, p);
    }
  }

  lemma AcceptedIsClosed(events: Graph, pending: Graph)
    requires events.Keys !! pending.Keys && NoneReady(events, pending)
    ensures ClosedFor(events + pending, events.Keys)
  {
    var d := events + pending;
    forall i | i in d && (forall p :: p in d[i].parents ==> p in events.Keys) ensures i in events.Keys {
      assert i in pending ==> !Ready(events, pending[i]);
    }
  }

  // The accepted events are exactly the least set closed under "delivered, with
  // all parents in the set", whatever cycles the delivered events contain.
  lemma AcceptedIsLeastClosed(s: State)
    requires Inv(s)
    ensures ClosedFor(Delivered(s), s.events.Keys)
    ensures forall a: set<EventId> :: ClosedFor(Delivered(s), a) ==> s.events.Keys <= a
  {
    AcceptedIsClosed(s.events, s.pending);
    forall a: set<EventId> | ClosedFor(Delivered(s), a) ensures s.events.Keys <= a {
      forall i | i in s.events.Keys ensures i in a {
        AcceptedInClosedSet(s.events, s.depth, Delivered(s), a, i);
      }
    }
  }

  // ---- Depth ----

  lemma {:induction false} PathBoundsDepth(
      events: Graph, depth: map<EventId, nat>, path: seq<EventId>, f: EventId, i: EventId)
    requires DownwardClosed(events) && DepthExact(events, depth)
    requires f in events && IsPath(events, path, f, i)
    ensures i in events && |path| - 1 + depth[i] <= depth[f]
  {
    if |path| > 1 {
      PathTail(events, path, f, i);
      assert Ready(events, events[f]) && IsDepth(depth, events[f].parents, depth[f]);
      PathBoundsDepth(events, depth, path[1..], path[1], i);
    }
  }

  lemma {:induction false} DeepestChain(events: Graph, depth: map<EventId, nat>, f: EventId)
    returns (path: seq<EventId>, root: EventId)
    requires DepthExact(events, depth) && f in events
    ensures IsPath(events, path, f, root) && |path| == depth[f] + 1
    decreases depth[f]
  {
    assert IsDepth(depth, events[f].parents, depth[f]);
    if depth[f] == 0 {
      path, root := [f], f;
    } else {
      var p :| p in events[f].parents && p in depth && depth[p] + 1 == depth[f];
      var rest, r := DeepestChain(events, depth, p);
      PathFromChild(events, rest, f, p, r);
      path, root := [f] + rest, r;
    }
  }

  // The cached depth of an event is the length of its longest chain of ancestors.
  lemma DepthIsLongestChain(s: State, f: EventId)
    requires Inv(s) && f in s.events
    ensures exists path, root :: IsPath(s.events, path, f, root) && |path| == s.depth[f] + 1
    ensures forall path, i :: IsPath(s.events, path, f, i) ==> |path| <= s.depth[f] + 1
  {
    var path, root := DeepestChain(s.events, s.depth, f);
    forall path, i | IsPath(s.events, path, f, i) ensures |path| <= s.depth[f] + 1 {
      PathBoundsDepth(s.events, s.depth, path, f, i);
    }
  }

  // An event delivered on a cycle of parents is never accepted.
  lemma CyclicStaysPending(s: State, path: seq<EventId>, f: EventId)
    requires Inv(s) && f in Delivered(s)
    requires |path| > 1 && IsPath(Delivered(s), path, f, f)
    ensures f in s.pending
  {
    if f in s.events {
      SharedPath(Delivered(s), s.events, path, f, f);
      PathBoundsDepth(s.events, s.depth, path, f, f);
    }
  }

  // ---- Every index is determined by what was delivered ----

  lemma {:induction false} DepthAgrees(
      g: Graph, h: Graph, gDepth: map<EventId, nat>, hDepth: map<EventId, nat>, i: EventId)
    requires DownwardClosed(g) && DepthExact(g, gDepth) && DownwardClosed(h) && DepthExact(h, hDepth)
    requires Agree(g, h) && i in g && i in h
    ensures gDepth[i] == hDepth[i]
    decreases gDepth[i]
  {
    var ps := g[i].parents;
    assert Ready(g, g[i]) && Ready(h, h[i]);
    assert IsDepth(gDepth, ps, gDepth[i]) && IsDepth(hDepth, ps, hDepth[i]);
    forall p | p in ps ensures gDepth[p] == hDepth[p] {
      DepthAgrees(g, h, gDepth, hDepth, p);
    }
  }

  // A view holding fewer deliveries accepts fewer events.
  lemma AcceptedGrows(s: State, t: State)
    requires Inv(s) && Inv(t) && SubGraph(Delivered(s), Delivered(t))
    ensures SubGraph(s.events, t.events)
  {
    var d := Delivered(s);
    AcceptedIsClosed(t.events, t.pending);
    forall i | i in d && (forall p :: p in d[i].parents ==> p in t.events.Keys) ensures i in t.events.Keys {
      assert Delivered(t)[i] == d[i];
    }
    assert ClosedFor(d, t.events.Keys);
    forall i | i in s.events ensures i in t.events && t.events[i] == s.events[i] {
      AcceptedInClosedSet(s.events, s.depth, d, t.events.Keys, i);
      assert d[i] == Delivered(t)[i];
    }
  }

  lemma DepthDetermined(events: Graph, d: map<EventId, nat>, d': map<EventId, nat>)
    requires DownwardClosed(events) && DepthExact(events, d) && DepthExact(events, d')
    ensures d == d'
  {
    forall i | i in events ensures d[i] == d'[i] {
      DepthAgrees(events, events, d, d', i);
    }
  }

  lemma SeenDetermined(ps: set<PublicKey>, events: Graph, n: map<EventId, set<PublicKey>>,
      n': map<EventId, set<PublicKey>>)
    requires SeenExact(ps, events, n) && SeenExact(ps, events, n')
    ensures n == n'
  {
    forall i | i in events ensures n[i] == n'[i] {
      forall a ensures a in n[i] <==> a in n'[i] {
        assert a in n'[i] <==> a in ps && Acked(events, a, i);
      }
    }
  }

  lemma IndexDetermined(known: set<EventId>, g: Graph, index: map<EventId, set<EventId>>,
      index': map<EventId, set<EventId>>)
    requires IndexesNamers(known, g, index) && IndexesNamers(known, g, index')
    ensures index == index'
  {
    forall p ensures p in index <==> p in index' ensures p in index ==> index[p] == index'[p] {
      assert IndexedAt(known, g, index, p) && IndexedAt(known, g, index', p);
    }
  }

  lemma SplitDetermined(events: Graph, pending: Graph, events': Graph, pending': Graph)
    requires events.Keys !! pending.Keys && events'.Keys !! pending'.Keys
    requires events + pending == events' + pending' && events.Keys == events'.Keys
    ensures events == events' && pending == pending'
  {
    assert events == map i | i in events.Keys :: (events + pending)[i];
    assert events' == map i | i in events'.Keys :: (events' + pending')[i];
    assert pending == (events + pending) - events.Keys;
    assert pending' == (events' + pending') - events'.Keys;
  }

  // Two replicas that were delivered the same events are in the same state.
  lemma StateDetermined(s: State, t: State)
    requires Inv(s) && Inv(t)
    requires s.participants == t.participants && Delivered(s) == Delivered(t)
    ensures s == t
  {
    AcceptedGrows(s, t);
    AcceptedGrows(t, s);
    SplitDetermined(s.events, s.pending, t.events, t.pending);
    DepthDetermined(s.events, s.depth, t.depth);
    SeenDetermined(s.participants, s.events, s.seenBy, t.seenBy);
    IndexDetermined({}, s.events, s.children, t.children);
    IndexDetermined(s.events.Keys, s.pending, s.waitingFor, t.waitingFor);
  }
}
