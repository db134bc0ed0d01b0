/** What one accepted event does to each index of the DAG. */
module DagSteps {
  import opened Events
  import opened Graphs
  import opened DagState

  // ---- Indexes by parent ----

  // map.entry(k).or_default()
  function Entry<T>(index: map<EventId, set<T>>, k: EventId): set<T> {
    if k in index then index[k] else {}
  }

  // map.entry(p).or_default().insert(c)
  function AddTo(index: map<EventId, set<EventId>>, p: EventId, c: EventId): map<EventId, set<EventId>> {
    index[p := Entry(index, p) + {c}]
  }

  function AddToAll(index: map<EventId, set<EventId>>, ps: seq<EventId>, c: EventId): map<EventId, set<EventId>> {
    if ps == [] then index else AddTo(AddToAll(index, ps[..|ps| - 1], c), ps[|ps| - 1], c)
  }

  lemma {:induction false} AddToAllEffect(index: map<EventId, set<EventId>>, ps: seq<EventId>, c: EventId, p: EventId)
    ensures p in AddToAll(index, ps, c) <==> p in index || p in ps
    ensures p in AddToAll(index, ps, c) ==>
      AddToAll(index, ps, c)[p] == Entry(index, p) + (if p in ps then {c} else {})
  {
    if ps != [] {
      AddToAllEffect(index, ps[..|ps| - 1], c, p);
      assert ps == ps[..|ps| - 1] + [ps[|ps| - 1]];
    }
  }

  // Storing an event under every parent outside known keeps the index exact.
  lemma IndexOneMore(known: set<EventId>, g: Graph, index: map<EventId, set<EventId>>, e: Event, ps: seq<EventId>)
    requires IndexesNamers(known, g, index) && e.id !in g
    requires forall p :: p in ps <==> p in e.parents && p !in known
    ensures IndexesNamers(known, g[e.id := e], AddToAll(index, ps, e.id))
  {
    var g', index' := g[e.id := e], AddToAll(index, ps, e.id);
    forall p ensures IndexedAt(known, g', index', p) {
      assert IndexedAt(known, g, index, p);
      AddToAllEffect(index, ps, e.id, p);
      assert Namers(g', p) == Namers(g, p) + (if p in e.parents then {e.id} else {});
    }
  }

  lemma KeysAreMissing(known: set<EventId>, g: Graph, index: map<EventId, set<EventId>>)
    requires IndexesNamers(known, g, index)
    ensures forall p :: p in index.Keys <==> p !in known && Namers(g, p) != {}
  {
    forall p ensures p in index.Keys <==> p !in known && Namers(g, p) != {} {
      assert IndexedAt(known, g, index, p);
    }
  }

  // ---- Depth and ancestry of a new event ----

  lemma DepthOneMore(events: Graph, depth: map<EventId, nat>, e: Event, d: nat)
    requires DownwardClosed(events) && DepthExact(events, depth)
    requires e.id !in events && Ready(events, e) && IsDepth(depth, e.parents, d)
    ensures DownwardClosed(events[e.id := e]) && DepthExact(events[e.id := e], depth[e.id := d])
  {
    var events', depth' := events[e.id := e], depth[e.id := d];
    forall i | i in events'
      ensures Ready(events', events'[i]) && IsDepth(depth', events'[i].parents, depth'[i])
    {
      if i != e.id {
        assert Ready(events, events[i]) && IsDepth(depth, events[i].parents, depth[i]);
      }
    }
  }

  // An accepted event's ancestors do not change when another event joins, and
  // nothing older reaches the newcomer.
  lemma ReachOneMore(events: Graph, e: Event, f: EventId, i: EventId)
    requires DownwardClosed(events) && e.id !in events && Ready(events, e) && f in events
    ensures Reaches(events[e.id := e], f, i) <==> Reaches(events, f, i)
    ensures Reaches(events, f, i) ==> i in events
  {
    var events' := events[e.id := e];
    forall j | j in events' ensures Ready(events', events'[j]) {
      if j != e.id {
        assert Ready(events, events[j]);
      }
    }
    SharedAncestors(events, events', f, i);
  }

  // ---- Spreading "seen by" to ancestors ----

  ghost function Marked(events: Graph, seenBy: map<EventId, set<PublicKey>>, id: EventId, a: PublicKey)
    : map<EventId, set<PublicKey>>
  {
    map i | i in seenBy :: if Reaches(events, id, i) then seenBy[i] + {a} else seenBy[i]
  }

  // Whoever has seen an event has seen its parents.
  ghost predicate SeenDown(events: Graph, seenBy: map<EventId, set<PublicKey>>, a: PublicKey) {
    && seenBy.Keys == events.Keys
    && forall i, p :: i in seenBy && a in seenBy[i] && p in events[i].parents ==> p in seenBy && a in seenBy[p]
  }

  ghost function Elems(xs: seq<EventId>): set<EventId> {
    set x | x in xs
  }

  // seenBy with a added at the events of done.
  ghost function MarkedAt(seenBy: map<EventId, set<PublicKey>>, done: set<EventId>, a: PublicKey)
    : map<EventId, set<PublicKey>>
  {
    map i | i in seenBy :: if i in done then seenBy[i] + {a} else seenBy[i]
  }

  lemma MarkOneMore(seenBy: map<EventId, set<PublicKey>>, done: set<EventId>, x: EventId, a: PublicKey)
    requires x in seenBy
    ensures MarkedAt(seenBy, done, a)[x := MarkedAt(seenBy, done, a)[x] + {a}] == MarkedAt(seenBy, done + {x}, a)
  {}

  lemma ElemsConcat(xs: seq<EventId>, ys: seq<EventId>)
    ensures Elems(xs + ys) == Elems(xs) + Elems(ys)
  {}

  lemma ElemsPop(xs: seq<EventId>)
    requires xs != []
    ensures Elems(xs) == Elems(xs[..|xs| - 1]) + {xs[|xs| - 1]}
  {
    assert xs == xs[..|xs| - 1] + [xs[|xs| - 1]];
  }

  // The parents of i are marked, or on the stack, or had the mark before.
  ghost predicate ParentsDue(events: Graph, before: map<EventId, set<PublicKey>>,
      done: set<EventId>, stack: set<EventId>, i: EventId, a: PublicKey)
    requires i in events
  {
    forall p :: p in events[i].parents ==> p in done || p in stack || (p in before && a in before[p])
  }

  ghost predicate Ancestor(events: Graph, id: EventId, x: EventId) {
    x in events && Reaches(events, id, x)
  }

  // In the middle of the walk from id: only ancestors of id are marked or on the
  // stack, and a marked event's parent that is not marked is on the stack.
  ghost predicate Walking(events: Graph, before: map<EventId, set<PublicKey>>,
      done: set<EventId>, stack: set<EventId>, id: EventId, a: PublicKey)
  {
    && (forall x {:trigger Ancestor(events, id, x)} :: x in done || x in stack ==> Ancestor(events, id, x))
    && (forall i {:trigger ParentsDue(events, before, done, stack, i, a)} ::
          i in done ==> i in events && ParentsDue(events, before, done, stack, i, a))
    && (id in done || id in stack || (id in before && a in before[id]))
  }

  lemma WalkMark(events: Graph, before: map<EventId, set<PublicKey>>,
      done: set<EventId>, rest: set<EventId>, x: EventId, id: EventId, a: PublicKey)
    requires DownwardClosed(events) && Walking(events, before, done, rest + {x}, id, a)
    ensures x in events
    ensures Walking(events, before, done + {x}, rest + Elems(events[x].parents), id, a)
  {
    assert Ancestor(events, id, x) && Ready(events, events[x]);
    forall y | y in done + {x} || y in rest + Elems(events[x].parents) ensures Ancestor(events, id, y) {
      if y in events[x].parents {
        ReachesToParent(events, id, x, y);
      }
    }
    forall i | i in done + {x}
      ensures i in events && ParentsDue(events, before, done + {x}, rest + Elems(events[x].parents), i, a)
    {
      assert Ancestor(events, id, i);
      assert i != x ==> ParentsDue(events, before, done, rest + {x}, i, a);
    }
  }

  // Popping an event that has the mark already.
  lemma WalkPast(events: Graph, before: map<EventId, set<PublicKey>>,
      done: set<EventId>, rest: set<EventId>, x: EventId, id: EventId, a: PublicKey)
    requires Walking(events, before, done, rest + {x}, id, a)
    requires x in done || (x in before && a in before[x])
    ensures Walking(events, before, done, rest, id, a)
  {
    forall y | y in done || y in rest ensures Ancestor(events, id, y) {}
    forall i | i in done ensures i in events && ParentsDue(events, before, done, rest, i, a) {
      assert Ancestor(events, id, i) && ParentsDue(events, before, done, rest + {x}, i, a);
    }
  }

  lemma WalkEnd(events: Graph, before: map<EventId, set<PublicKey>>, done: set<EventId>, id: EventId, a: PublicKey)
    requires SeenDown(events, before, a) && id in events && Walking(events, before, done, {}, id, a)
    ensures MarkedAt(before, done, a) == Marked(events, before, id, a)
  {
    var seen := set i | i in events && (i in done || a in before[i]);
    forall x, p | x in seen && x in events && p in events[x].parents ensures p in seen {
      if x in done {
        assert ParentsDue(events, before, done, {}, x, a);
        assert p in done ==> Ancestor(events, id, p);
      }
    }
    forall i | i in before ensures MarkedAt(before, done, a)[i] == Marked(events, before, id, a)[i] {
      if i in done {
        assert Ancestor(events, id, i);
      } else if Reaches(events, id, i) {
        ClosedUnderReach(events, seen, id, i);
      }
    }
  }

  // The marks make "seen by" exact again after a new event.
  lemma SeenOneMore(ps: set<PublicKey>, events: Graph, seenBy: map<EventId, set<PublicKey>>, e: Event)
    requires DownwardClosed(events) && SeenExact(ps, events, seenBy) && e.id !in events && Ready(events, e)
    ensures
      var events', blank := events[e.id := e], seenBy[e.id := {}];
      SeenExact(ps, events', if e.author in ps then Marked(events', blank, e.id, e.author) else blank)
  {
    var events', blank := events[e.id := e], seenBy[e.id := {}];
    var seen' := if e.author in ps then Marked(events', blank, e.id, e.author) else blank;
    ReachesSelf(events', e.id);
    forall i, a | i in events' ensures a in seen'[i] <==> a in ps && Acked(events', a, i) {
      if f :| f in events' && events'[f].author == a && Reaches(events', f, i) {
        if f != e.id {
          ReachOneMore(events, e, f, i);
          assert Acked(events, a, i);
        }
      }
      if i in events && Acked(events, a, i) {
        var f :| f in events && events[f].author == a && Reaches(events, f, i);
        ReachOneMore(events, e, f, i);
        assert f in events' && events'[f].author == a && Reaches(events', f, i);
      }
    }
  }

  lemma SeenIsDownward(ps: set<PublicKey>, events: Graph, seenBy: map<EventId, set<PublicKey>>, a: PublicKey)
    requires DownwardClosed(events) && SeenExact(ps, events, seenBy)
    ensures SeenDown(events, seenBy, a)
  {
    forall i, p | i in events && a in seenBy[i] && p in events[i].parents ensures p in events && a in seenBy[p] {
      assert Ready(events, events[i]) && Acked(events, a, i);
      var f :| f in events && events[f].author == a && Reaches(events, f, i);
      ReachesToParent(events, f, i, p);
      assert Acked(events, a, p);
    }
  }

  // All the indexes after accepting a ready event.
  lemma AcceptOneMore(ps: set<PublicKey>, events: Graph, seenBy: map<EventId, set<PublicKey>>,
      depth: map<EventId, nat>, children: map<EventId, set<EventId>>, e: Event, d: nat)
    requires AcceptedInv(ps, events, seenBy, depth, children)
    requires e.id !in events && Ready(events, e) && IsDepth(depth, e.parents, d)
    ensures
      var events', blank := events[e.id := e], seenBy[e.id := {}];
      && DownwardClosed(events') && SeenDown(events', blank, e.author)
      && AcceptedInv(ps, events', if e.author in ps then Marked(events', blank, e.id, e.author) else blank,
           depth[e.id := d], AddToAll(children, e.parents, e.id))
  {
    IndexOneMore({}, events, children, e, e.parents);
    DepthOneMore(events, depth, e, d);
    SeenOneMore(ps, events, seenBy, e);
    NewcomerSeenDown(ps, events, seenBy, e);
  }

  // Buffering an event with missing parents keeps the invariant.
  lemma BufferOneMore(s: State, e: Event, missing: seq<EventId>)
    requires Inv(s) && e.id !in s.events && e.id !in s.pending && missing != []
    requires forall p :: p in missing <==> p in e.parents && p !in s.events
    ensures Inv(s.(pending := s.pending[e.id := e], waitingFor := AddToAll(s.waitingFor, missing, e.id)))
  {
    IndexOneMore(s.events.Keys, s.pending, s.waitingFor, e, missing);
    assert missing[0] in e.parents;
  }

  // ---- Releasing buffered events ----

  // Ready events of the buffer are all on the worklist.
  ghost predicate ReadyListed(events: Graph, pending: Graph, worklist: seq<EventId>) {
    forall q {:trigger Ready(events, pending[q])} :: q in pending && Ready(events, pending[q]) ==> q in worklist
  }

  // Taking the ready event c out of the buffer leaves no trace in the index.
  lemma IndexReleased(known: set<EventId>, g: Graph, index: map<EventId, set<EventId>>, c: EventId)
    requires IndexesNamers(known, g, index) && c in g
    requires forall p :: p in g[c].parents ==> p in known
    ensures IndexesNamers(known, g - {c}, index)
  {
    forall p ensures IndexedAt(known, g - {c}, index, p) {
      assert IndexedAt(known, g, index, p);
      assert p !in known ==> Namers(g - {c}, p) == Namers(g, p);
    }
  }

  // Dropping the key of an event that has just become known.
  lemma IndexForget(known: set<EventId>, g: Graph, index: map<EventId, set<EventId>>, c: EventId)
    requires IndexesNamers(known, g, index)
    ensures IndexesNamers(known + {c}, g, index - {c})
    ensures c !in known ==> Namers(g, c) == if c in index then index[c] else {}
  {
    assert IndexedAt(known, g, index, c);
    forall p ensures IndexedAt(known + {c}, g, index - {c}, p) {
      assert IndexedAt(known, g, index, p);
    }
  }

  // Only events naming id may be ready.
  ghost predicate ReadyNames(events: Graph, pending: Graph, id: EventId) {
    forall q {:trigger Ready(events, pending[q])} ::
      q in pending && Ready(events, pending[q]) ==> id in pending[q].parents
  }

  lemma ReadyAfterInsert(events: Graph, pending: Graph, e: Event)
    requires NoneReady(events, pending) && e.id !in events
    ensures ReadyNames(events[e.id := e], pending, e.id)
  {
    forall q | q in pending && Ready(events[e.id := e], pending[q]) ensures e.id in pending[q].parents {
      assert !Ready(events, pending[q]);
    }
  }

  // The author of a new event has seen it nowhere yet, so the mark starts clean.
  lemma NewcomerSeenDown(ps: set<PublicKey>, events: Graph, seenBy: map<EventId, set<PublicKey>>, e: Event)
    requires DownwardClosed(events) && SeenExact(ps, events, seenBy) && e.id !in events && Ready(events, e)
    ensures SeenDown(events[e.id := e], seenBy[e.id := {}], e.author)
  {
    SeenIsDownward(ps, events, seenBy, e.author);
  }

  // An event that is not ready, or no longer in the buffer, leaves the worklist.
  lemma ReadyPop(events: Graph, pending: Graph, worklist: seq<EventId>)
    requires worklist != [] && ReadyListed(events, pending, worklist)
    requires
      var c := worklist[|worklist| - 1];
      c in pending ==> !Ready(events, pending[c])
    ensures ReadyListed(events, pending, worklist[..|worklist| - 1])
  {
    assert worklist == worklist[..|worklist| - 1] + [worklist[|worklist| - 1]];
  }

  // Everything that c's acceptance makes ready names c.
  lemma ReadyAfter(events: Graph, pending: Graph, worklist: seq<EventId>, unblocked: seq<EventId>)
    requires worklist != [] && ReadyListed(events, pending, worklist)
    requires worklist[|worklist| - 1] in pending && worklist[|worklist| - 1] !in events
    requires var c := worklist[|worklist| - 1]; Namers(pending - {c}, c) <= Elems(unblocked)
    ensures
      var c := worklist[|worklist| - 1];
      ReadyListed(events[c := pending[c]], pending - {c}, worklist[..|worklist| - 1] + unblocked)
  {
    var c, rest := worklist[|worklist| - 1], worklist[..|worklist| - 1];
    assert worklist == rest + [c];
    var events', pending' := events[c := pending[c]], pending - {c};
    forall q | q in pending' && Ready(events', pending'[q]) ensures q in rest + unblocked {
      if c !in pending'[q].parents {
        assert Ready(events, pending[q]);
      } else {
        assert q in Namers(pending', c);
      }
    }
  }

  // After an accepted event's own waiters have been listed, nothing ready is missed.
  lemma ReadyNamesListed(events: Graph, pending: Graph, id: EventId, unblocked: seq<EventId>)
    requires ReadyNames(events, pending, id) && Namers(pending, id) <= Elems(unblocked)
    ensures ReadyListed(events, pending, unblocked)
  {
    forall q | q in pending && Ready(events, pending[q]) ensures q in unblocked {
      assert q in Namers(pending, id);
    }
  }

  // Moving an event from the buffer to the accepted ones delivers nothing new.
  lemma MoveKeepsDelivered(events: Graph, pending: Graph, c: EventId)
    requires c in pending && events.Keys !! pending.Keys
    ensures events[c := pending[c]] + (pending - {c}) == events + pending
  {}

  lemma InsertDelivers(events: Graph, pending: Graph, e: Event)
    requires e.id !in events && e.id !in pending
    ensures events[e.id := e] + pending == (events + pending)[e.id := e] == events + pending[e.id := e]
  {}

  // The buffer, its index and the worklist after releasing the last event of the
  // worklist and listing the events that waited for it.
  lemma Released(events: Graph, pending: Graph, waitingFor: map<EventId, set<EventId>>, worklist: seq<EventId>,
      unblocked: seq<EventId>)
    requires events.Keys !! pending.Keys && IndexesNamers(events.Keys, pending, waitingFor)
    requires worklist != [] && ReadyListed(events, pending, worklist)
    requires var c := worklist[|worklist| - 1];
      c in pending && Ready(events, pending[c]) && Elems(unblocked) == Entry(waitingFor, c)
    ensures
      var c := worklist[|worklist| - 1];
      var events', pending' := events[c := pending[c]], pending - {c};
      && events'.Keys !! pending'.Keys && events' + pending' == events + pending
      && IndexesNamers(events'.Keys, pending', waitingFor - {c})
      && ReadyListed(events', pending', worklist[..|worklist| - 1] + unblocked)
  {
    var c := worklist[|worklist| - 1];
    MoveKeepsDelivered(events, pending, c);
    IndexReleased(events.Keys, pending, waitingFor, c);
    IndexForget(events.Keys, pending - {c}, waitingFor, c);
    ReadyAfter(events, pending, worklist, unblocked);
    assert events[c := pending[c]].Keys == events.Keys + {c};
  }
}
