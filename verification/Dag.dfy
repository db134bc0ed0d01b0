/**
 The DAG of one replica (src/dag.rs): six maps updated in place, a buffer that
 releases events once their parents are accepted, and the walk that spreads
 "seen by" to ancestors and stops where the mark already is.
 */
module Dags {
  import opened Events
  import opened Graphs
  import opened DagState
  import opened DagSteps
  import opened Consensus

  datatype InsertResult =
    | Inserted(id: EventId)
    | Buffered(eventId: EventId, missing: seq<EventId>)
    | Duplicate

  function Outside(events: Graph, ids: seq<EventId>): seq<EventId> {
    if ids == [] then []
    else (if ids[0] in events then [] else [ids[0]]) + Outside(events, ids[1..])
  }

  lemma {:induction false} OutsideMembers(events: Graph, ids: seq<EventId>)
    ensures forall p :: p in Outside(events, ids) <==> p in ids && p !in events
  {
    if ids != [] {
      OutsideMembers(events, ids[1..]);
    }
  }

  // The parents of the list that are not accepted, in order, repeats included.
  function Missing(events: Graph, parents: seq<EventId>): (ms: seq<EventId>)
    ensures forall p :: p in ms <==> p in parents && p !in events
  {
    OutsideMembers(events, parents);
    Outside(events, parents)
  }

  lemma OutsideHead(events: Graph, p: EventId, ids: seq<EventId>)
    ensures Outside(events, [p] + ids) == (if p in events then [] else [p]) + Outside(events, ids)
  {
    assert ([p] + ids)[1..] == ids;
  }

  lemma OutsideStep(events: Graph, p: EventId, ps: seq<EventId>, qs: seq<EventId>)
    requires Outside(events, ps + qs) == Outside(events, ps) + Outside(events, qs)
    ensures Outside(events, [p] + (ps + qs)) == Outside(events, [p] + ps) + Outside(events, qs)
  {
    OutsideHead(events, p, ps);
    OutsideHead(events, p, ps + qs);
  }

  lemma {:induction false} OutsideConcat(events: Graph, ps: seq<EventId>, qs: seq<EventId>)
    ensures Outside(events, ps + qs) == Outside(events, ps) + Outside(events, qs)
  {
    if ps == [] {
      assert ps + qs == qs;
    } else {
      var p, rest := ps[0], ps[1..];
      OutsideConcat(events, rest, qs);
      OutsideStep(events, p, rest, qs);
      assert ps == [p] + rest;
      assert ps + qs == [p] + (rest + qs);
    }
  }

  lemma OutsideOne(events: Graph, p: EventId)
    ensures Outside(events, [p]) == if p in events then [] else [p]
  {
    OutsideHead(events, p, []);
    assert [p] + [] == [p];
  }

  // The missing parents of a list are those of its parts in turn, repeats included,
  // and a parent alone is missing exactly when it is not accepted.
  lemma MissingConcat(events: Graph, ps: seq<EventId>, p: EventId, qs: seq<EventId>)
    ensures Missing(events, ps + qs) == Missing(events, ps) + Missing(events, qs)
    ensures Missing(events, [p]) == if p in events then [] else [p]
  {
    OutsideConcat(events, ps, qs);
    OutsideOne(events, p);
  }

  function ComputeDepth(depth: map<EventId, nat>, parents: seq<EventId>): (d: nat)
    ensures IsDepth(depth, parents, d)
  {
    if parents == [] then 0
    else
      var p, d := parents[|parents| - 1], ComputeDepth(depth, parents[..|parents| - 1]);
      assert parents == parents[..|parents| - 1] + [p];
      if p in depth && depth[p] >= d then depth[p] + 1 else d
  }

  // One step of sorting by (depth, id); the sort itself is the library's.
  function InsertByKey(depth: map<EventId, nat>, xs: seq<EventId>, x: EventId): (ys: seq<EventId>)
    requires Sorted(depth, xs) && x in depth && x !in xs && forall y :: y in xs ==> y in depth
    ensures Sorted(depth, ys) && forall y :: y in ys <==> y in xs || y == x
  {
    if xs == [] then [x]
    else if depth[x] < depth[xs[0]] || (depth[x] == depth[xs[0]] && x < xs[0]) then
      assert forall k :: 0 < k < |xs| ==> Before(depth, xs[0], xs[k]);
      [x] + xs
    else
      var rest := InsertByKey(depth, xs[1..], x);
      assert xs == [xs[0]] + xs[1..];
      assert forall k :: 0 < k < |xs| ==> Before(depth, xs[0], xs[k]);
      assert forall k :: 0 <= k < |rest| ==> rest[k] in rest;
      [xs[0]] + rest
  }

  method SortByKey(depth: map<EventId, nat>, ids: seq<EventId>) returns (sorted: seq<EventId>)
    requires forall i :: i in ids ==> i in depth
    requires forall j, k :: 0 <= j < k < |ids| ==> ids[j] != ids[k]
    ensures Sorted(depth, sorted) && forall i :: i in sorted <==> i in ids
    ensures forall m, n :: 0 <= m < n < |sorted| ==>
      depth[sorted[m]] < depth[sorted[n]] || (depth[sorted[m]] == depth[sorted[n]] && sorted[m] < sorted[n])
  {
    sorted := [];
    for k := 0 to |ids|
      invariant Sorted(depth, sorted)
      invariant forall i :: i in sorted <==> i in ids[..k]
    {
      sorted := InsertByKey(depth, sorted, ids[k]);
      assert ids[..k + 1] == ids[..k] + [ids[k]];
    }
    assert ids[..|ids|] == ids;
  }

  // The elements of a hash set, in whatever order its iterator yields them.
  method Enumerate(s: set<EventId>) returns (xs: seq<EventId>)
    ensures Elems(xs) == s && |xs| == |s| && forall x :: x in xs <==> x in s
    ensures forall j, k :: 0 <= j < k < |xs| ==> xs[j] != xs[k]
  {
    var rest := s;
    xs := [];
    while rest != {}
      invariant rest <= s && Elems(xs) == s - rest && |xs| + |rest| == |s|
      invariant forall j, k :: 0 <= j < k < |xs| ==> xs[j] != xs[k]
    {
      var x :| x in rest;
      assert forall j :: 0 <= j < |xs| ==> xs[j] in Elems(xs);
      assert Elems(xs + [x]) == Elems(xs) + {x};
      rest, xs := rest - {x}, xs + [x];
    }
    assert forall x :: x in xs <==> x in Elems(xs);
  }

  // for p in ps { index.entry(p).or_default().insert(c) }
  method AddToEach(index: map<EventId, set<EventId>>, ps: seq<EventId>, c: EventId)
    returns (index': map<EventId, set<EventId>>)
    ensures index' == AddToAll(index, ps, c)
  {
    index' := index;
    for k := 0 to |ps|
      invariant index' == AddToAll(index, ps[..k], c)
    {
      assert ps[..k + 1][..k] == ps[..k];
      index' := AddTo(index', ps[k], c);
    }
    assert ps[..|ps|] == ps;
  }

  class Dag {
    var events: Graph
    var seenBy: map<EventId, set<PublicKey>>
    const participants: set<PublicKey>
    const threshold: nat
    var depthCache: map<EventId, nat>
    var children: map<EventId, set<EventId>>
    var pending: Graph
    var waitingFor: map<EventId, set<EventId>>

    ghost function Value(): State
      reads this
    {
      State(participants, events, seenBy, depthCache, children, pending, waitingFor)
    }

    ghost predicate Valid()
      reads this
    {
      Inv(Value()) && threshold == QuorumThreshold(|participants|)
    }

    constructor (participants: set<PublicKey>)
      ensures Valid() && this.participants == participants && Delivered(Value()) == map[]
    {
      this.participants := participants;
      threshold := QuorumThreshold(|participants|);
      events, seenBy, depthCache, children, pending, waitingFor := map[], map[], map[], map[], map[], map[];
    }

    // One delivery.  The new state is the state of a replica that was delivered
    // one event more, which fixes it (DagState.StateDetermined).
    method Insert(event: Event) returns (r: InsertResult)
      requires Valid()
      modifies this
      ensures Valid()
      ensures Delivered(Value()) == Deliver(old(Delivered(Value())), event)
      ensures r == Duplicate <==> event.id in old(Delivered(Value()))
      ensures r == Duplicate ==> Value() == old(Value())
      ensures event.id !in old(Delivered(Value())) ==>
        r == if Ready(old(events), event) then Inserted(event.id)
             else Buffered(event.id, Missing(old(events), event.parents))
    {
      var id := event.id;
      if id in events || id in pending {
        return Duplicate;
      }
      var missing := Missing(events, event.parents);
      if missing == [] {
        assert forall p :: p in event.parents ==> p !in missing;
        InsertReady(event);
        assert events.Keys - {id} == old(events).Keys;
        ReadyAfterInsert(old(events), pending, event);
        InsertDelivers(old(events), pending, event);
        ProcessUnblocked(id);
        r := Inserted(id);
      } else {
        InsertDelivers(events, pending, event);
        Wait(event, missing);
        r := Buffered(id, missing);
      }
    }

    // The branch of insert that buffers an event with missing parents.
    method Wait(event: Event, missing: seq<EventId>)
      requires Valid() && missing != []
      requires event.id !in events && event.id !in pending
      requires forall p :: p in missing <==> p in event.parents && p !in events
      modifies `pending, `waitingFor
      ensures Valid() && pending == old(pending)[event.id := event]
    {
      BufferOneMore(Value(), event, missing);
      waitingFor := AddToEach(waitingFor, missing, event.id);
      pending := pending[event.id := event];
    }

    method InsertReady(event: Event)
      requires AcceptedInv(participants, events, seenBy, depthCache, children)
      requires event.id !in events && Ready(events, event)
      modifies `events, `seenBy, `depthCache, `children
      ensures AcceptedInv(participants, events, seenBy, depthCache, children)
      ensures events == old(events)[event.id := event]
    {
      var id, author := event.id, event.author;
      AcceptOneMore(participants, events, seenBy, depthCache, children, event, ComputeDepth(depthCache, event.parents));
      StoreReady(event);
      MarkAuthor(id, author);
    }

    // The new event enters every map, seen by nobody yet.
    method StoreReady(event: Event)
      requires event.id !in seenBy
      modifies `events, `seenBy, `depthCache, `children
      ensures events == old(events)[event.id := event] && seenBy == old(seenBy)[event.id := {}]
      ensures depthCache == old(depthCache)[event.id := ComputeDepth(old(depthCache), event.parents)]
      ensures children == AddToAll(old(children), event.parents, event.id)
    {
      var id := event.id;
      children := AddToEach(children, event.parents, id);
      var depth := ComputeDepth(depthCache, event.parents);
      depthCache := depthCache[id := depth];
      events := events[id := event];
      seenBy := seenBy[id := Entry(seenBy, id)];
    }

    // A member's own event carries its mark, and so do its ancestors.
    method MarkAuthor(id: EventId, author: PublicKey)
      requires DownwardClosed(events) && id in events && SeenDown(events, seenBy, author)
      modifies `seenBy
      ensures seenBy == if author in participants then Marked(events, old(seenBy), id, author) else old(seenBy)
    {
      if author in participants {
        MarkSeenByAncestors(id, author);
      }
    }

    method MarkSeenByAncestors(id: EventId, participant: PublicKey)
      requires DownwardClosed(events) && id in events && SeenDown(events, seenBy, participant)
      modifies `seenBy
      ensures seenBy == Marked(events, old(seenBy), id, participant)
    {
      var stack := [id];
      ghost var before, done: set<EventId> := seenBy, {};
      ReachesSelf(events, id);
      while stack != []
        invariant Walking(events, before, done, Elems(stack), id, participant)
        invariant seenBy == MarkedAt(before, done, participant)
        decreases before.Keys - done, |stack|
      {
        var current, rest := stack[|stack| - 1], stack[..|stack| - 1];
        ElemsPop(stack);
        assert Ancestor(events, id, current);
        stack := rest;
        if participant !in Entry(seenBy, current) {
          seenBy := seenBy[current := Entry(seenBy, current) + {participant}];
          if current in events {
            WalkMark(events, before, done, Elems(rest), current, id, participant);
            stack := stack + events[current].parents;
            ElemsConcat(rest, events[current].parents);
            MarkOneMore(before, done, current, participant);
            done := done + {current};
          }
        } else {
          WalkPast(events, before, done, Elems(rest), current, id, participant);
        }
      }
      assert Elems(stack) == {};
      WalkEnd(events, before, done, id, participant);
    }

    method ProcessUnblocked(insertedId: EventId)
      requires AcceptedInv(participants, events, seenBy, depthCache, children)
      requires insertedId in events && events.Keys !! pending.Keys
      requires IndexesNamers(events.Keys - {insertedId}, pending, waitingFor)
      requires ReadyNames(events, pending, insertedId)
      modifies `events, `seenBy, `depthCache, `children, `pending, `waitingFor
      ensures AcceptedInv(participants, events, seenBy, depthCache, children)
      ensures events.Keys !! pending.Keys && events + pending == old(events + pending)
      ensures IndexesNamers(events.Keys, pending, waitingFor) && NoneReady(events, pending)
    {
      IndexForget(events.Keys - {insertedId}, pending, waitingFor, insertedId);
      assert events.Keys - {insertedId} + {insertedId} == events.Keys;
      if insertedId !in waitingFor {
        assert waitingFor - {insertedId} == waitingFor;
        ReadyNamesListed(events, pending, insertedId, []);
        return;
      }
      var waiting := waitingFor[insertedId];
      waitingFor := waitingFor - {insertedId};
      var toProcess := Enumerate(waiting);
      ReadyNamesListed(events, pending, insertedId, toProcess);

      while toProcess != []
        invariant AcceptedInv(participants, events, seenBy, depthCache, children)
        invariant events.Keys !! pending.Keys && events + pending == old(events + pending)
        invariant IndexesNamers(events.Keys, pending, waitingFor)
        invariant ReadyListed(events, pending, toProcess)
        decreases |pending|, |toProcess|
      {
        var candidateId := toProcess[|toProcess| - 1];
        if candidateId !in pending {
          ReadyPop(events, pending, toProcess);
          toProcess := toProcess[..|toProcess| - 1];
          continue;
        }
        var stillMissing := Missing(events, pending[candidateId].parents);
        if stillMissing == [] {
          toProcess := Release(toProcess);
        } else {
          assert stillMissing[0] in pending[candidateId].parents;
          ReadyPop(events, pending, toProcess);
          toProcess := toProcess[..|toProcess| - 1];
        }
      }
    }

    // The branch of process_unblocked that accepts a buffered event whose parents
    // have all arrived, and puts the events waiting for it on the worklist.
    method Release(worklist: seq<EventId>) returns (worklist': seq<EventId>)
      requires AcceptedInv(participants, events, seenBy, depthCache, children)
      requires events.Keys !! pending.Keys && IndexesNamers(events.Keys, pending, waitingFor)
      requires worklist != [] && worklist[|worklist| - 1] in pending
      requires Ready(events, pending[worklist[|worklist| - 1]])
      requires ReadyListed(events, pending, worklist)
      modifies `events, `seenBy, `depthCache, `children, `pending, `waitingFor
      ensures AcceptedInv(participants, events, seenBy, depthCache, children)
      ensures pending == old(pending) - {worklist[|worklist| - 1]}
      ensures events.Keys !! pending.Keys && events + pending == old(events + pending)
      ensures IndexesNamers(events.Keys, pending, waitingFor) && ReadyListed(events, pending, worklist')
    {
      var c := worklist[|worklist| - 1];
      var newlyUnblocked := Enumerate(Entry(waitingFor, c));
      Released(events, pending, waitingFor, worklist, newlyUnblocked);
      var event := pending[c];
      pending := pending - {c};
      InsertReady(event);
      waitingFor := waitingFor - {c};
      worklist' := worklist[..|worklist| - 1] + newlyUnblocked;
    }

    // ---- Queries ----

    predicate IsCanonical(id: EventId)
      requires Valid()
      reads this
      ensures IsCanonical(id) <==> Canonical(Value(), id)
    {
      id in seenBy && |seenBy[id]| > threshold
    }

    function Tips(): (tips: set<EventId>)
      requires Valid()
      reads this
      ensures tips == TipSet(Value())
    {
      TipsHaveNoChildren(Value());
      set id | id in events && (id !in children || children[id] == {})
    }

    function MissingParents(): (ps: set<EventId>)
      requires Valid()
      reads this
      ensures forall p :: p in ps <==> p !in events && Namers(pending, p) != {}
    {
      KeysAreMissing(events.Keys, pending, waitingFor);
      waitingFor.Keys
    }

    method CanonicalOrder() returns (order: seq<EventId>)
      requires Valid()
      ensures IsCanonicalOrder(Value(), order) && forall i :: i in order ==> i in depthCache
      ensures forall m, n :: 0 <= m < n < |order| ==>
        && depthCache[order[m]] <= depthCache[order[n]]
        && (depthCache[order[m]] == depthCache[order[n]] ==> order[m] < order[n])
    {
      var canonical := Enumerate(set id | id in events && IsCanonical(id));
      assert forall y :: y in canonical ==> y in depthCache;
      order := SortByKey(depthCache, canonical);
    }
  }
}
