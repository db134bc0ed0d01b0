/**
 The federation daemons (src/bin/federation.rs): when a member acknowledges, and
 what holds over every run of many daemons that hear published events in any
 order, any number of times.
 */
module Federation {
  import opened Events
  import opened Graphs
  import opened DagState
  import opened Consensus
  import opened Subsequences
  import opened DagSteps
  import opened Options
  import opened Dags

  // ---- One daemon ----

  // Every notification goes through Insert, duplicates and all.
  method HandleAll(participants: set<PublicKey>, es: seq<Event>) returns (dag: Dag)
    ensures dag.Valid() && ReachedBy(dag.Value(), participants, es)
  {
    dag := new Dag(participants);
    for k := 0 to |es|
      invariant dag.Valid() && fresh(dag) && ReachedBy(dag.Value(), participants, es[..k])
    {
      assert es[..k + 1][..k] == es[..k];
      var _ := dag.Insert(es[k]);
    }
    assert es[..|es|] == es;
  }

  // Some tip lacks the member's mark.
  ghost predicate WantsAck(s: State, me: PublicKey) {
    me in s.participants && exists t :: t in TipSet(s) && (t !in s.seenBy || me !in s.seenBy[t])
  }

  // The ack a member signs over all tips when some tip lacks its mark.
  method MaybeAck(dag: Dag, me: PublicKey, id: EventId) returns (ack: Option<Event>)
    requires dag.Valid()
    ensures ack.Some? <==> WantsAck(dag.Value(), me)
    ensures ack.Some? ==> IsAck(dag.Value(), me, ack.value) && ack.value.id == id
  {
    if me !in dag.participants {
      return None;
    }
    var tips := Enumerate(dag.Tips());
    var unacked := set t | t in dag.Tips() && me !in Entry(dag.seenBy, t);
    if unacked == {} {
      assert forall t :: t in TipSet(dag.Value()) && t !in unacked ==> me in Entry(dag.seenBy, t);
      return None;
    }
    var t :| t in unacked;
    ack := Some(CreateAck(id, me, tips));
  }

  // Handling e in state s, which leads to s', makes the member sign an ack.
  ghost predicate Answers(s: State, e: Event, s': State, me: PublicKey)
    requires s.events.Keys !! s.pending.Keys
  {
    && e.kind == CHANNEL_MESSAGE_KIND
    && e.id !in Delivered(s) && Ready(s.events, e) && WantsAck(s', me)
  }

  // A chat message that is accepted at once may be answered; one that is buffered,
  // or released later, or any other kind of event, is not.
  method HandleEvent(dag: Dag, event: Event, me: PublicKey, id: EventId) returns (ack: Option<Event>)
    requires dag.Valid()
    modifies dag
    ensures dag.Valid() && Delivered(dag.Value()) == Deliver(old(Delivered(dag.Value())), event)
    ensures ack.Some? <==> Answers(old(dag.Value()), event, dag.Value(), me)
    ensures ack.Some? ==> IsAck(dag.Value(), me, ack.value) && ack.value.id == id
  {
    ack := None;
    var result := dag.Insert(event);
    match result
    case Inserted(_) =>
      if event.kind == CHANNEL_MESSAGE_KIND {
        ack := MaybeAck(dag, me, id);
      }
    case Buffered(_, _) =>
    case Duplicate =>
  }

  // e is an ack by me over exactly the tips of s
  ghost predicate IsAck(s: State, me: PublicKey, e: Event) {
    e.author == me && e.kind == DAG_EVENT_KIND && Elems(e.parents) == TipSet(s)
  }

  // A member keeps silent exactly when it has already seen every accepted event.
  lemma SilentIffAllSeen(s: State, me: PublicKey)
    requires Inv(s) && me in s.participants
    ensures !WantsAck(s, me) <==> forall i :: i in s.events ==> me in s.seenBy[i]
  {
    if !WantsAck(s, me) {
      forall i | i in s.events ensures me in s.seenBy[i] {
        TipsCover(s, i);
        var t :| t in TipSet(s) && Reaches(s.events, t, i);
        AncestorsSeen(s, t, i);
      }
    }
  }

  // Wherever the ack is accepted, every event its author had accepted when
  // signing is accepted too and marked as seen by the author.
  lemma AckMarksAll(s: State, me: PublicKey, ack: Event, t: State, i: EventId)
    requires Inv(s) && Inv(t) && Agree(Delivered(s), Delivered(t))
    requires me in t.participants && IsAck(s, me, ack)
    requires ack.id in t.events && t.events[ack.id] == ack
    requires i in s.events
    ensures i in t.events && me in t.seenBy[i]
  {
    TipsCover(s, i);
    var tip :| tip in TipSet(s) && Reaches(s.events, tip, i);
    assert tip in Elems(ack.parents);
    assert Ready(t.events, t.events[ack.id]);
    AgreeOnAccepted(s, t);
    SharedAncestors(s.events, t.events, tip, i);
    ReachesFromChild(t.events, ack.id, tip, i);
    assert Acked(t.events, me, i);
  }

  // m signed ack while holding i, and t has accepted that ack
  ghost predicate AckReceived(t: State, i: EventId, m: PublicKey, view: State, ack: Event) {
    && Inv(view) && i in view.events && IsAck(view, m, ack)
    && t.events.Keys !! t.pending.Keys && Agree(Delivered(view), Delivered(t))
    && ack.id in t.events && t.events[ack.id] == ack
  }

  lemma QuorumOfMarks(t: State, i: EventId, members: set<PublicKey>)
    requires members != {} && 5 * |members| >= 4 * |t.participants|
    requires forall m :: m in members ==> i in t.seenBy && m in t.seenBy[i]
    ensures Canonical(t, i)
  {
    var m :| m in members;
    assert m in t.seenBy[i];
    SubsetSize(members, t.seenBy[i]);
    QuorumIsFourFifths(|t.participants|, |t.seenBy[i]|);
  }

  // Acks from at least four fifths of the members, each signed while holding i,
  // make i canonical wherever they are accepted.
  lemma QuorumOfAcks(t: State, i: EventId, members: set<PublicKey>, views: map<PublicKey, State>,
      acks: map<PublicKey, Event>)
    requires Inv(t) && members <= t.participants && members != {}
    requires 5 * |members| >= 4 * |t.participants|
    requires members <= views.Keys && members <= acks.Keys
    requires forall m {:trigger AckReceived(t, i, m, views[m], acks[m])} ::
      m in members ==> AckReceived(t, i, m, views[m], acks[m])
    ensures Canonical(t, i)
  {
    forall m | m in members ensures i in t.events && m in t.seenBy[i] {
      assert AckReceived(t, i, m, views[m], acks[m]);
      AckMarksAll(views[m], m, acks[m], t, i);
    }
    QuorumOfMarks(t, i, members);
  }

  // ---- Many daemons ----

  // Everything signed and sent so far, and the state of each daemon by its key.
  // An id names one event for good, so published is a map that only grows.
  datatype System = System(participants: set<PublicKey>, published: Graph, replicas: map<PublicKey, State>)

  ghost predicate Init(sys: System) {
    && sys.published == map[]
    && forall r :: r in sys.replicas ==> ReachedBy(sys.replicas[r], sys.participants, [])
  }

  // What Dag.Insert does to the state of a replica.
  ghost predicate Handles(s: State, e: Event, s': State) {
    Inv(s) && Inv(s') && s'.participants == s.participants && Delivered(s') == Deliver(Delivered(s), e)
  }

  // Anyone publishes any event under an unused id.
  ghost predicate Publish(sys: System, sys': System, e: Event) {
    e.id !in sys.published && sys' == sys.(published := sys.published[e.id := e])
  }

  // Replica r hears a published event.
  ghost predicate Delivery(sys: System, sys': System, r: PublicKey, e: Event) {
    && e.id in sys.published && sys.published[e.id] == e
    && r in sys.replicas && sys'.participants == sys.participants && sys'.replicas.Keys == sys.replicas.Keys
    && (forall q :: q in sys.replicas && q != r ==> sys'.replicas[q] == sys.replicas[q])
    && Handles(sys.replicas[r], e, sys'.replicas[r])
  }

  // If the event was a chat message accepted at once, r may sign an ack, which
  // may reach the network or get lost.
  ghost predicate Answer(sys: System, sys': System, r: PublicKey, e: Event, ack: Option<Event>)
    requires Delivery(sys, sys', r, e)
  {
    match ack
    case None => sys'.published == sys.published
    case Some(a) =>
      && Answers(sys.replicas[r], e, sys'.replicas[r], r) && IsAck(sys'.replicas[r], r, a)
      && a.id !in sys.published && sys'.published == sys.published[a.id := a]
  }

  ghost predicate Hear(sys: System, sys': System, r: PublicKey, e: Event, ack: Option<Event>) {
    Delivery(sys, sys', r, e) && Answer(sys, sys', r, e, ack)
  }

  ghost predicate Next(sys: System, sys': System) {
    || (exists e :: Publish(sys, sys', e))
    || (exists r, e, ack :: Hear(sys, sys', r, e, ack))
  }

  ghost predicate StepAt(run: seq<System>, k: int) {
    0 <= k < |run| - 1 && Next(run[k], run[k + 1])
  }

  ghost predicate IsRun(run: seq<System>) {
    && |run| > 0 && Init(run[0])
    && forall k {:trigger StepAt(run, k)} :: 0 <= k < |run| - 1 ==> StepAt(run, k)
  }

  ghost predicate ReplicaOk(sys: System, r: PublicKey)
    requires r in sys.replicas
  {
    Inv(sys.replicas[r]) && sys.replicas[r].participants == sys.participants
    && SubGraph(Delivered(sys.replicas[r]), sys.published)
  }

  ghost predicate SystemInv(sys: System) {
    forall r {:trigger ReplicaOk(sys, r)} :: r in sys.replicas ==> ReplicaOk(sys, r)
  }

  // Nothing published or delivered is ever taken back.
  ghost predicate Grows(sys: System, sys': System) {
    && sys.participants == sys'.participants && sys.replicas.Keys == sys'.replicas.Keys
    && SubGraph(sys.published, sys'.published)
    && forall r :: r in sys.replicas && Inv(sys.replicas[r]) && Inv(sys'.replicas[r]) ==>
         SubGraph(Delivered(sys.replicas[r]), Delivered(sys'.replicas[r]))
  }

  lemma HandleKeeps(s: State, e: Event, s': State, published: Graph)
    requires Handles(s, e, s') && SubGraph(Delivered(s), published)
    requires e.id in published && published[e.id] == e
    ensures SubGraph(Delivered(s'), published) && SubGraph(Delivered(s), Delivered(s'))
  {}

  lemma HearSigns(sys: System, sys': System, r: PublicKey, e: Event, ack: Event)
    requires Hear(sys, sys', r, e, Some(ack))
    ensures r in sys'.replicas && IsAck(sys'.replicas[r], r, ack) && r in sys'.replicas[r].participants
    ensures ack.id in sys'.published && sys'.published[ack.id] == ack
  {}

  lemma DeliveryKeeps(sys: System, sys': System, r: PublicKey, e: Event)
    requires SystemInv(sys) && Delivery(sys, sys', r, e) && SubGraph(sys.published, sys'.published)
    ensures SystemInv(sys') && Grows(sys, sys')
  {
    forall q | q in sys'.replicas ensures ReplicaOk(sys', q)
      ensures Inv(sys.replicas[q]) && Inv(sys'.replicas[q])
      ensures SubGraph(Delivered(sys.replicas[q]), Delivered(sys'.replicas[q]))
    {
      assert ReplicaOk(sys, q);
      if q == r {
        HandleKeeps(sys.replicas[r], e, sys'.replicas[r], sys.published);
      } else {
        assert sys'.replicas[q] == sys.replicas[q];
      }
    }
  }

  lemma HearExtends(sys: System, sys': System, r: PublicKey, e: Event, ack: Option<Event>)
    requires Hear(sys, sys', r, e, ack)
    ensures SubGraph(sys.published, sys'.published)
  {}

  lemma PublishKeeps(sys: System, sys': System, e: Event)
    requires SystemInv(sys) && Publish(sys, sys', e)
    ensures SystemInv(sys') && Grows(sys, sys')
  {
    forall q | q in sys'.replicas ensures ReplicaOk(sys', q) {
      assert ReplicaOk(sys, q);
    }
  }

  lemma StepKeeps(sys: System, sys': System)
    requires SystemInv(sys) && Next(sys, sys')
    ensures SystemInv(sys') && Grows(sys, sys')
  {
    if e :| Publish(sys, sys', e) {
      PublishKeeps(sys, sys', e);
    } else {
      var r, e, ack :| Hear(sys, sys', r, e, ack);
      HearExtends(sys, sys', r, e, ack);
      DeliveryKeeps(sys, sys', r, e);
    }
  }

  // Every state of every run is sound, and later states extend earlier ones.
  lemma {:induction false} RunKeeps(run: seq<System>, m: nat, n: nat)
    requires IsRun(run) && m <= n < |run|
    ensures SystemInv(run[n]) && Grows(run[m], run[n])
    decreases n
  {
    if n == 0 {
      forall r | r in run[0].replicas ensures ReplicaOk(run[0], r) {
        assert ReachedBy(run[0].replicas[r], run[0].participants, []);
      }
    } else {
      RunKeeps(run, if m < n then m else n - 1, n - 1);
      assert StepAt(run, n - 1);
      StepKeeps(run[n - 1], run[n]);
      if m < n {
        GrowsTrans(run[m], run[n - 1], run[n]);
      }
    }
  }

  lemma GrowsTrans(a: System, b: System, c: System)
    requires Grows(a, b) && Grows(b, c) && SystemInv(b)
    ensures Grows(a, c)
  {
    forall r | r in a.replicas && Inv(a.replicas[r]) && Inv(c.replicas[r])
      ensures SubGraph(Delivered(a.replicas[r]), Delivered(c.replicas[r]))
    {
      assert ReplicaOk(b, r);
    }
  }

  // Safety over whole runs: at any two moments and in any two daemons, the events
  // canonical in both come in the same order.
  lemma RunAgreement(run: seq<System>, m: nat, n: nat, r: PublicKey, q: PublicKey, order: seq<EventId>,
      order': seq<EventId>)
    requires IsRun(run) && m < |run| && n < |run|
    requires r in run[m].replicas && q in run[n].replicas
    requires IsCanonicalOrder(run[m].replicas[r], order) && IsCanonicalOrder(run[n].replicas[q], order')
    ensures
      var common := CanonicalSet(run[m].replicas[r]) * CanonicalSet(run[n].replicas[q]);
      Restrict(order, common) == Restrict(order', common)
  {
    ViewsAgree(run, m, n, r, q);
    Agreement(run[m].replicas[r], run[n].replicas[q], order, order');
  }

  lemma ViewsAgree(run: seq<System>, m: nat, n: nat, r: PublicKey, q: PublicKey)
    requires IsRun(run) && m < |run| && n < |run| && r in run[m].replicas && q in run[n].replicas
    ensures Inv(run[m].replicas[r]) && Inv(run[n].replicas[q])
    ensures run[m].replicas[r].participants == run[n].replicas[q].participants
    ensures Agree(Delivered(run[m].replicas[r]), Delivered(run[n].replicas[q]))
  {
    var last := if m < n then n else m;
    RunKeeps(run, m, last);
    RunKeeps(run, n, last);
    RunKeeps(run, m, m);
    RunKeeps(run, n, n);
    assert ReplicaOk(run[m], r) && ReplicaOk(run[n], q);
  }

  // The canonical order of a daemon is never revised, only added to.
  lemma RunOrderGrows(run: seq<System>, m: nat, n: nat, r: PublicKey, order: seq<EventId>, order': seq<EventId>)
    requires IsRun(run) && m <= n < |run| && r in run[m].replicas && r in run[n].replicas
    requires IsCanonicalOrder(run[m].replicas[r], order) && IsCanonicalOrder(run[n].replicas[r], order')
    ensures IsSubsequence(order, order')
  {
    RunKeeps(run, m, n);
    ViewsAgree(run, m, n, r, r);
    OrderGrows(run[m].replicas[r], run[n].replicas[r], order, order');
  }

  // Two daemons of one run that have heard the same events are in one state.
  lemma RunConvergence(run: seq<System>, m: nat, n: nat, r: PublicKey, q: PublicKey)
    requires IsRun(run) && m < |run| && n < |run| && r in run[m].replicas && q in run[n].replicas
    requires run[m].replicas[r].events.Keys !! run[m].replicas[r].pending.Keys
    requires run[n].replicas[q].events.Keys !! run[n].replicas[q].pending.Keys
    requires Delivered(run[m].replicas[r]).Keys == Delivered(run[n].replicas[q]).Keys
    ensures run[m].replicas[r] == run[n].replicas[q]
  {
    ViewsAgree(run, m, n, r, q);
    var s, t := run[m].replicas[r], run[n].replicas[q];
    assert Delivered(s) == Delivered(t);
    StateDetermined(s, t);
  }

  // An ack signed at step k of a run, wherever and whenever in the run it is
  // accepted, marks everything its author had accepted when signing.
  lemma RunAckMarksAll(run: seq<System>, k: nat, r: PublicKey, e: Event, ack: Event, n: nat, q: PublicKey, i: EventId)
    requires IsRun(run) && k + 1 < |run| && n < |run| && r in run[k + 1].replicas && q in run[n].replicas
    requires Hear(run[k], run[k + 1], r, e, Some(ack))
    requires ack.id in run[n].replicas[q].events && i in run[k + 1].replicas[r].events
    ensures i in run[n].replicas[q].events && i in run[n].replicas[q].seenBy
    ensures r in run[n].replicas[q].seenBy[i]
  {
    HearSigns(run[k], run[k + 1], r, e, ack);
    SignedAckMarksAll(run, k + 1, r, ack, n, q, i);
  }

  lemma SignedAckMarksAll(run: seq<System>, m: nat, r: PublicKey, ack: Event, n: nat, q: PublicKey, i: EventId)
    requires IsRun(run) && m < |run| && n < |run| && r in run[m].replicas && q in run[n].replicas
    requires IsAck(run[m].replicas[r], r, ack) && r in run[m].replicas[r].participants
    requires ack.id in run[m].published && run[m].published[ack.id] == ack
    requires ack.id in run[n].replicas[q].events && i in run[m].replicas[r].events
    ensures i in run[n].replicas[q].events && i in run[n].replicas[q].seenBy
    ensures r in run[n].replicas[q].seenBy[i]
  {
    ViewsAgree(run, m, n, r, q);
    PublishedOnce(run, m, n, q, ack);
    AckMarksAll(run[m].replicas[r], r, ack, run[n].replicas[q], i);
  }

  // An ack of a member, the step at which it was signed and the event it answered.
  datatype Signing = Signing(step: nat, heard: Event, ack: Event)

  // Member m signed the ack while holding i, and q has accepted it by moment n.
  ghost predicate SignedInRun(run: seq<System>, m: PublicKey, s: Signing, n: nat, q: PublicKey, i: EventId)
    requires n < |run| && q in run[n].replicas
  {
    && s.step + 1 < |run| && Hear(run[s.step], run[s.step + 1], m, s.heard, Some(s.ack))
    && m in run[s.step + 1].replicas && i in run[s.step + 1].replicas[m].events
    && s.ack.id in run[n].replicas[q].events
  }

  lemma SigningMarks(run: seq<System>, m: PublicKey, s: Signing, n: nat, q: PublicKey, i: EventId)
    requires IsRun(run) && n < |run| && q in run[n].replicas && SignedInRun(run, m, s, n, q, i)
    ensures i in run[n].replicas[q].events && i in run[n].replicas[q].seenBy
    ensures m in run[n].replicas[q].seenBy[i]
  {
    RunAckMarksAll(run, s.step, m, s.heard, s.ack, n, q, i);
  }

  // Acks signed in a run by four fifths of the members, each while holding i, make i
  // canonical in every daemon that accepts them.
  lemma RunQuorum(run: seq<System>, members: set<PublicKey>, signed: map<PublicKey, Signing>, n: nat, q: PublicKey,
      i: EventId)
    requires IsRun(run) && n < |run| && q in run[n].replicas
    requires members != {} && members <= signed.Keys && 5 * |members| >= 4 * |run[n].participants|
    requires forall m {:trigger SignedInRun(run, m, signed[m], n, q, i)} ::
      m in members ==> SignedInRun(run, m, signed[m], n, q, i)
    ensures Canonical(run[n].replicas[q], i)
  {
    var t := run[n].replicas[q];
    forall m | m in members ensures i in t.events && i in t.seenBy && m in t.seenBy[i] {
      SigningMarks(run, m, signed[m], n, q, i);
    }
    RunKeeps(run, n, n);
    assert ReplicaOk(run[n], q);
    QuorumOfMarks(t, i, members);
  }

  // An id published at one moment of a run is the same event to every daemon.
  lemma PublishedOnce(run: seq<System>, m: nat, n: nat, q: PublicKey, e: Event)
    requires IsRun(run) && m < |run| && n < |run| && q in run[n].replicas
    requires e.id in run[m].published && run[m].published[e.id] == e
    requires e.id in run[n].replicas[q].events
    ensures run[n].replicas[q].events[e.id] == e
  {
    var last := if m < n then n else m;
    RunKeeps(run, m, last);
    RunKeeps(run, n, last);
    RunKeeps(run, n, n);
    assert ReplicaOk(run[n], q);
    assert e.id in Delivered(run[n].replicas[q]);
  }
}
