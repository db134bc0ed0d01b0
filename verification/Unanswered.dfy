/**
 The chat messages that no ack answers (src/bin/federation.rs:91-171): a daemon looks
 for something to acknowledge only when a chat message is accepted on arrival.
 */
module Unanswered {
  import opened Options
  import opened Events
  import opened Graphs
  import opened DagState
  import opened Consensus
  import opened Dags
  import opened Federation

  lemma SubGraphReaches(g: Graph, h: Graph, f: EventId, i: EventId)
    requires SubGraph(g, h) && Reaches(g, f, i)
    ensures Reaches(h, f, i)
  {
    var path :| IsPath(g, path, f, i);
    forall k | 0 <= k < |path| - 1 ensures Link(h, path, k) {
      assert Link(g, path, k);
    }
    assert IsPath(h, path, f, i);
  }

  lemma AcceptedAtOnce(s: State, e: Event, s': State)
    requires Handles(s, e, s') && e.id !in Delivered(s) && Ready(s.events, e)
    ensures e.id in s'.events
  {
    AcceptedGrows(s, s');
    AcceptedIsClosed(s'.events, s'.pending);
    assert Delivered(s')[e.id] == e;
  }

  // A member answers exactly a chat message that it hears for the first time with all
  // parents accepted, while some accepted event lacks its mark.
  lemma AnsweredIff(s: State, e: Event, s': State, me: PublicKey)
    requires Handles(s, e, s') && me in s.participants
    ensures Answers(s, e, s', me)
      <==>
      (e.kind == CHANNEL_MESSAGE_KIND && e.id !in Delivered(s) && Ready(s.events, e)
      && exists i :: i in s'.events && me !in s'.seenBy[i])
  {
    SilentIffAllSeen(s', me);
  }

  // A chat message heard for the first time is answered exactly when its parents
  // were accepted already, unless the member has delivered an event of its own
  // above it.
  lemma AnsweredIffReady(s: State, e: Event, s': State, me: PublicKey)
    requires Handles(s, e, s') && me in s.participants
    requires e.kind == CHANNEL_MESSAGE_KIND && e.id !in Delivered(s) && !Acked(Delivered(s'), me, e.id)
    ensures Answers(s, e, s', me) <==> Ready(s.events, e)
  {
    if Ready(s.events, e) {
      AcceptedAtOnce(s, e, s');
      if f :| f in s'.events && s'.events[f].author == me && Reaches(s'.events, f, e.id) {
        SubGraphReaches(s'.events, Delivered(s'), f, e.id);
      }
      assert !Acked(s'.events, me, e.id);
      SilentIffAllSeen(s', me);
    }
  }

  // Along a run, an event is answered by a daemon at its first hearing or never.
  lemma OnlyFirstHearing(run: seq<System>, k: nat, n: nat, r: PublicKey, e: Event, ack: Event)
    requires IsRun(run) && k <= n < |run| - 1 && r in run[k].replicas
    requires run[k].replicas[r].events.Keys !! run[k].replicas[r].pending.Keys
    requires e.id in Delivered(run[k].replicas[r])
    ensures !Hear(run[n], run[n + 1], r, e, Some(ack))
  {
    RunKeeps(run, k, n);
    ViewsAgree(run, k, n, r, r);
  }

  // A chat message without its parent, then the parent.
  const CHAT: Event := Event(2, 9, CHANNEL_MESSAGE_KIND, [1])
  const PARENT: Event := Event(1, 9, DAG_EVENT_KIND, [])

  // Both end up accepted, the member has something to acknowledge, and signs nothing.
  method ReleasedUnanswered() returns (dag: Dag, first: Option<Event>, second: Option<Event>)
    ensures first.None? && second.None? && dag.Valid()
    ensures PARENT.id in dag.events && CHAT.id in dag.events && WantsAck(dag.Value(), 1)
  {
    dag := new Dag({1});
    first := HandleEvent(dag, CHAT, 1, 3);
    second := HandleEvent(dag, PARENT, 1, 3);
    ReleasedState(dag.Value());
  }

  lemma ReleasedAccepted(s: State)
    requires Inv(s) && Delivered(s) == map[CHAT.id := CHAT, PARENT.id := PARENT]
    ensures PARENT.id in s.events && CHAT.id in s.events
    ensures forall f :: f in s.events ==> s.events[f].author != 1
  {
    AcceptedIsClosed(s.events, s.pending);
    var d := Delivered(s);
    assert d[1].parents == [] && 1 in s.events.Keys;
    assert d[2].parents == [1] && 2 in s.events.Keys;
    forall f | f in s.events ensures s.events[f].author != 1 {
      assert d[f] == s.events[f];
    }
  }

  lemma UnseenBySilent(s: State, me: PublicKey, i: EventId)
    requires Inv(s) && me in s.participants && i in s.events
    requires forall f :: f in s.events ==> s.events[f].author != me
    ensures WantsAck(s, me)
  {
    assert !Acked(s.events, me, i);
    SilentIffAllSeen(s, me);
  }

  lemma ReleasedState(s: State)
    requires Inv(s) && s.participants == {1} && Delivered(s) == map[CHAT.id := CHAT, PARENT.id := PARENT]
    ensures PARENT.id in s.events && CHAT.id in s.events && WantsAck(s, 1)
  {
    ReleasedAccepted(s);
    UnseenBySilent(s, 1, 2);
  }
}
