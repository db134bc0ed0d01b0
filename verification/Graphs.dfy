/**
 Parent graphs of events: paths from an event to its ancestors, and the facts
 about them that hold whatever the order in which the graph was built.
 */
module Graphs {
  import opened Events

  // Events stored under their own id.
  type Graph = g: map<EventId, Event> | forall i :: i in g ==> g[i].id == i witness map[]

  ghost predicate Ready(g: Graph, e: Event) {
    forall p :: p in e.parents ==> p in g
  }

  ghost predicate DownwardClosed(g: Graph) {
    forall i {:trigger Ready(g, g[i])} :: i in g ==> Ready(g, g[i])
  }

  // The two graphs never disagree on what an id stands for.
  ghost predicate Agree(g: Graph, h: Graph) {
    forall i :: i in g && i in h ==> g[i] == h[i]
  }

  ghost predicate SubGraph(g: Graph, h: Graph) {
    forall i :: i in g ==> i in h && h[i] == g[i]
  }

  // step k of the path goes from an event of g to one of its parents
  ghost predicate Link(g: Graph, path: seq<EventId>, k: int) {
    0 <= k < |path| - 1 && path[k] in g && path[k + 1] in g[path[k]].parents
  }

  // path leads from event f, parent by parent, down to i
  ghost predicate IsPath(g: Graph, path: seq<EventId>, f: EventId, i: EventId) {
    && |path| > 0 && path[0] == f && path[|path| - 1] == i
    && forall k {:trigger Link(g, path, k)} :: 0 <= k < |path| - 1 ==> Link(g, path, k)
  }

  // i is f itself or an ancestor of f
  ghost predicate Reaches(g: Graph, f: EventId, i: EventId) {
    exists path :: IsPath(g, path, f, i)
  }

  lemma ReachesSelf(g: Graph, f: EventId)
    ensures Reaches(g, f, f)
  {
    assert IsPath(g, [f], f, f);
  }

  lemma PathFromChild(g: Graph, path: seq<EventId>, f: EventId, p: EventId, i: EventId)
    requires f in g && p in g[f].parents && IsPath(g, path, p, i)
    ensures IsPath(g, [f] + path, f, i)
  {
    forall k | 0 <= k < |path| ensures Link(g, [f] + path, k) {
      assert k > 0 ==> Link(g, path, k - 1);
    }
  }

  lemma ReachesFromChild(g: Graph, f: EventId, p: EventId, i: EventId)
    requires f in g && p in g[f].parents && Reaches(g, p, i)
    ensures Reaches(g, f, i)
  {
    var path :| IsPath(g, path, p, i);
    PathFromChild(g, path, f, p, i);
  }

  lemma ReachesToParent(g: Graph, f: EventId, i: EventId, p: EventId)
    requires i in g && p in g[i].parents && Reaches(g, f, i)
    ensures Reaches(g, f, p)
  {
    var path :| IsPath(g, path, f, i);
    forall k | 0 <= k < |path| ensures Link(g, path + [p], k) {
      assert k < |path| - 1 ==> Link(g, path, k);
    }
    assert IsPath(g, path + [p], f, p);
  }

  lemma {:induction false} ReachesTrans(g: Graph, f: EventId, m: EventId, i: EventId)
    requires Reaches(g, f, m) && Reaches(g, m, i)
    ensures Reaches(g, f, i)
  {
    var path :| IsPath(g, path, f, m);
    PathThen(g, path, f, m, i);
  }

  lemma {:induction false} PathThen(g: Graph, path: seq<EventId>, f: EventId, m: EventId, i: EventId)
    requires IsPath(g, path, f, m) && Reaches(g, m, i)
    ensures Reaches(g, f, i)
  {
    if |path| > 1 {
      PathTail(g, path, f, m);
      PathThen(g, path[1..], path[1], m, i);
      ReachesFromChild(g, f, path[1], i);
    }
  }

  lemma PathTail(g: Graph, path: seq<EventId>, f: EventId, i: EventId)
    requires IsPath(g, path, f, i) && |path| > 1
    ensures f in g && path[1] in g[f].parents && IsPath(g, path[1..], path[1], i)
  {
    assert Link(g, path, 0);
    forall k | 0 <= k < |path| - 2 ensures Link(g, path[1..], k) {
      assert Link(g, path, k + 1);
    }
  }

  // A set closed under parents holds every ancestor of its members.
  lemma {:induction false} ClosedAlongPath(g: Graph, s: set<EventId>, path: seq<EventId>, f: EventId, i: EventId)
    requires forall x, p :: x in s && x in g && p in g[x].parents ==> p in s
    requires f in s && IsPath(g, path, f, i)
    ensures forall k :: 0 <= k < |path| ==> path[k] in s
  {
    if |path| > 1 {
      PathTail(g, path, f, i);
      ClosedAlongPath(g, s, path[1..], path[1], i);
      assert forall k :: 1 <= k < |path| ==> path[k] == path[1..][k - 1];
    }
  }

  lemma ClosedUnderReach(g: Graph, s: set<EventId>, f: EventId, i: EventId)
    requires forall x, p :: x in s && x in g && p in g[x].parents ==> p in s
    requires f in s && Reaches(g, f, i)
    ensures i in s
  {
    var path :| IsPath(g, path, f, i);
    ClosedAlongPath(g, s, path, f, i);
  }

  // Two complete graphs that agree give an event they share the same ancestors.
  lemma SharedPath(g: Graph, h: Graph, path: seq<EventId>, f: EventId, i: EventId)
    requires Agree(g, h) && DownwardClosed(h) && f in h
    requires IsPath(g, path, f, i)
    ensures IsPath(h, path, f, i)
  {
    forall x, p | x in h.Keys && x in g && p in g[x].parents ensures p in h.Keys {
      assert Ready(h, h[x]);
    }
    ClosedAlongPath(g, h.Keys, path, f, i);
    forall k | 0 <= k < |path| - 1 ensures Link(h, path, k) {
      assert Link(g, path, k);
    }
  }

  lemma SharedAncestors(g: Graph, h: Graph, f: EventId, i: EventId)
    requires Agree(g, h) && DownwardClosed(g) && DownwardClosed(h) && f in g && f in h
    ensures Reaches(g, f, i) <==> Reaches(h, f, i)
    ensures Reaches(g, f, i) ==> i in g && i in h
  {
    if path :| IsPath(g, path, f, i) {
      SharedPath(g, h, path, f, i);
    }
    if path :| IsPath(h, path, f, i) {
      SharedPath(h, g, path, f, i);
    }
    if Reaches(g, f, i) {
      forall x, p | x in h.Keys && x in h && p in h[x].parents ensures p in h.Keys {
        assert Ready(h, h[x]);
      }
      ClosedUnderReach(h, h.Keys, f, i);
      forall x, p | x in g.Keys && x in g && p in g[x].parents ensures p in g.Keys {
        assert Ready(g, g[x]);
      }
      ClosedUnderReach(g, g.Keys, f, i);
    }
  }
}
