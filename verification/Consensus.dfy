/** Deliveries, quorums and the canonical order, on states as values. */
module Consensus {
  import opened Events
  import opened Graphs
  import opened DagState
  import opened Subsequences

  // ---- Deliveries ----

  // The first event delivered under an id is the one that stays.
  function Deliver(delivered: Graph, e: Event): Graph {
    if e.id in delivered then delivered else delivered[e.id := e]
  }

  function DeliverAll(delivered: Graph, es: seq<Event>): Graph {
    if es == [] then delivered else Deliver(DeliverAll(delivered, es[..|es| - 1]), es[|es| - 1])
  }

  // s is the state of a replica of this federation after the deliveries es
  ghost predicate ReachedBy(s: State, participants: set<PublicKey>, es: seq<Event>) {
    Inv(s) && s.participants == participants && Delivered(s) == DeliverAll(map[], es)
  }

  lemma {:induction false} DeliveredKeys(es: seq<Event>)
    ensures forall i :: i in DeliverAll(map[], es) <==> exists e :: e in es && e.id == i
    ensures forall i :: i in DeliverAll(map[], es) ==> DeliverAll(map[], es)[i] in es
  {
    if es != [] {
      var front, last := es[..|es| - 1], es[|es| - 1];
      DeliveredKeys(front);
      assert es == front + [last];
      forall i | i in DeliverAll(map[], es) ensures exists e :: e in es && e.id == i {
        if i in DeliverAll(map[], front) {
          var e :| e in front && e.id == i;
          assert e in es;
        } else {
          assert last in es;
        }
      }
    }
  }

  // d holds one event of es under each id that es uses.
  ghost predicate Holds(d: Graph, es: seq<Event>) {
    (forall e :: e in es ==> e.id in d) && forall i :: i in d ==> d[i] in es && d[i].id == i
  }

  lemma HoldTheSame(d: Graph, d': Graph, es: seq<Event>, es': seq<Event>)
    requires Holds(d, es) && Holds(d', es') && forall e :: e in es <==> e in es'
    requires IdDetermines(set e | e in es)
    ensures d == d'
  {
    forall i | i in d ensures i in d' && d[i] == d'[i] {
      assert d[i] in es';
      assert d'[i] in es;
    }
    forall i | i in d' ensures i in d {
      assert d'[i] in es;
    }
  }

  lemma DeliveredTogether(es: seq<Event>, es': seq<Event>)
    requires forall e :: e in es <==> e in es'
    requires IdDetermines(set e | e in es)
    ensures DeliverAll(map[], es) == DeliverAll(map[], es')
  {
    DeliveredKeys(es);
    DeliveredKeys(es');
    HoldTheSame(DeliverAll(map[], es), DeliverAll(map[], es'), es, es');
  }

  // Replicas that were delivered the same events, in any order and with any
  // repetition, are in the same state.
  lemma Convergence(s: State, t: State, ps: set<PublicKey>, es: seq<Event>, es': seq<Event>)
    requires ReachedBy(s, ps, es) && ReachedBy(t, ps, es')
    requires forall e :: e in es <==> e in es'
    requires IdDetermines(set e | e in es)
    ensures s == t
  {
    DeliveredTogether(es, es');
    StateDetermined(s, t);
  }

  lemma FirstStays(a: Event, b: Event)
    requires a.id == b.id
    ensures DeliverAll(map[], [a, b]) == map[a.id := a]
  {
    assert [a, b][..1] == [a] && [a][..0] == [];
    assert DeliverAll(map[], [a]) == Deliver(DeliverAll(map[], []), a);
  }

  // The id assumption is needed: two events under one id, delivered in the two
  // orders, leave replicas holding different events.
  lemma ConvergenceNeedsIds(s: State, t: State, ps: set<PublicKey>, a: Event, b: Event)
    requires a.id == b.id && a != b
    requires ReachedBy(s, ps, [a, b]) && ReachedBy(t, ps, [b, a])
    ensures s != t
  {
    FirstStays(a, b);
    FirstStays(b, a);
    assert Delivered(s)[a.id] == a && Delivered(t)[a.id] == b;
  }

  // ---- Depth ----

  ghost function NoDeeper(events: Graph, depth: map<EventId, nat>, d: nat): set<EventId>
    requires depth.Keys == events.Keys
  {
    set i | i in events && depth[i] <= d
  }

  lemma {:induction false} DepthBelowCount(events: Graph, depth: map<EventId, nat>, f: EventId)
    requires DepthExact(events, depth) && f in events
    ensures |NoDeeper(events, depth, depth[f])| > depth[f]
    decreases depth[f]
  {
    var level := NoDeeper(events, depth, depth[f]);
    assert f in level && IsDepth(depth, events[f].parents, depth[f]);
    if depth[f] > 0 {
      var p :| p in events[f].parents && p in depth && depth[p] + 1 == depth[f];
      DepthBelowCount(events, depth, p);
      SubsetSize(NoDeeper(events, depth, depth[p]) + {f}, level);
    }
  }

  // A depth is below the number of accepted events, so 64 bits hold it.
  lemma DepthFits(s: State, f: EventId)
    requires Inv(s) && f in s.events
    ensures s.depth[f] < |s.events|
  {
    DepthBelowCount(s.events, s.depth, f);
    SubsetSize(NoDeeper(s.events, s.depth, s.depth[f]), s.events.Keys);
  }

  // ---- Quorum ----

  const QUORUM_NUMERATOR: nat := 4
  const QUORUM_DENOMINATOR: nat := 5

  // An event is canonical when more participants than this have seen it.
  function QuorumThreshold(n: nat): nat {
    var required := (n * QUORUM_NUMERATOR + QUORUM_DENOMINATOR - 1) / QUORUM_DENOMINATOR;
    if required >= 1 then required - 1 else 0
  }

  ghost predicate Canonical(s: State, i: EventId) {
    i in s.seenBy && |s.seenBy[i]| > QuorumThreshold(|s.participants|)
  }

  // k of n is a quorum exactly when it is at least one and at least four fifths.
  lemma QuorumIsFourFifths(n: nat, k: nat)
    ensures k > QuorumThreshold(n) <==> k >= 1 && 5 * k >= 4 * n
  {}

  // The participants that wrote the event or an accepted descendant of it.
  ghost function Ackers(s: State, i: EventId): set<PublicKey> {
    set a | a in s.participants && Acked(s.events, a, i)
  }

  // An event is canonical exactly when they are at least one, and at least four fifths.
  lemma CanonicalIff(s: State, i: EventId)
    requires Inv(s) && i in s.events
    ensures Canonical(s, i) <==> Ackers(s, i) != {} && 5 * |Ackers(s, i)| >= 4 * |s.participants|
  {
    assert forall a :: a in s.seenBy[i] <==> a in s.participants && Acked(s.events, a, i);
    assert s.seenBy[i] == Ackers(s, i);
    QuorumIsFourFifths(|s.participants|, |s.seenBy[i]|);
  }

  // A plain majority gives the same verdicts only in federations of one or two
  // (and in the empty one): with three members, two are a majority but no quorum.
  lemma QuorumIsNotMajority(n: nat)
    ensures (forall k: nat :: k <= n ==> (k > QuorumThreshold(n) <==> 2 * k > n)) <==> n <= 2
  {
    if n >= 3 {
      var k := n / 2 + 1;
      assert 2 * k > n && k <= n;
      assert k <= QuorumThreshold(n);
    }
  }

  lemma TwoOfThree()
    ensures 2 * 2 > 3 && !(2 > QuorumThreshold(3))
  {}

  // Two quorums of one federation share at least three members in five.
  lemma QuorumsOverlap(ps: set<PublicKey>, a: set<PublicKey>, b: set<PublicKey>)
    requires a <= ps && b <= ps
    requires |a| > QuorumThreshold(|ps|) && |b| > QuorumThreshold(|ps|)
    ensures 5 * |a * b| >= 3 * |ps| && |a * b| >= 1
  {
    assert |a + b| + |a * b| == |a| + |b|;
    SubsetSize(a + b, ps);
    SubsetSize(a, ps);
  }

  lemma {:induction false} SubsetSize<T>(a: set<T>, b: set<T>)
    requires a <= b
    ensures |a| <= |b|
  {
    assert b == a + (b - a);
  }

  ghost function CanonicalSet(s: State): set<EventId> {
    set i | i in s.events && Canonical(s, i)
  }

  // Whoever has seen an event has seen its ancestors, so these are canonical too.
  lemma AncestorsSeen(s: State, f: EventId, i: EventId)
    requires Inv(s) && f in s.events && Reaches(s.events, f, i)
    ensures i in s.events && s.seenBy[f] <= s.seenBy[i]
    ensures Canonical(s, f) ==> Canonical(s, i)
  {
    SharedAncestors(s.events, s.events, f, i);
    forall a | a in s.seenBy[f] ensures a in s.seenBy[i] {
      SeenByAncestor(s.participants, s.events, s.seenBy, a, f, i);
    }
    SubsetSize(s.seenBy[f], s.seenBy[i]);
  }

  lemma SeenByAncestor(ps: set<PublicKey>, events: Graph, seenBy: map<EventId, set<PublicKey>>, a: PublicKey,
      f: EventId, i: EventId)
    requires SeenExact(ps, events, seenBy) && f in events && i in events && Reaches(events, f, i)
    requires a in seenBy[f]
    ensures a in seenBy[i]
  {
    assert Acked(events, a, f);
    var g :| g in events && events[g].author == a && Reaches(events, g, f);
    ReachesTrans(events, g, f, i);
    assert Acked(events, a, i);
  }

  // ---- Tips ----

  // Accepted events that no accepted event names as a parent.
  ghost function TipSet(s: State): set<EventId> {
    set i | i in s.events && Namers(s.events, i) == {}
  }

  lemma TipsHaveNoChildren(s: State)
    requires IndexesNamers({}, s.events, s.children)
    ensures forall i :: i in TipSet(s) <==> i in s.events && (i !in s.children || s.children[i] == {})
  {
    forall i ensures i in TipSet(s) <==> i in s.events && (i !in s.children || s.children[i] == {}) {
      assert IndexedAt({}, s.events, s.children, i);
    }
  }

  // Every accepted event is a tip or an ancestor of one.
  lemma {:induction false} TipAbove(s: State, i: EventId, height: nat) returns (tip: EventId)
    requires Inv(s) && i in s.events
    requires forall j :: j in s.events ==> s.depth[j] <= s.depth[i] + height
    ensures tip in TipSet(s) && Reaches(s.events, tip, i)
    decreases height
  {
    if Namers(s.events, i) == {} {
      tip := i;
      ReachesSelf(s.events, i);
    } else {
      var c :| c in Namers(s.events, i);
      assert IsDepth(s.depth, s.events[c].parents, s.depth[c]);
      tip := TipAbove(s, c, height - 1);
      ReachesSelf(s.events, i);
      ReachesFromChild(s.events, c, i, i);
      ReachesTrans(s.events, tip, c, i);
    }
  }

  ghost function DepthBound(depth: map<EventId, nat>): (b: nat)
    ensures forall j :: j in depth ==> depth[j] <= b
    decreases |depth|
  {
    if depth == map[] then 0
    else
      var j :| j in depth;
      assert (depth - {j}).Keys == depth.Keys - {j};
      var b := DepthBound(depth - {j});
      assert forall k :: k in depth && k != j ==> k in depth - {j};
      if depth[j] > b then depth[j] else b
  }

  lemma TipsCover(s: State, i: EventId)
    requires Inv(s) && i in s.events
    ensures exists tip :: tip in TipSet(s) && Reaches(s.events, tip, i)
  {
    var tip := TipAbove(s, i, DepthBound(s.depth));
  }

  // ---- The canonical order ----

  // Smaller depth first, equal depths by id.
  ghost predicate Before(depth: map<EventId, nat>, i: EventId, j: EventId) {
    i in depth && j in depth && (depth[i] < depth[j] || (depth[i] == depth[j] && i < j))
  }

  ghost predicate Sorted(depth: map<EventId, nat>, xs: seq<EventId>) {
    forall m, n :: 0 <= m < n < |xs| ==> Before(depth, xs[m], xs[n])
  }

  // order lists the canonical events, each once, sorted by depth and id
  ghost predicate IsCanonicalOrder(s: State, order: seq<EventId>) {
    Sorted(s.depth, order) && forall i :: i in order <==> i in CanonicalSet(s)
  }

  lemma {:induction false} SortedSubsequence(depth: map<EventId, nat>, xs: seq<EventId>, ys: seq<EventId>)
    requires Sorted(depth, xs) && Sorted(depth, ys) && forall x :: x in xs ==> x in ys
    ensures IsSubsequence(xs, ys)
    decreases |ys|
  {
    if xs != [] {
      assert xs[0] in ys;
      assert ys == [ys[0]] + ys[1..];
      if xs[0] == ys[0] {
        forall x | x in xs[1..] ensures x in ys[1..] {
          var n :| 0 <= n < |xs[1..]| && xs[1..][n] == x;
          assert Before(depth, xs[0], xs[n + 1]) && xs[n + 1] in xs;
        }
        SortedSubsequence(depth, xs[1..], ys[1..]);
      } else {
        forall x | x in xs ensures x in ys[1..] {
          var n, m :| 0 <= n < |xs| && xs[n] == x && 0 <= m < |ys| && ys[m] == xs[0];
          assert Before(depth, ys[0], ys[m]);
          assert n > 0 ==> Before(depth, xs[0], xs[n]);
        }
        SortedSubsequence(depth, xs, ys[1..]);
      }
    }
  }

  lemma SortedUnique(depth: map<EventId, nat>, xs: seq<EventId>, ys: seq<EventId>)
    requires Sorted(depth, xs) && Sorted(depth, ys) && forall x :: x in xs <==> x in ys
    ensures xs == ys
  {
    SortedSubsequence(depth, xs, ys);
    SortedSubsequence(depth, ys, xs);
    NoLonger(xs, ys);
    NoLonger(ys, xs);
  }

  // The order on depths and ids: depths never fall, and ascending ids break ties.
  lemma DepthThenId(s: State, order: seq<EventId>, m: nat, n: nat)
    requires IsCanonicalOrder(s, order) && m < n < |order|
    ensures order[m] in s.depth && order[n] in s.depth
    ensures s.depth[order[m]] <= s.depth[order[n]]
    ensures s.depth[order[m]] == s.depth[order[n]] ==> order[m] < order[n]
  {
    assert Before(s.depth, order[m], order[n]);
  }

  // Of two canonical events the first is the shallower, or the one of lesser id.
  lemma FirstIff(s: State, order: seq<EventId>, m: nat, n: nat)
    requires IsCanonicalOrder(s, order) && m < |order| && n < |order|
    requires order[m] in s.depth && order[n] in s.depth
    ensures m < n <==>
      (s.depth[order[m]] < s.depth[order[n]] || (s.depth[order[m]] == s.depth[order[n]] && order[m] < order[n]))
  {
    if m < n {
      DepthThenId(s, order, m, n);
    } else if n < m {
      DepthThenId(s, order, n, m);
    }
  }

  // Canonical events without parents come in ascending id.
  lemma RootsById(s: State, order: seq<EventId>, m: nat, n: nat)
    requires Inv(s) && IsCanonicalOrder(s, order) && m < |order| && n < |order|
    requires order[m] in s.events && order[n] in s.events
    requires s.events[order[m]].parents == s.events[order[n]].parents == []
    ensures m < n <==> order[m] < order[n]
  {
    assert IsDepth(s.depth, s.events[order[m]].parents, s.depth[order[m]]);
    assert IsDepth(s.depth, s.events[order[n]].parents, s.depth[order[n]]);
    FirstIff(s, order, m, n);
  }

  // In the canonical order every event comes after all its ancestors.
  lemma AncestorsFirst(s: State, order: seq<EventId>, n: nat, i: EventId)
    requires Inv(s) && IsCanonicalOrder(s, order) && n < |order|
    requires Reaches(s.events, order[n], i) && i != order[n]
    ensures exists m :: 0 <= m < n && order[m] == i
  {
    var f := order[n];
    assert f in order;
    AncestorsSeen(s, f, i);
    assert i in order;
    var path :| IsPath(s.events, path, f, i);
    PathBoundsDepth(s.events, s.depth, path, f, i);
    var m :| 0 <= m < |order| && order[m] == i;
    assert m > n ==> Before(s.depth, f, i);
  }

  // ---- Views ----

  // A replica that was delivered more has the old canonical order inside its own.
  lemma OrderGrows(s: State, t: State, order: seq<EventId>, order': seq<EventId>)
    requires Inv(s) && Inv(t) && s.participants == t.participants
    requires SubGraph(Delivered(s), Delivered(t))
    requires IsCanonicalOrder(s, order) && IsCanonicalOrder(t, order')
    ensures IsSubsequence(order, order')
  {
    AcceptedGrows(s, t);
    forall i | i in order ensures i in order' && s.depth[i] == t.depth[i] {
      assert i in CanonicalSet(s);
      SeenGrows(s, t, i);
      DepthAgrees(s.events, t.events, s.depth, t.depth, i);
      assert i in CanonicalSet(t);
    }
    forall m, n | 0 <= m < n < |order| ensures Before(t.depth, order[m], order[n]) {
      assert Before(s.depth, order[m], order[n]);
      assert order[m] in order && order[n] in order;
    }
    SortedSubsequence(t.depth, order, order');
  }

  lemma SeenGrows(s: State, t: State, i: EventId)
    requires Inv(s) && Inv(t) && s.participants == t.participants
    requires SubGraph(s.events, t.events) && i in s.events
    ensures s.seenBy[i] <= t.seenBy[i]
    ensures Canonical(s, i) ==> Canonical(t, i)
  {
    forall a | a in s.seenBy[i] ensures a in t.seenBy[i] {
      assert Acked(s.events, a, i);
      var f :| f in s.events && s.events[f].author == a && Reaches(s.events, f, i);
      SharedAncestors(s.events, t.events, f, i);
      assert Acked(t.events, a, i);
    }
    SubsetSize(s.seenBy[i], t.seenBy[i]);
  }

  // The members of keep, in the order of xs.
  function Restrict(xs: seq<EventId>, keep: set<EventId>): (r: seq<EventId>)
    ensures forall x :: x in r <==> x in xs && x in keep
  {
    if xs == [] then []
    else (if xs[0] in keep then [xs[0]] else []) + Restrict(xs[1..], keep)
  }

  lemma {:induction false} SortedRestrict(depth: map<EventId, nat>, xs: seq<EventId>, keep: set<EventId>)
    requires Sorted(depth, xs)
    ensures Sorted(depth, Restrict(xs, keep))
  {
    if xs != [] {
      var rest := Restrict(xs[1..], keep);
      SortedRestrict(depth, xs[1..], keep);
      if xs[0] in keep {
        forall n | 0 <= n < |rest| ensures Before(depth, xs[0], rest[n]) {
          assert rest[n] in rest;
          var k :| 0 <= k < |xs[1..]| && xs[1..][k] == rest[n];
          assert Before(depth, xs[0], xs[k + 1]);
        }
      }
    }
  }

  // Two replicas never order two events differently: whatever each has been
  // delivered, and whatever each counts as canonical, the events canonical in
  // both come in the same order in both.
  lemma Agreement(s: State, t: State, order: seq<EventId>, order': seq<EventId>)
    requires Inv(s) && Inv(t) && Agree(Delivered(s), Delivered(t))
    requires IsCanonicalOrder(s, order) && IsCanonicalOrder(t, order')
    ensures var common := CanonicalSet(s) * CanonicalSet(t);
      Restrict(order, common) == Restrict(order', common)
  {
    var common := CanonicalSet(s) * CanonicalSet(t);
    var xs, ys := Restrict(order, common), Restrict(order', common);
    AgreeOnAccepted(s, t);
    SortedRestrict(s.depth, order, common);
    SortedRestrict(t.depth, order', common);
    forall m, n | 0 <= m < n < |ys| ensures Before(s.depth, ys[m], ys[n]) {
      assert ys[m] in ys && ys[n] in ys;
      assert Before(t.depth, ys[m], ys[n]);
      DepthAgrees(s.events, t.events, s.depth, t.depth, ys[m]);
      DepthAgrees(s.events, t.events, s.depth, t.depth, ys[n]);
    }
    SortedUnique(s.depth, xs, ys);
  }

  lemma AgreeOnAccepted(s: State, t: State)
    requires s.events.Keys !! s.pending.Keys && t.events.Keys !! t.pending.Keys
    requires Agree(Delivered(s), Delivered(t))
    ensures Agree(s.events, t.events)
  {
    forall i | i in s.events && i in t.events ensures s.events[i] == t.events[i] {
      assert Delivered(s)[i] == s.events[i] && Delivered(t)[i] == t.events[i];
    }
  }

  // An event accepted by two replicas has one depth and one set of ancestors.
  lemma SharedEventAgrees(s: State, t: State, f: EventId)
    requires Inv(s) && Inv(t) && Agree(Delivered(s), Delivered(t))
    requires f in s.events && f in t.events
    ensures s.depth[f] == t.depth[f]
    ensures forall i :: Reaches(s.events, f, i) <==> Reaches(t.events, f, i)
  {
    AgreeOnAccepted(s, t);
    DepthAgrees(s.events, t.events, s.depth, t.depth, f);
    forall i ensures Reaches(s.events, f, i) <==> Reaches(t.events, f, i) {
      SharedAncestors(s.events, t.events, f, i);
    }
  }
}
