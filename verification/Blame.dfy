/**
 Blame over a file history (demo/git/blame.html): each new version keeps the
 commit of every line the diff matches and claims the rest for itself.
 */
module Blame {
  import opened Subsequences
  import opened LineDiff

  // ---- One version against the one before ----

  // The commits of the new lines, by recursion on both sides.
  function Assignments<C>(a: seq<Line>, b: seq<Line>, was: seq<C>, commit: C): (r: seq<C>)
    requires |was| == |a|
    ensures |r| == |b|
    decreases |a| + |b|
  {
    if b == [] then []
    else if a == [] then [commit] + Assignments(a, b[1..], was, commit)
    else if a[0] == b[0] then [was[0]] + Assignments(a[1..], b[1..], was[1..], commit)
    else if Lcs(a[1..], b) >= Lcs(a, b[1..]) then Assignments(a[1..], b, was[1..], commit)
    else [commit] + Assignments(a, b[1..], was, commit)
  }

  lemma AssignmentsFrom<C>(rows: array2<nat>, a: seq<Line>, b: seq<Line>, was: seq<C>, commit: C, i: nat, j: nat)
    requires |was| == |a| && i < |a| && j < |b| && IsTable(rows, a, b)
    ensures
      Assignments(a[i..], b[j..], was[i..], commit) ==
        if a[i] == b[j] then [was[i]] + Assignments(a[i + 1..], b[j + 1..], was[i + 1..], commit)
        else if rows[i + 1, j] >= rows[i, j + 1] then Assignments(a[i + 1..], b[j..], was[i + 1..], commit)
        else [commit] + Assignments(a[i..], b[j + 1..], was[i..], commit)
  {
    assert a[i..][1..] == a[i + 1..] && b[j..][1..] == b[j + 1..] && was[i..][1..] == was[i + 1..];
  }

  // The closing loop: whatever is left of the new version is claimed.
  method ClaimRest<C>(next: seq<C>, b: seq<Line>, j: nat, commit: C) returns (next': seq<C>)
    requires j <= |b|
    ensures next' == next + Assignments([], b[j..], [], commit)
  {
    next' := next;
    var k := j;
    while k < |b|
      invariant k <= |b|
      invariant next + Assignments([], b[j..], [], commit) == next' + Assignments([], b[k..], [], commit)
    {
      assert b[k..][1..] == b[k + 1..];
      next' := next' + [commit];
      k := k + 1;
    }
  }

  // One step of the walk down the table.
  method AssignStep<C>(rows: array2<nat>, before: seq<Line>, after: seq<Line>, was: seq<C>, commit: C, next: seq<C>,
      i: nat, j: nat) returns (next': seq<C>, i': nat, j': nat)
    requires |was| == |before| && i < |before| && j < |after| && IsTable(rows, before, after)
    ensures i <= i' <= |before| && j <= j' <= |after| && i + j < i' + j'
    ensures next' + Assignments(before[i'..], after[j'..], was[i'..], commit)
      == next + Assignments(before[i..], after[j..], was[i..], commit)
  {
    AssignmentsFrom(rows, before, after, was, commit, i, j);
    if before[i] == after[j] {
      next', i', j' := next + [was[i]], i + 1, j + 1;
    } else if rows[i + 1, j] >= rows[i, j + 1] {
      next', i', j' := next, i + 1, j;
    } else {
      next', i', j' := next + [commit], i, j + 1;
    }
  }

  method DiffLineAssignments<C>(before: seq<Line>, after: seq<Line>, beforeAssignments: seq<C>, currentCommit: C)
    returns (next: seq<C>)
    requires |beforeAssignments| == |before|
    ensures next == Assignments(before, after, beforeAssignments, currentCommit)
  {
    var rows := FillTable(before, after);
    ghost var whole := Assignments(before, after, beforeAssignments, currentCommit);
    next := [];
    var i, j := 0, 0;
    assert before[0..] == before && after[0..] == after && beforeAssignments[0..] == beforeAssignments;
    while i < |before| && j < |after|
      invariant 0 <= i <= |before| && 0 <= j <= |after| && IsTable(rows, before, after)
      invariant whole == next + Assignments(before[i..], after[j..], beforeAssignments[i..], currentCommit)
      decreases |before| - i + |after| - j
    {
      next, i, j := AssignStep(rows, before, after, beforeAssignments, currentCommit, next, i, j);
    }
    assert i == |before| ==> before[i..] == [] && beforeAssignments[i..] == [];
    assert j == |after| ==> after[j..] == [];
    next := ClaimRest(next, after, j, currentCommit);
  }

  // ---- Alignments ----

  const NEW: int := -1

  // For each line of b, the line of a it was kept from (counting from at), or NEW.
  function Sources(a: seq<Line>, b: seq<Line>, at: nat): (m: seq<int>)
    ensures |m| == |b|
    decreases |a| + |b|
  {
    if b == [] then []
    else if a == [] then [NEW] + Sources(a, b[1..], at)
    else if a[0] == b[0] then [at] + Sources(a[1..], b[1..], at + 1)
    else if Lcs(a[1..], b) >= Lcs(a, b[1..]) then Sources(a[1..], b, at + 1)
    else [NEW] + Sources(a, b[1..], at)
  }

  // Two lines swapped: the second keeps its source, the first is new.
  lemma SwappedSources(x: Line, y: Line)
    requires x != y
    ensures Sources([x, y], [y, x], 0) == [1, NEW]
  {
    var a, b := [x, y], [y, x];
    assert a[1..] == [y] && b[1..] == [x] && [y][1..] == [] && [x][1..] == [];
    assert Lcs([y], b) == 1 + Lcs([], [x]) && Lcs(a, [x]) == 1 + Lcs([y], []);
    assert Sources([], [x], 2) == [NEW] + Sources([], [], 2);
    assert Sources([y], b, 1) == [1] + Sources([], [x], 2);
  }

  // m matches lines of b with equal lines of a (counting from at), in order.
  ghost predicate IsAlignment(a: seq<Line>, b: seq<Line>, at: nat, m: seq<int>) {
    && |m| == |b|
    && (forall j :: 0 <= j < |m| && m[j] != NEW ==> at <= m[j] < at + |a| && a[m[j] - at] == b[j])
    && (forall j, k :: 0 <= j < k < |m| && m[j] != NEW && m[k] != NEW ==> m[j] < m[k])
  }

  function Kept(m: seq<int>): nat {
    if m == [] then 0 else (if m[0] == NEW then 0 else 1) + Kept(m[1..])
  }

  lemma AlignNew(a: seq<Line>, b: seq<Line>, at: nat, m: seq<int>)
    requires b != [] && IsAlignment(a, b[1..], at, m)
    ensures IsAlignment(a, b, at, [NEW] + m) && Kept([NEW] + m) == Kept(m)
  {
    assert ([NEW] + m)[1..] == m;
  }

  lemma AlignMatch(a: seq<Line>, b: seq<Line>, at: nat, m: seq<int>)
    requires a != [] && b != [] && a[0] == b[0] && IsAlignment(a[1..], b[1..], at + 1, m)
    ensures IsAlignment(a, b, at, [at] + m) && Kept([at] + m) == 1 + Kept(m)
  {
    assert ([at] + m)[1..] == m;
  }

  lemma AlignSkip(a: seq<Line>, b: seq<Line>, at: nat, m: seq<int>)
    requires a != [] && IsAlignment(a[1..], b, at + 1, m)
    ensures IsAlignment(a, b, at, m)
  {
    forall j | 0 <= j < |m| && m[j] != NEW ensures at <= m[j] < at + |a| && a[m[j] - at] == b[j] {
      assert a[1..][m[j] - (at + 1)] == b[j];
    }
  }

  // The matches keep order and number the longest common subsequence.
  lemma {:induction false} SourcesAlign(a: seq<Line>, b: seq<Line>, at: nat)
    ensures IsAlignment(a, b, at, Sources(a, b, at)) && Kept(Sources(a, b, at)) == Lcs(a, b)
    decreases |a| + |b|
  {
    if b != [] {
      if a == [] {
        SourcesAlign(a, b[1..], at);
        AlignNew(a, b, at, Sources(a, b[1..], at));
      } else if a[0] == b[0] {
        SourcesAlign(a[1..], b[1..], at + 1);
        AlignMatch(a, b, at, Sources(a[1..], b[1..], at + 1));
      } else if Lcs(a[1..], b) >= Lcs(a, b[1..]) {
        SourcesAlign(a[1..], b, at + 1);
        AlignSkip(a, b, at, Sources(a[1..], b, at + 1));
      } else {
        SourcesAlign(a, b[1..], at);
        AlignNew(a, b, at, Sources(a, b[1..], at));
      }
    }
  }

  // The lines an alignment keeps.
  function KeptLines(b: seq<Line>, m: seq<int>): (s: seq<Line>)
    requires |m| == |b|
    ensures |s| == Kept(m)
  {
    if m == [] then []
    else if m[0] == NEW then KeptLines(b[1..], m[1..])
    else [b[0]] + KeptLines(b[1..], m[1..])
  }

  lemma {:induction false} KeptIsCommon(a: seq<Line>, b: seq<Line>, at: nat, m: seq<int>)
    requires IsAlignment(a, b, at, m)
    ensures Common(KeptLines(b, m), a, b)
    decreases |b|
  {
    if m != [] {
      var rest := KeptLines(b[1..], m[1..]);
      assert b == [b[0]] + b[1..];
      if m[0] == NEW {
        KeptIsCommon(a, b[1..], at, m[1..]);
        ConsRight(b[0], rest, b[1..]);
      } else {
        var n := m[0] - at;
        AlignmentAfter(a, b, at, m);
        KeptIsCommon(a[n + 1..], b[1..], at + n + 1, m[1..]);
        ConsBoth(b[0], rest, b[1..]);
        ConsBoth(b[0], rest, a[n + 1..]);
        assert a[n..] == [b[0]] + a[n + 1..];
        WeakenBy([b[0]] + rest, a, n);
      }
    }
  }

  lemma AlignmentAfter(a: seq<Line>, b: seq<Line>, at: nat, m: seq<int>)
    requires IsAlignment(a, b, at, m) && m != [] && m[0] != NEW
    ensures IsAlignment(a[m[0] - at + 1..], b[1..], m[0] + 1, m[1..])
  {
    forall j | 0 <= j < |m[1..]| && m[1..][j] != NEW
      ensures m[0] + 1 <= m[1..][j] < at + |a| && a[m[0] - at + 1..][m[1..][j] - (m[0] + 1)] == b[1..][j]
    {
      assert m[j + 1] != NEW && m[0] < m[j + 1];
    }
  }

  // A version claims as few lines as any order-preserving matching could leave it.
  lemma ClaimsFewest(a: seq<Line>, b: seq<Line>, m: seq<int>)
    requires IsAlignment(a, b, 0, m)
    ensures Kept(m) <= Kept(Sources(a, b, 0))
    ensures Kept(Sources(a, b, 0)) == Lcs(a, b)
  {
    SourcesAlign(a, b, 0);
    KeptIsCommon(a, b, 0, m);
    LcsBounds(KeptLines(b, m), a, b);
  }

  // The commit c of a line is that of its source, or the new one if it has none.
  ghost predicate Keeps<C>(src: int, c: C, was: seq<C>, commit: C, at: nat) {
    (src == NEW || at <= src < at + |was|) && c == if src == NEW then commit else was[src - at]
  }

  // Sources past the first old line are sources.
  lemma KeepsLater<C>(src: int, c: C, was: seq<C>, commit: C, at: nat)
    requires was != [] && Keeps(src, c, was[1..], commit, at + 1)
    ensures Keeps(src, c, was, commit, at)
  {}

  // The cases of AssignmentsFollowSources: the first line is claimed, ...
  lemma ClaimedAt<C>(a: seq<Line>, b: seq<Line>, was: seq<C>, commit: C, at: nat, j: nat)
    requires |was| == |a| && j < |b| && (a == [] || (a[0] != b[0] && Lcs(a[1..], b) < Lcs(a, b[1..])))
    ensures Sources(a, b, at)[j] == if j == 0 then NEW else Sources(a, b[1..], at)[j - 1]
    ensures Assignments(a, b, was, commit)[j] == if j == 0 then commit else Assignments(a, b[1..], was, commit)[j - 1]
  {}

  // ... matched, ...
  lemma MatchedAt<C>(a: seq<Line>, b: seq<Line>, was: seq<C>, commit: C, at: nat, j: nat)
    requires |was| == |a| && j < |b| && a != [] && a[0] == b[0]
    ensures Sources(a, b, at)[j] == if j == 0 then at else Sources(a[1..], b[1..], at + 1)[j - 1]
    ensures Assignments(a, b, was, commit)[j]
      == if j == 0 then was[0] else Assignments(a[1..], b[1..], was[1..], commit)[j - 1]
  {}

  // ... or the first old line is dropped.
  lemma DroppedAt<C>(a: seq<Line>, b: seq<Line>, was: seq<C>, commit: C, at: nat)
    requires |was| == |a| && a != [] && b != [] && a[0] != b[0] && Lcs(a[1..], b) >= Lcs(a, b[1..])
    ensures Sources(a, b, at) == Sources(a[1..], b, at + 1)
    ensures Assignments(a, b, was, commit) == Assignments(a[1..], b, was[1..], commit)
  {}

  // Kept lines carry their old commit, the others the new one.
  lemma {:induction false} AssignmentsFollowSources<C>(a: seq<Line>, b: seq<Line>, was: seq<C>, commit: C, at: nat,
      j: nat)
    requires |was| == |a| && j < |b|
    ensures Keeps(Sources(a, b, at)[j], Assignments(a, b, was, commit)[j], was, commit, at)
    decreases |a| + |b|
  {
    if a == [] || (a[0] != b[0] && Lcs(a[1..], b) < Lcs(a, b[1..])) {
      ClaimedAt(a, b, was, commit, at, j);
      if j > 0 {
        AssignmentsFollowSources(a, b[1..], was, commit, at, j - 1);
      }
    } else if a[0] == b[0] {
      MatchedAt(a, b, was, commit, at, j);
      if j > 0 {
        AssignmentsFollowSources(a[1..], b[1..], was[1..], commit, at + 1, j - 1);
        KeepsLater(Sources(a, b, at)[j], Assignments(a, b, was, commit)[j], was, commit, at);
      }
    } else {
      DroppedAt(a, b, was, commit, at);
      AssignmentsFollowSources(a[1..], b, was[1..], commit, at + 1, j);
      KeepsLater(Sources(a, b, at)[j], Assignments(a, b, was, commit)[j], was, commit, at);
    }
  }

  // ---- A whole history ----

  datatype Version<C> = Version(lines: seq<Line>, commit: C)

  function BlameOf<C>(vs: seq<Version<C>>): (r: seq<C>)
    requires vs != []
    ensures |r| == |vs[|vs| - 1].lines|
  {
    var last := vs[|vs| - 1];
    if |vs| == 1 then seq(|last.lines|, _ => last.commit)
    else Assignments(vs[|vs| - 2].lines, last.lines, BlameOf(vs[..|vs| - 1]), last.commit)
  }

  // buildFileBlame once the versions have been read, oldest first.
  method FileBlame<C>(versions: seq<Version<C>>) returns (lines: seq<Line>, commits: seq<C>)
    requires versions != []
    ensures lines == versions[|versions| - 1].lines && commits == BlameOf(versions)
  {
    lines := versions[0].lines;
    commits := seq(|lines|, _ => versions[0].commit);
    assert versions[..1] == [versions[0]];
    for k := 1 to |versions|
      invariant lines == versions[k - 1].lines && commits == BlameOf(versions[..k])
    {
      var version := versions[k];
      assert versions[..k + 1][..k] == versions[..k];
      commits := DiffLineAssignments(lines, version.lines, commits, version.commit);
      lines := version.lines;
    }
    assert versions[..|versions|] == versions;
  }

  ghost function Step<C>(vs: seq<Version<C>>, t: nat): seq<int>
    requires 0 < t < |vs|
  {
    Sources(vs[t - 1].lines, vs[t].lines, 0)
  }

  // The version that introduced line j of version t.
  ghost function Introduced<C>(vs: seq<Version<C>>, t: nat, j: nat): (v: nat)
    requires t < |vs| && j < |vs[t].lines|
    ensures v <= t
    decreases t
  {
    if t == 0 then 0
    else
      SourcesAlign(vs[t - 1].lines, vs[t].lines, 0);
      var src := Step(vs, t)[j];
      if src == NEW then t else Introduced(vs, t - 1, src)
  }

  // Where line j of version t stood in the earlier version u.
  ghost function Position<C>(vs: seq<Version<C>>, t: nat, j: nat, u: nat): (p: nat)
    requires t < |vs| && j < |vs[t].lines| && Introduced(vs, t, j) <= u <= t
    ensures p < |vs[u].lines|
    decreases t
  {
    if u == t then j
    else
      SourcesAlign(vs[t - 1].lines, vs[t].lines, 0);
      Position(vs, t - 1, Step(vs, t)[j], u)
  }

  // A line is blamed on the version that introduced it.
  lemma {:induction false} BlamedOnIntroducer<C>(vs: seq<Version<C>>, j: nat)
    requires vs != [] && j < |vs[|vs| - 1].lines|
    ensures BlameOf(vs)[j] == vs[Introduced(vs, |vs| - 1, j)].commit
  {
    var n := |vs| - 1;
    if n > 0 {
      var front := vs[..n];
      AssignmentsFollowSources(vs[n - 1].lines, vs[n].lines, BlameOf(front), vs[n].commit, 0, j);
      var src := Step(vs, n)[j];
      if src != NEW {
        BlamedOnIntroducer(front, src);
        IntroducedInFront(vs, n, n - 1, src);
      }
    }
  }

  lemma {:induction false} IntroducedInFront<C>(vs: seq<Version<C>>, n: nat, t: nat, j: nat)
    requires t < n <= |vs| && j < |vs[t].lines|
    ensures Introduced(vs[..n], t, j) == Introduced(vs, t, j)
    decreases t
  {
    if t > 0 {
      SourcesAlign(vs[t - 1].lines, vs[t].lines, 0);
      var src := Step(vs, t)[j];
      assert Step(vs[..n], t) == Step(vs, t);
      if src != NEW {
        IntroducedInFront(vs, n, t - 1, src);
      }
    }
  }

  // The text of a line stands in every version from the one that introduced it on,
  // each time at the place the diff matched; the introducer had no source for it.
  lemma {:induction false} LineHistory<C>(vs: seq<Version<C>>, t: nat, j: nat, u: nat)
    requires t < |vs| && j < |vs[t].lines| && Introduced(vs, t, j) <= u <= t
    ensures vs[u].lines[Position(vs, t, j, u)] == vs[t].lines[j]
    ensures u == Introduced(vs, t, j) ==> u == 0 || Step(vs, u)[Position(vs, t, j, u)] == NEW
    ensures u > Introduced(vs, t, j) ==> Step(vs, u)[Position(vs, t, j, u)] == Position(vs, t, j, u - 1)
    decreases t
  {
    if t > 0 {
      SourcesAlign(vs[t - 1].lines, vs[t].lines, 0);
      if u < t {
        LineHistory(vs, t - 1, Step(vs, t)[j], u);
      }
    }
  }

  // Lines keep their order all the way back.
  lemma {:induction false} OrderKept<C>(vs: seq<Version<C>>, t: nat, j: nat, k: nat, u: nat)
    requires t < |vs| && j < k < |vs[t].lines|
    requires Introduced(vs, t, j) <= u <= t && Introduced(vs, t, k) <= u
    ensures Position(vs, t, j, u) < Position(vs, t, k, u)
    decreases t
  {
    if u < t {
      SourcesAlign(vs[t - 1].lines, vs[t].lines, 0);
      OrderKept(vs, t - 1, Step(vs, t)[j], Step(vs, t)[k], u);
    }
  }
}
