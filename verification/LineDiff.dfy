/**
 The line diff of the git viewer (demo/git/index.html) and the blame built on
 the same table (demo/git/blame.html): a table of longest common subsequence
 lengths filled backwards, then a walk from the top that always takes a match.
 */
module LineDiff {
  import opened Numbers
  import opened Subsequences

  type Line = string

  // ---- What the table holds ----

  // Length of a longest common subsequence.
  function Lcs(a: seq<Line>, b: seq<Line>): nat
    decreases |a| + |b|
  {
    if a == [] || b == [] then 0
    else if a[0] == b[0] then 1 + Lcs(a[1..], b[1..])
    else Max(Lcs(a[1..], b), Lcs(a, b[1..]))
  }

  ghost predicate Common(s: seq<Line>, a: seq<Line>, b: seq<Line>) {
    IsSubsequence(s, a) && IsSubsequence(s, b)
  }

  // No common subsequence is longer: taking a match never loses anything.
  lemma {:induction false} LcsBounds(s: seq<Line>, a: seq<Line>, b: seq<Line>)
    requires Common(s, a, b)
    ensures |s| <= Lcs(a, b)
    decreases |a| + |b|
  {
    if s != [] {
      if a[0] == b[0] {
        DropBoth(s, a);
        DropBoth(s, b);
        LcsBounds(s[1..], a[1..], b[1..]);
      } else if s[0] == a[0] {
        LcsBounds(s, a, b[1..]);
      } else {
        LcsBounds(s, a[1..], b);
      }
    }
  }

  lemma {:induction false} LcsAttained(a: seq<Line>, b: seq<Line>) returns (s: seq<Line>)
    ensures Common(s, a, b) && |s| == Lcs(a, b)
    decreases |a| + |b|
  {
    if a == [] || b == [] {
      s := [];
    } else if a[0] == b[0] {
      s := LcsAttained(a[1..], b[1..]);
      s := [a[0]] + s;
    } else if Lcs(a[1..], b) >= Lcs(a, b[1..]) {
      s := LcsAttained(a[1..], b);
      Weaken(s, a);
    } else {
      s := LcsAttained(a, b[1..]);
      Weaken(s, b);
    }
  }

  ghost predicate IsTable(rows: array2<nat>, before: seq<Line>, after: seq<Line>)
    reads rows
  {
    && rows.Length0 == |before| + 1 && rows.Length1 == |after| + 1
    && forall i, j {:trigger rows[i, j]} ::
      0 <= i <= |before| && 0 <= j <= |after| ==> rows[i, j] == Lcs(before[i..], after[j..])
  }

  // Columns from j on of row i hold the answer for the rests of both sides.
  ghost predicate RowFrom(rows: array2<nat>, before: seq<Line>, after: seq<Line>, i: nat, j: nat)
    requires i <= |before| && rows.Length0 == |before| + 1 && rows.Length1 == |after| + 1
    reads rows
  {
    forall j' {:trigger rows[i, j']} :: j <= j' <= |after| ==> rows[i, j'] == Lcs(before[i..], after[j'..])
  }

  method FillTable(before: seq<Line>, after: seq<Line>) returns (rows: array2<nat>)
    ensures fresh(rows) && IsTable(rows, before, after)
  {
    rows := new nat[|before| + 1, |after| + 1]((_, _) => 0);
    var i := |before|;
    while i > 0
      invariant 0 <= i <= |before|
      invariant forall i' {:trigger RowFrom(rows, before, after, i', 0)} ::
        i <= i' <= |before| ==> RowFrom(rows, before, after, i', 0)
      invariant forall i' {:trigger rows[i', |after|]} :: 0 <= i' <= |before| ==> rows[i', |after|] == 0
    {
      i := i - 1;
      var j := |after|;
      assert RowFrom(rows, before, after, i + 1, 0);
      while j > 0
        invariant 0 <= j <= |after| && RowFrom(rows, before, after, i, j)
        invariant forall i' {:trigger RowFrom(rows, before, after, i', 0)} ::
          i < i' <= |before| ==> RowFrom(rows, before, after, i', 0)
        invariant forall i' {:trigger rows[i', |after|]} :: 0 <= i' <= |before| ==> rows[i', |after|] == 0
      {
        j := j - 1;
        assert before[i..][1..] == before[i + 1..] && after[j..][1..] == after[j + 1..];
        assert RowFrom(rows, before, after, i + 1, 0);
        label Unwritten:
        rows[i, j] := if before[i] == after[j] then rows[i + 1, j + 1] + 1 else Max(rows[i + 1, j], rows[i, j + 1]);
        forall i': nat | i < i' <= |before| ensures RowFrom(rows, before, after, i', 0) {
          assert old@Unwritten(RowFrom(rows, before, after, i', 0));
        }
      }
    }
    forall i', j' | 0 <= i' <= |before| && 0 <= j' <= |after| ensures rows[i', j'] == Lcs(before[i'..], after[j'..]) {
      assert RowFrom(rows, before, after, i', 0);
    }
  }

  // ---- The diff ----

  // A line of the diff: a mark (blank, minus or plus), then the text.
  function Marked(mark: char, text: Line): Line {
    [mark] + text
  }

  function MarkAll(mark: char, texts: seq<Line>): seq<Line> {
    if texts == [] then [] else [Marked(mark, texts[0])] + MarkAll(mark, texts[1..])
  }

  // The diff by recursion on both sides; a removal goes first when removing and
  // adding would save equally much.
  function Script(a: seq<Line>, b: seq<Line>): seq<Line>
    decreases |a| + |b|
  {
    if a == [] then MarkAll('+', b)
    else if b == [] then MarkAll('-', a)
    else if a[0] == b[0] then [Marked(' ', a[0])] + Script(a[1..], b[1..])
    else if Lcs(a[1..], b) >= Lcs(a, b[1..]) then [Marked('-', a[0])] + Script(a[1..], b)
    else [Marked('+', b[0])] + Script(a, b[1..])
  }

  lemma ScriptFrom(rows: array2<nat>, before: seq<Line>, after: seq<Line>, i: nat, j: nat)
    requires i < |before| && j < |after| && IsTable(rows, before, after)
    ensures
      Script(before[i..], after[j..]) ==
        if before[i] == after[j] then [Marked(' ', before[i])] + Script(before[i + 1..], after[j + 1..])
        else if rows[i + 1, j] >= rows[i, j + 1] then
          [Marked('-', before[i])] + Script(before[i + 1..], after[j..])
        else [Marked('+', after[j])] + Script(before[i..], after[j + 1..])
  {
    assert before[i..][1..] == before[i + 1..] && after[j..][1..] == after[j + 1..];
  }

  lemma MarkAllFrom(mark: char, texts: seq<Line>, i: nat)
    requires i < |texts|
    ensures MarkAll(mark, texts[i..]) == [Marked(mark, texts[i])] + MarkAll(mark, texts[i + 1..])
  {
    assert texts[i..][1..] == texts[i + 1..];
  }

  lemma Append(lines: seq<Line>, l: Line, rest: seq<Line>)
    ensures lines + ([l] + rest) == lines + [l] + rest
  {}

  method DiffLines(before: seq<Line>, after: seq<Line>) returns (lines: seq<Line>)
    ensures lines == Script(before, after)
  {
    var rows := FillTable(before, after);
    var i, j;
    lines, i, j := Walk(rows, before, after);
    ScriptTail(before[i..], after[j..]);
    lines := PushRest(lines, '-', before, i);
    lines := PushRest(lines, '+', after, j);
  }

  // The walk down the table, until one side is used up.
  method Walk(rows: array2<nat>, before: seq<Line>, after: seq<Line>) returns (lines: seq<Line>, i: nat, j: nat)
    requires IsTable(rows, before, after)
    ensures i <= |before| && j <= |after| && (i == |before| || j == |after|)
    ensures Script(before, after) == lines + Script(before[i..], after[j..])
  {
    lines, i, j := [], 0, 0;
    assert before[0..] == before && after[0..] == after;
    while i < |before| && j < |after|
      invariant 0 <= i <= |before| && 0 <= j <= |after|
      invariant Script(before, after) == lines + Script(before[i..], after[j..])
      decreases |before| - i + |after| - j
    {
      ScriptFrom(rows, before, after, i, j);
      ghost var soFar, rest := lines, Script(before[i..], after[j..]);
      var l;
      if before[i] == after[j] {
        l := Marked(' ', before[i]);
        i, j := i + 1, j + 1;
      } else if rows[i + 1, j] >= rows[i, j + 1] {
        l := Marked('-', before[i]);
        i := i + 1;
      } else {
        l := Marked('+', after[j]);
        j := j + 1;
      }
      lines := lines + [l];
      assert rest == [l] + Script(before[i..], after[j..]);
      Append(soFar, l, Script(before[i..], after[j..]));
    }
  }

  lemma ScriptTail(a: seq<Line>, b: seq<Line>)
    requires a == [] || b == []
    ensures Script(a, b) == MarkAll('-', a) + MarkAll('+', b)
  {}

  lemma {:induction false} LcsOfDisjoint(a: seq<Line>, b: seq<Line>)
    requires forall x :: x in a ==> x !in b
    ensures Lcs(a, b) == 0
    decreases |a| + |b|
  {
    if a != [] && b != [] {
      assert a[0] in a && b[0] in b;
      LcsOfDisjoint(a[1..], b);
      LcsOfDisjoint(a, b[1..]);
    }
  }

  // A text replaced by one that shares no line with it: all removals, then all
  // additions.
  lemma {:induction false} ReplacedBlock(a: seq<Line>, b: seq<Line>)
    requires forall x :: x in a ==> x !in b
    ensures Script(a, b) == MarkAll('-', a) + MarkAll('+', b)
    decreases |a|
  {
    if a != [] && b != [] {
      assert a[0] in a && b[0] in b;
      LcsOfDisjoint(a[1..], b);
      LcsOfDisjoint(a, b[1..]);
      ReplacedBlock(a[1..], b);
      assert MarkAll('-', a) + MarkAll('+', b)
        == [Marked('-', a[0])] + (MarkAll('-', a[1..]) + MarkAll('+', b));
    }
  }

  // One of the two closing loops of the walk.
  method PushRest(lines: seq<Line>, mark: char, texts: seq<Line>, from: nat) returns (lines': seq<Line>)
    requires from <= |texts|
    ensures lines' == lines + MarkAll(mark, texts[from..])
  {
    lines' := lines;
    var k := from;
    while k < |texts|
      invariant k <= |texts| && lines + MarkAll(mark, texts[from..]) == lines' + MarkAll(mark, texts[k..])
    {
      MarkAllFrom(mark, texts, k);
      Append(lines', Marked(mark, texts[k]), MarkAll(mark, texts[k + 1..]));
      lines' := lines' + [Marked(mark, texts[k])];
      k := k + 1;
    }
  }

  // Two lines swapped: the first is removed and added again.
  lemma SwappedLines(x: Line, y: Line)
    requires x != y
    ensures Script([x, y], [y, x]) == [Marked('-', x), Marked(' ', y), Marked('+', x)]
  {
    var a, b := [x, y], [y, x];
    assert a[1..] == [y] && b[1..] == [x] && [y][1..] == [] && [x][1..] == [];
    assert Lcs([y], b) == 1 + Lcs([], [x]) && Lcs(a, [x]) == 1 + Lcs([y], []);
    assert Script([y], b) == [Marked(' ', y)] + Script([], [x]);
    assert MarkAll('+', [x]) == [Marked('+', x)] + [];
  }

  // ---- What a diff means ----

  predicate HasMark(l: Line, mark: char, mark': char) {
    l != [] && (l[0] == mark || l[0] == mark')
  }

  predicate WellMarked(lines: seq<Line>) {
    lines == [] || ((HasMark(lines[0], ' ', '-') || HasMark(lines[0], ' ', '+')) && WellMarked(lines[1..]))
  }

  // The texts of the lines carrying one of the two marks.
  function Texts(lines: seq<Line>, mark: char, mark': char): seq<Line> {
    if lines == [] then []
    else
      var rest := Texts(lines[1..], mark, mark');
      if HasMark(lines[0], mark, mark') then [lines[0][1..]] + rest else rest
  }

  ghost predicate IsScript(lines: seq<Line>, before: seq<Line>, after: seq<Line>) {
    && WellMarked(lines)
    && Texts(lines, ' ', '-') == before
    && Texts(lines, ' ', '+') == after
  }

  lemma {:induction false} MarkAllTexts(mark: char, texts: seq<Line>)
    requires mark == '-' || mark == '+'
    ensures
      var lines := MarkAll(mark, texts);
      && WellMarked(lines) && Texts(lines, ' ', mark) == texts && Texts(lines, ' ', ' ') == []
      && forall other :: other != mark ==> Texts(lines, ' ', other) == []
  {
    if texts != [] {
      MarkAllTexts(mark, texts[1..]);
      var lines := MarkAll(mark, texts);
      assert lines[1..] == MarkAll(mark, texts[1..]);
      assert lines[0][1..] == texts[0];
    }
  }

  lemma TextsCons(l: Line, rest: seq<Line>, mark: char, mark': char)
    ensures Texts([l] + rest, mark, mark') ==
      if HasMark(l, mark, mark') then [l[1..]] + Texts(rest, mark, mark') else Texts(rest, mark, mark')
    ensures WellMarked([l] + rest) <==> (HasMark(l, ' ', '-') || HasMark(l, ' ', '+')) && WellMarked(rest)
  {
    assert ([l] + rest)[1..] == rest;
  }

  // Context and minus lines spell the old text, context and plus lines the new
  // one, and the context lines number the longest common subsequence.
  lemma {:induction false} ScriptSpellsBoth(a: seq<Line>, b: seq<Line>)
    ensures IsScript(Script(a, b), a, b)
    ensures |Texts(Script(a, b), ' ', ' ')| == Lcs(a, b)
    decreases |a| + |b|
  {
    if a == [] {
      MarkAllTexts('+', b);
    } else if b == [] {
      MarkAllTexts('-', a);
    } else {
      var l, a', b' :=
        if a[0] == b[0] then Marked(' ', a[0])
        else if Lcs(a[1..], b) >= Lcs(a, b[1..]) then Marked('-', a[0])
        else Marked('+', b[0]),
        if a[0] == b[0] || Lcs(a[1..], b) >= Lcs(a, b[1..]) then a[1..] else a,
        if a[0] == b[0] || Lcs(a[1..], b) < Lcs(a, b[1..]) then b[1..] else b;
      assert Script(a, b) == [l] + Script(a', b');
      ScriptSpellsBoth(a', b');
      assert l[1..] == a[0] || l[1..] == b[0];
      TextsCons(l, Script(a', b'), ' ', '-');
      TextsCons(l, Script(a', b'), ' ', '+');
      TextsCons(l, Script(a', b'), ' ', ' ');
    }
  }

  lemma {:induction false} ContextIsCommon(lines: seq<Line>)
    requires WellMarked(lines)
    ensures Common(Texts(lines, ' ', ' '), Texts(lines, ' ', '-'), Texts(lines, ' ', '+'))
    ensures |lines| + |Texts(lines, ' ', ' ')| == |Texts(lines, ' ', '-')| + |Texts(lines, ' ', '+')|
  {
    if lines != [] {
      var l, rest := lines[0], lines[1..];
      ContextIsCommon(rest);
      var minus, plus, both := Texts(rest, ' ', '-'), Texts(rest, ' ', '+'), Texts(rest, ' ', ' ');
      if l[0] == '-' {
        ConsRight(l[1..], both, minus);
      } else if l[0] == '+' {
        ConsRight(l[1..], both, plus);
      } else {
        ConsBoth(l[1..], both, minus);
        ConsBoth(l[1..], both, plus);
      }
    }
  }

  // No other diff of the same two texts is shorter or keeps more context.
  lemma ScriptIsShortest(lines: seq<Line>, before: seq<Line>, after: seq<Line>)
    requires IsScript(lines, before, after)
    ensures |Script(before, after)| <= |lines|
    ensures |Texts(lines, ' ', ' ')| <= |Texts(Script(before, after), ' ', ' ')|
  {
    ScriptSpellsBoth(before, after);
    ContextIsCommon(Script(before, after));
    ContextIsCommon(lines);
    LcsBounds(Texts(lines, ' ', ' '), before, after);
  }
}
