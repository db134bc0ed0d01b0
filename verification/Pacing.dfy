/**
 The sizes of a run (demo/krackpot/src/coordinator.js:351-435) as a function of what
 happens in its turns: completions recalibrate, losses shrink, and the run gives up.
 */
module Pacing {
  import opened Modular
  import opened Numbers
  import opened Sizing
  import opened Draws

  // What the device does with one dispatch.
  datatype Outcome = Completed(elapsed: real) | LostBeforeUpload | LostAfterUpload

  // One turn of the start loop, as the outside world plays it: the random sample, the
  // outcome, whether a lost device recovers, and whether the user asks to stop.
  datatype Turn = Turn(sample: nat, outcome: Outcome, recovers: bool, stops: bool)

  // On a lost device no dispatch completes.
  function Actual(lost: bool, turn: Turn): Turn {
    if lost && turn.outcome.Completed? then turn.(outcome := LostAfterUpload) else turn
  }

  // A turn as it was played: with the first key drawn, and whether its dispatch
  // ended the run by a report or an exception.
  datatype Play = Play(turn: Turn, drawn: int, ends: bool)

  // The size of the next dispatch, the size that the last completed dispatch left
  // (or the first), the sizes lost since, and the dispatches completed.
  datatype Pace = Pace(size: nat, calibrated: nat, lost: seq<nat>, completed: nat, gaveUp: bool)

  function NextPace(n: nat, pace: Pace, play: Play): Pace
    requires n > 0
  {
    if pace.gaveUp || play.drawn % n == 0 then pace
    else
      match play.turn.outcome
      case Completed(elapsed) =>
        var size := if play.ends then pace.size else Recalibrated(pace.size, elapsed);
        Pace(size, size, [], pace.completed + 1, false)
      case _ =>
        var lost := pace.lost + [pace.size];
        Pace(Shrink(pace.size), pace.calibrated, lost, pace.completed,
          !play.turn.recovers || |lost| > MAX_RECOVERY_ATTEMPTS)
  }

  function PaceOf(n: nat, start: nat, plays: seq<Play>): Pace
    requires n > 0
  {
    if plays == [] then Pace(start, start, [], 0, false)
    else NextPace(n, PaceOf(n, start, plays[..|plays| - 1]), plays[|plays| - 1])
  }

  lemma PaceMore(n: nat, start: nat, plays: seq<Play>, play: Play)
    requires n > 0
    ensures PaceOf(n, start, plays + [play]) == NextPace(n, PaceOf(n, start, plays), play)
  {
    assert (plays + [play])[..|plays|] == plays;
  }

  // Whether the device is lost after these plays, of a run that goes on: it was so at
  // the start, and no play has dispatched and recovered since.
  ghost predicate StillLost(n: nat, lost: bool, plays: seq<Play>)
    requires n > 0
  {
    lost && forall k :: 0 <= k < |plays| ==> plays[k].drawn % n == 0
  }

  ghost predicate FirstKeyAt(sample: nat, size: nat, lo: int, hi: int, drawn: int) {
    size > 0 && drawn == FirstKey(sample, size, lo, hi)
  }

  // The first keys of the plays are drawn by their samples at the sizes of the run,
  // which starts on a device that is lost or not.
  ghost predicate PlayedAt(n: nat, start: nat, lost: bool, turns: seq<Turn>, lo: int, hi: int, plays: seq<Play>, k: int)
    requires n > 0
  {
    0 <= k < |plays| ==>
      && k < |turns| && plays[k].turn == Actual(StillLost(n, lost, plays[..k]), turns[k])
      && (plays[k].ends ==> k == |plays| - 1)
      && FirstKeyAt(plays[k].turn.sample, PaceOf(n, start, plays[..k]).size, lo, hi, plays[k].drawn)
  }

  // plays is a run over the first turns of the list.
  ghost predicate Played(n: nat, start: nat, lost: bool, turns: seq<Turn>, lo: int, hi: int, plays: seq<Play>)
    requires n > 0
  {
    forall k {:trigger PlayedAt(n, start, lost, turns, lo, hi, plays, k)} ::
      PlayedAt(n, start, lost, turns, lo, hi, plays, k)
  }

  lemma PlayedMore(n: nat, start: nat, lost: bool, turns: seq<Turn>, lo: int, hi: int, plays: seq<Play>, play: Play)
    requires n > 0 && Played(n, start, lost, turns, lo, hi, plays) && (plays != [] ==> !plays[|plays| - 1].ends)
    requires |plays| < |turns| && play.turn == Actual(StillLost(n, lost, plays), turns[|plays|])
    requires FirstKeyAt(play.turn.sample, PaceOf(n, start, plays).size, lo, hi, play.drawn)
    ensures Played(n, start, lost, turns, lo, hi, plays + [play])
  {
    var more := plays + [play];
    forall k ensures PlayedAt(n, start, lost, turns, lo, hi, more, k) {
      if 0 <= k < |plays| {
        assert PlayedAt(n, start, lost, turns, lo, hi, plays, k) && more[..k] == plays[..k];
      } else if k == |plays| {
        assert more[..k] == plays;
      }
    }
  }

  // ---- Completions in a row ----

  ghost function Fast(): real -> bool {
    (elapsed: real) => elapsed < 50.0
  }

  ghost function Level(): real -> bool {
    (elapsed: real) => 175.0 <= elapsed <= 500.0
  }

  ghost function Slow(): real -> bool {
    (elapsed: real) => elapsed > 500.0
  }

  // The play completes a dispatch in such a time, and the run goes on.
  ghost predicate Completes(n: nat, play: Play, time: real -> bool)
    requires n > 0
  {
    play.drawn % n != 0 && !play.ends && play.turn.outcome.Completed? && time(play.turn.outcome.elapsed)
  }

  ghost predicate AllComplete(n: nat, plays: seq<Play>, time: real -> bool)
    requires n > 0
  {
    forall k {:trigger Completes(n, plays[k], time)} :: 0 <= k < |plays| ==> Completes(n, plays[k], time)
  }

  lemma PaceStep(n: nat, start: nat, before: seq<Play>, plays: seq<Play>)
    requires n > 0 && plays != []
    ensures PaceOf(n, start, before + plays)
      == NextPace(n, PaceOf(n, start, before + plays[..|plays| - 1]), plays[|plays| - 1])
  {
    assert (before + plays)[..|before + plays| - 1] == before + plays[..|plays| - 1];
  }

  lemma DoubledUpTo(w: nat, size: nat, bound: nat)
    ensures Min(bound, Min(bound, w * size) * 2) == Min(bound, 2 * w * size)
  {
    assert 2 * w * size == 2 * (w * size);
  }

  // k completions below 50 ms in a row double the size k times, up to the ceiling.
  lemma {:induction false} FastRun(n: nat, start: nat, before: seq<Play>, fast: seq<Play>)
    requires n > 0 && !PaceOf(n, start, before).gaveUp && AllComplete(n, fast, Fast())
    requires PaceOf(n, start, before).size <= MAX_KEYS_PER_DISPATCH
    ensures
      var pace, pace' := PaceOf(n, start, before), PaceOf(n, start, before + fast);
      && pace'.size == Min(0x400_0000, Pow2(|fast|) * pace.size)
      && pace'.completed == pace.completed + |fast| && !pace'.gaveUp
  {
    if fast == [] {
      assert before + fast == before;
    } else {
      var front, last := fast[..|fast| - 1], fast[|fast| - 1];
      assert forall k :: 0 <= k < |front| ==> Completes(n, fast[k], Fast());
      FastRun(n, start, before, front);
      PaceStep(n, start, before, fast);
      assert Completes(n, last, Fast());
      DoubledUpTo(Pow2(|front|), PaceOf(n, start, before).size, 0x400_0000);
    }
  }

  // Completions from 175 ms to 500 ms leave it alone.
  lemma {:induction false} SteadySize(n: nat, start: nat, before: seq<Play>, level: seq<Play>)
    requires n > 0 && !PaceOf(n, start, before).gaveUp && AllComplete(n, level, Level())
    ensures
      var pace, pace' := PaceOf(n, start, before), PaceOf(n, start, before + level);
      pace'.size == pace.size && pace'.completed == pace.completed + |level| && !pace'.gaveUp
  {
    if level == [] {
      assert before + level == before;
    } else {
      var front := level[..|level| - 1];
      assert forall k :: 0 <= k < |front| ==> Completes(n, level[k], Level());
      SteadySize(n, start, before, front);
      PaceStep(n, start, before, level);
      assert Completes(n, level[|level| - 1], Level());
    }
  }

  lemma HalvedDownTo(w: nat, size: nat)
    requires w > 0
    ensures Max(64, Max(64, Quotient(size, w)) / 2) == Max(64, Quotient(size, 2 * w))
  {
    var q, r := size / w, size % w;
    var i, j := q / 2, q % 2;
    assert size == q * w + r && q == 2 * i + j;
    TwiceParts(i, j, w);
    MulMono(j, 1, w);
    DivModUnique(size, i, j * w + r, 2 * w);
  }

  lemma TwiceParts(i: int, j: int, w: int)
    ensures (2 * i + j) * w == i * (2 * w) + j * w
  {}

  // k completions above 500 ms in a row halve it k times, down to 64.
  lemma {:induction false} SlowRun(n: nat, start: nat, before: seq<Play>, slow: seq<Play>)
    requires n > 0 && !PaceOf(n, start, before).gaveUp && AllComplete(n, slow, Slow()) && slow != []
    ensures Pow2(|slow|) > 0
    ensures
      var pace, pace' := PaceOf(n, start, before), PaceOf(n, start, before + slow);
      && pace'.size == Max(64, Quotient(pace.size, Pow2(|slow|)))
      && pace'.completed == pace.completed + |slow| && !pace'.gaveUp
  {
    Pow2Pos(|slow|);
    var front, last := slow[..|slow| - 1], slow[|slow| - 1];
    assert forall k :: 0 <= k < |front| ==> Completes(n, slow[k], Slow());
    PaceStep(n, start, before, slow);
    assert Completes(n, last, Slow());
    if front == [] {
      assert before + front == before;
    } else {
      SlowRun(n, start, before, front);
      HalvedDownTo(Pow2(|front|), PaceOf(n, start, before).size);
    }
  }

  // ---- Losses ----

  // The i-th loss in a row had the calibrated size shrunk i times.
  ghost predicate LossAt(pace: Pace, i: int) {
    0 <= i < |pace.lost| ==> pace.lost[i] == Shrunk(pace.calibrated, i)
  }

  lemma {:induction false} LossesShrink(n: nat, start: nat, plays: seq<Play>)
    requires n > 0
    ensures
      var pace := PaceOf(n, start, plays);
      && pace.size == Shrunk(pace.calibrated, |pace.lost|)
      && (forall i {:trigger LossAt(pace, i)} :: LossAt(pace, i))
      && (if pace.gaveUp then 1 <= |pace.lost| <= MAX_RECOVERY_ATTEMPTS + 1 else |pace.lost| <= MAX_RECOVERY_ATTEMPTS)
  {
    if plays != [] {
      var before := PaceOf(n, start, plays[..|plays| - 1]);
      LossesShrink(n, start, plays[..|plays| - 1]);
      forall i ensures LossAt(PaceOf(n, start, plays), i) {
        assert LossAt(before, i);
      }
    }
  }

  // Some dispatch lost since the last completed one was of the smallest size.
  ghost predicate TriedMinimum(pace: Pace) {
    exists i {:trigger pace.lost[i]} :: 0 <= i < |pace.lost| && Size(pace.lost[i]) == MIN_DISPATCH_KEYS
  }

  lemma {:induction false} Pow8Grows(i: nat, j: nat)
    requires i <= j
    ensures Pow8(i) <= Pow8(j)
  {
    Pow8Pos(i);
    if i < j {
      Pow8Grows(i, j - 1);
    }
  }

  // A run that gives up after j losses in a row has tried a smallest dispatch exactly
  // when the size calibrated before them was below 65 * 8^(j - 1); the last one
  // lost was then of the smallest size.
  lemma GivesUpAtMinimumIff(n: nat, start: nat, plays: seq<Play>)
    requires n > 0 && PaceOf(n, start, plays).gaveUp
    ensures
      var pace := PaceOf(n, start, plays);
      && |pace.lost| >= 1 && pace.lost[|pace.lost| - 1] == Shrunk(pace.calibrated, |pace.lost| - 1)
      && (TriedMinimum(pace) <==> pace.calibrated < 65 * Pow8(|pace.lost| - 1))
      && (TriedMinimum(pace) <==> Size(pace.lost[|pace.lost| - 1]) == MIN_DISPATCH_KEYS)
  {
    var pace := PaceOf(n, start, plays);
    LossesShrink(n, start, plays);
    var last := |pace.lost| - 1;
    assert LossAt(pace, last);
    ShrunkToMinimumIff(pace.calibrated, last);
    forall i | 0 <= i < |pace.lost| && Size(pace.lost[i]) == MIN_DISPATCH_KEYS
      ensures pace.calibrated < 65 * Pow8(last)
    {
      assert LossAt(pace, i);
      ShrunkToMinimumIff(pace.calibrated, i);
      Pow8Grows(i, last);
    }
  }

  // A run gives up at the fifth loss in a row or when recovery fails.
  lemma {:induction false} WhyGivenUp(n: nat, start: nat, plays: seq<Play>)
    requires n > 0 && PaceOf(n, start, plays).gaveUp
    ensures |PaceOf(n, start, plays).lost| == MAX_RECOVERY_ATTEMPTS + 1
      || exists k :: 0 <= k < |plays| && !plays[k].turn.recovers
  {
    var front := plays[..|plays| - 1];
    LossesShrink(n, start, plays);
    if PaceOf(n, start, front).gaveUp {
      WhyGivenUp(n, start, front);
      if k :| 0 <= k < |front| && !front[k].turn.recovers {
        assert !plays[k].turn.recovers;
      }
    } else if plays[|plays| - 1].turn.recovers {
      LossesShrink(n, start, front);
    }
  }

  // One loss and a recovery that fails: the run gives up, having tried a smallest
  // dispatch only if it started with one.
  lemma FirstLoss(n: nat, start: nat, play: Play)
    requires n > 0 && play.drawn % n != 0 && !play.turn.outcome.Completed? && !play.turn.recovers
    ensures PaceOf(n, start, [play]) == Pace(Shrink(start), start, [start], 0, true)
    ensures TriedMinimum(PaceOf(n, start, [play])) <==> start <= MIN_DISPATCH_KEYS
  {
    PaceMore(n, start, [], play);
    assert [] + [play] == [play] && [] + [start] == [start];
    MinimalIff(start);
    assert PaceOf(n, start, [play]).lost[0] == start;
  }

  lemma FirstPlayed(n: nat, start: nat, lost: bool, turn: Turn, lo: int, hi: int, drawn: int)
    requires n > 0 && FirstKeyAt(turn.sample, start, lo, hi, drawn)
    ensures Played(n, start, lost, [turn], lo, hi, [Play(Actual(lost, turn), drawn, false)])
  {
    PlayedMore(n, start, lost, [turn], lo, hi, [], Play(Actual(lost, turn), drawn, false));
    assert [] + [Play(Actual(lost, turn), drawn, false)] == [Play(Actual(lost, turn), drawn, false)];
  }

  // So it does from the default size: it has tried 3072 keys only.
  lemma GivesUpUntried(n: nat, turn: Turn)
    requires n > 1 && turn == Turn(3071, LostAfterUpload, false, false)
    ensures
      var plays := [Play(turn, 1, false)];
      var pace := PaceOf(n, DEFAULT_DISPATCH_KEYS, plays);
      && Played(n, DEFAULT_DISPATCH_KEYS, false, [turn], 1, 5000, plays)
      && pace.gaveUp && pace.lost == [DEFAULT_DISPATCH_KEYS] && !TriedMinimum(pace)
  {
    DrawnOne();
    FirstPlayed(n, DEFAULT_DISPATCH_KEYS, false, turn, 1, 5000, 1);
    FirstLoss(n, DEFAULT_DISPATCH_KEYS, Play(turn, 1, false));
  }

  lemma DrawnOne()
    ensures FirstKeyAt(3071, DEFAULT_DISPATCH_KEYS, 1, 5000, 1)
  {
    FirstKeyGiven(1, DEFAULT_DISPATCH_KEYS, 1, 5000);
  }

  function Repeated(play: Play, k: nat): seq<Play> {
    if k == 0 then [] else Repeated(play, k - 1) + [play]
  }

  lemma {:induction false} LossesInRow(n: nat, size: nat, play: Play, k: nat)
    requires n > 0 && play.drawn % n != 0 && !play.turn.outcome.Completed? && play.turn.recovers
    requires k <= MAX_RECOVERY_ATTEMPTS + 1
    ensures
      var pace := PaceOf(n, size, Repeated(play, k));
      pace.calibrated == size && |pace.lost| == k && (pace.gaveUp <==> k == MAX_RECOVERY_ATTEMPTS + 1)
  {
    if k > 0 {
      LossesInRow(n, size, play, k - 1);
      PaceMore(n, size, Repeated(play, k - 1), play);
    }
  }

  // Five losses, every recovery a success: from any size of 266240 or more the run
  // gives up without having tried a smallest dispatch, and below it never does.
  lemma FiveLosses(n: nat, size: nat)
    requires n > 1
    ensures
      var pace := PaceOf(n, size, Repeated(Play(Turn(0, LostAfterUpload, true, false), 1, false), 5));
      pace.gaveUp && (TriedMinimum(pace) <==> size < 266240)
  {
    var play := Play(Turn(0, LostAfterUpload, true, false), 1, false);
    assert 1 % n == 1;
    LossesInRow(n, size, play, 5);
    GivesUpAtMinimumIff(n, size, Repeated(play, 5));
    assert Pow8(2) == 64 && Pow8(4) == 4096;
  }

  // ---- Every turn accounted for ----

  function Count(kind: Play -> bool, plays: seq<Play>): nat {
    if plays == [] then 0
    else Count(kind, plays[..|plays| - 1]) + if kind(plays[|plays| - 1]) then 1 else 0
  }

  function Skips(n: nat): Play -> bool
    requires n > 0
  {
    (play: Play) => play.drawn % n == 0
  }

  function Losses(n: nat): Play -> bool
    requires n > 0
  {
    (play: Play) => play.drawn % n != 0 && !play.turn.outcome.Completed?
  }

  // A turn is skipped, or its dispatch is lost or completed.
  lemma {:induction false} EveryTurnCounts(n: nat, start: nat, plays: seq<Play>)
    requires n > 0 && (plays != [] ==> !PaceOf(n, start, plays[..|plays| - 1]).gaveUp)
    ensures PaceOf(n, start, plays).completed + Count(Skips(n), plays) + Count(Losses(n), plays) == |plays|
  {
    if plays != [] {
      var front := plays[..|plays| - 1];
      EveryTurnCounts(n, start, front);
    }
  }

  lemma {:induction false} PaceBound(n: nat, start: nat, plays: seq<Play>)
    requires n > 0 && start <= MAX_KEYS_PER_DISPATCH
    ensures PaceOf(n, start, plays).size <= MAX_KEYS_PER_DISPATCH
  {
    if plays != [] {
      PaceBound(n, start, plays[..|plays| - 1]);
    }
  }

  // When no draw is infinite and no device is lost, every turn completes a dispatch.
  lemma SteadyRun(n: nat, start: nat, lost: bool, turns: seq<Turn>, lo: int, hi: int, plays: seq<Play>)
    requires n > 0 && Played(n, start, lost, turns, lo, hi, plays) && start <= MAX_KEYS_PER_DISPATCH
    requires !lost && NoInfinity(n, lo, hi) && forall t :: t in turns ==> t.outcome.Completed?
    ensures PaceOf(n, start, plays).completed == |plays|
  {
    SteadyPrefix(n, start, lost, turns, lo, hi, plays, |plays|);
    assert plays[..|plays|] == plays;
  }

  lemma {:induction false} SteadyPrefix(n: nat, start: nat, lost: bool, turns: seq<Turn>, lo: int, hi: int,
      plays: seq<Play>, k: nat)
    requires n > 0 && Played(n, start, lost, turns, lo, hi, plays) && start <= MAX_KEYS_PER_DISPATCH && k <= |plays|
    requires !lost && NoInfinity(n, lo, hi) && forall t :: t in turns ==> t.outcome.Completed?
    ensures PaceOf(n, start, plays[..k]).completed == k && !PaceOf(n, start, plays[..k]).gaveUp
  {
    if k > 0 {
      SteadyPrefix(n, start, lost, turns, lo, hi, plays, k - 1);
      assert PlayedAt(n, start, lost, turns, lo, hi, plays, k - 1);
      assert plays[..k][..k - 1] == plays[..k - 1] && turns[k - 1] in turns;
      PaceBound(n, start, plays[..k - 1]);
      FirstKeyDrawn(plays[k - 1].turn.sample, PaceOf(n, start, plays[..k - 1]).size, lo, hi);
      DrawnIsFinite(n, plays[k - 1].drawn, PaceOf(n, start, plays[..k - 1]).size, lo, hi);
    }
  }

  // A range that fits a dispatch and starts at a multiple of the order is never
  // searched: every draw is that start, and is skipped.
  lemma {:induction false} StuckSweep(n: nat, start: nat, lost: bool, turns: seq<Turn>, lo: int, hi: int,
      plays: seq<Play>)
    requires n > 0 && Played(n, start, lost, turns, lo, hi, plays)
    requires hi - lo + 1 <= start && lo != 0 && lo % n == 0
    ensures PaceOf(n, start, plays) == Pace(start, start, [], 0, false)
  {
    StuckPrefix(n, start, lost, turns, lo, hi, plays, |plays|);
    assert plays[..|plays|] == plays;
  }

  lemma {:induction false} StuckPrefix(n: nat, start: nat, lost: bool, turns: seq<Turn>, lo: int, hi: int,
      plays: seq<Play>, k: nat)
    requires n > 0 && Played(n, start, lost, turns, lo, hi, plays) && k <= |plays|
    requires hi - lo + 1 <= start && lo != 0 && lo % n == 0
    ensures PaceOf(n, start, plays[..k]) == Pace(start, start, [], 0, false)
  {
    if k > 0 {
      StuckPrefix(n, start, lost, turns, lo, hi, plays, k - 1);
      assert PlayedAt(n, start, lost, turns, lo, hi, plays, k - 1);
      assert plays[..k][..k - 1] == plays[..k - 1];
    }
  }
}
