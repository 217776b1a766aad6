/**
 * Whole runs of main, without its loop: the passes are numbered, each starts
 * from the labels of the one before, and a run ends with the first pass that
 * fails, or is spotless, or brings the seventh disturbance.
 */
module WholeRuns {
  import opened Common
  import opened Names
  import opened Words
  import opened Passes
  import opened SettledTable
  import opened PassLoop

  /** Short jumps out of range are reported once a late pass has changed no label and still had one. */
  predicate ReportsNext(p: Pass) {
    p.reportTooFar || (p.late && !p.changed && p.tooFar)
  }

  /** Pass 0, and late passes, as if the run never ended. */
  function PassAt(cfg: Config, prog: seq<Line>, k: nat): Pass {
    if k == 0 then DoLines(cfg, prog, Pass(false, map[], 0, [], false, false, false, false))
    else
      var p := PassAt(cfg, prog, k - 1);
      DoLines(cfg, prog, Pass(true, p.labels, 0, [], false, false, ReportsNext(p), false))
  }

  /** How the size changes from pass to pass. */
  function Changes(cfg: Config, prog: seq<Line>, n: nat): seq<int> {
    if n == 0 then []
    else Changes(cfg, prog, n - 1) + [PassAt(cfg, prog, n).size - PassAt(cfg, prog, n - 1).size]
  }

  /** Zero changes and changes of direction up to pass k, where growing is the first direction. */
  function DisturbancesAt(cfg: Config, prog: seq<Line>, k: nat): nat {
    Disturbances(1, Changes(cfg, prog, k))
  }

  /** A late pass without changed labels, reports and short jumps out of range. */
  predicate Final(cfg: Config, prog: seq<Line>, k: nat) {
    k > 0 && Spotless(PassAt(cfg, prog, k))
  }

  /** Another pass follows pass k. */
  predicate GoesOn(cfg: Config, prog: seq<Line>, k: nat) {
    !PassAt(cfg, prog, k).errors && !Final(cfg, prog, k) && DisturbancesAt(cfg, prog, k) < MAX_VIOLATIONS
  }

  /** Pass k takes place. */
  predicate Reached(cfg: Config, prog: seq<Line>, k: nat) {
    forall j :: 0 <= j < k ==> GoesOn(cfg, prog, j)
  }

  predicate SucceedsAt(cfg: Config, prog: seq<Line>, k: nat) {
    Reached(cfg, prog, k) && Final(cfg, prog, k)
  }

  predicate FailsAt(cfg: Config, prog: seq<Line>, k: nat) {
    && Reached(cfg, prog, k)
    && (PassAt(cfg, prog, k).errors
        || (!Final(cfg, prog, k) && DisturbancesAt(cfg, prog, k) >= MAX_VIOLATIONS))
  }

  /** The passes that take place stay below a size for which sums do not wrap. */
  ghost predicate Bounded(cfg: Config, prog: seq<Line>, n: nat, bound: nat) {
    bound < 0x1000_0000 && forall k :: 0 <= k <= n && Reached(cfg, prog, k) ==> PassAt(cfg, prog, k).size <= bound
  }

  // ----- one more change -----

  function LastDirection(dir: int, changes: seq<int>): int
    decreases |changes|
  {
    if changes == [] then dir
    else LastDirection(if changes[0] == 0 then dir else Sign(changes[0]), changes[1..])
  }

  lemma {:induction false} OneMoreChange(dir: int, changes: seq<int>, d: int)
    ensures Disturbances(dir, changes + [d]) ==
            Disturbances(dir, changes) + if d == 0 || Sign(d) != LastDirection(dir, changes) then 1 else 0
    ensures LastDirection(dir, changes + [d]) == if d == 0 then LastDirection(dir, changes) else Sign(d)
    decreases |changes|
  {
    if changes == [] {
      assert [] + [d] == [d] && [d][1..] == [];
      assert Disturbances(Sign(d), []) == 0;
    } else {
      assert (changes + [d])[1..] == changes[1..] + [d];
      OneMoreChange(if changes[0] == 0 then dir else Sign(changes[0]), changes[1..], d);
    }
  }

  /** The heuristic counts a disturbance for this change or none. */
  lemma CountsOne(l: Loop, size: nat, bound: nat)
    requires Counting(l, bound) && size <= bound < 0x1000_0000
    ensures var l', d := CountDelta(l, size - l.size), size - l.size;
            && l'.violations == l.violations + (if d == 0 || Sign(d) != l.curDir then 1 else 0)
            && l'.curDir == if d == 0 then l.curDir else Sign(d)
  {
    hide SignedWrap, Cap;
  }

  // ----- the loop takes these passes -----

  /** What the loop remembers after pass k. */
  ghost predicate Remembers(cfg: Config, prog: seq<Line>, k: nat, l: Loop) {
    var p := PassAt(cfg, prog, k);
    && l.labels == p.labels && l.size == p.size && l.reportTooFar == ReportsNext(p)
    && l.violations == DisturbancesAt(cfg, prog, k) && l.curDir == LastDirection(1, Changes(cfg, prog, k))
  }

  /** The next pass, and what becomes of the loop after it. */
  ghost predicate DecidedBy(cfg: Config, prog: seq<Line>, k: nat, bound: nat, s: State) {
    var p := PassAt(cfg, prog, k);
    if p.errors then s == Failure
    else if Final(cfg, prog, k) then s == Success(p.labels, p.output)
    else if DisturbancesAt(cfg, prog, k) >= MAX_VIOLATIONS then s == Failure
    else s.Running? && Remembers(cfg, prog, k, s.loop) && Counting(s.loop, bound)
  }

  lemma PassReports(cfg: Config, prog: seq<Line>, k: nat)
    requires k > 0
    ensures var p := PassAt(cfg, prog, k);
            && p.late && p.reportTooFar == ReportsNext(PassAt(cfg, prog, k - 1))
            && (p.reportTooFar && p.tooFar ==> p.errors)
  {
    var q := PassAt(cfg, prog, k - 1);
    var st := Pass(true, q.labels, 0, [], false, false, ReportsNext(q), false);
    hide DoLines;
    LinesGrow(cfg, prog, 0, st);
    NoLines(cfg, st);
    assert prog[..0] == [];
  }

  lemma FirstFollows(cfg: Config, prog: seq<Line>, bound: nat)
    requires PassAt(cfg, prog, 0).size <= bound
    ensures DecidedBy(cfg, prog, 0, bound, After(cfg, prog, 0))
  {
    hide DoLines;
    var st := Pass(false, map[], 0, [], false, false, false, false);
    LinesGrow(cfg, prog, 0, st);
    NoLines(cfg, st);
    assert prog[..0] == [];
  }

  /** The loop decides by the next pass. */
  lemma RoundDecides(start: Word, l: Loop, p: Pass, bound: nat)
    requires Counting(l, bound) && p.size <= bound < 0x1000_0000
    requires p.late && p.reportTooFar == l.reportTooFar && (p.reportTooFar && p.tooFar ==> p.errors)
    ensures var v, d := Round(start, l, OutcomeOf(p)), p.size - l.size;
            var violations := l.violations + if d == 0 || Sign(d) != l.curDir then 1 else 0;
            if p.errors then v == Abort
            else if Spotless(p) then v == Done
            else if violations >= MAX_VIOLATIONS then v == Abort
            else
              && v.GoOn? && Counting(v.loop, bound) && v.loop.size == p.size && v.loop.violations == violations
              && v.loop.reportTooFar == ReportsNext(p) && v.loop.curDir == if d == 0 then l.curDir else Sign(d)
  {
    hide CountDelta, Counting, SignedWrap, Rank;
    CountingBounds(l, bound);
    AddressChange(start, l.size, p.size);
    CountsOne(l, p.size, bound);
    CountDeltaStep(l, p.size, bound);
    var l' := CountDelta(l, p.size - l.size).(size := p.size);
    if l'.violations < MAX_VIOLATIONS { RelabelKeeps(l', l'.labels, ReportsNext(p), bound); }
  }

  lemma NextFollows(cfg: Config, prog: seq<Line>, k: nat, bound: nat, l: Loop)
    requires k > 0 && Remembers(cfg, prog, k - 1, l) && Counting(l, bound)
    requires PassAt(cfg, prog, k).size <= bound < 0x1000_0000
    ensures DecidedBy(cfg, prog, k, bound, Next(cfg, prog, l))
  {
    hide DoLines, Counting, Disturbances, LastDirection, Round, Spotless, ReportsNext;
    var p := PassAt(cfg, prog, k);
    assert LatePass(cfg, prog, l) == p;
    PassReports(cfg, prog, k);
    RoundDecides(cfg.start, l, p, bound);
    OneMoreChange(1, Changes(cfg, prog, k - 1), p.size - l.size);
    var v := Round(cfg.start, l, OutcomeOf(p));
    if v.GoOn? { RelabelKeeps(v.loop, p.labels, v.loop.reportTooFar, bound); }
  }

  /** If pass n is reached, it decides what happens next. */
  lemma {:induction false} RunFollows(cfg: Config, prog: seq<Line>, n: nat, bound: nat)
    requires Bounded(cfg, prog, n, bound) && Reached(cfg, prog, n)
    ensures DecidedBy(cfg, prog, n, bound, After(cfg, prog, n))
  {
    hide PassAt, Remembers, Next, Begin;
    if n == 0 {
      FirstFollows(cfg, prog, bound);
    } else {
      RunFollows(cfg, prog, n - 1, bound);
      assert GoesOn(cfg, prog, n - 1);
      NextFollows(cfg, prog, n, bound, After(cfg, prog, n - 1).loop);
    }
  }

  lemma {:induction false} Stays(cfg: Config, prog: seq<Line>, k: nat, n: nat)
    requires k <= n && !After(cfg, prog, k).Running?
    ensures After(cfg, prog, n) == After(cfg, prog, k)
  {
    if k < n { Stays(cfg, prog, k, n - 1); }
  }

  /** The first pass that does not go on. */
  lemma {:induction false} StopsAt(cfg: Config, prog: seq<Line>, n: nat) returns (k: nat)
    requires !Reached(cfg, prog, n + 1)
    ensures k <= n && Reached(cfg, prog, k) && !GoesOn(cfg, prog, k)
  {
    hide GoesOn;
    if n > 0 && !Reached(cfg, prog, n) {
      k := StopsAt(cfg, prog, n - 1);
    } else {
      k := n;
      var j :| 0 <= j < n + 1 && !GoesOn(cfg, prog, j);
    }
  }

  /** A pass that takes place goes on, succeeds or fails. */
  lemma ThreeWays(cfg: Config, prog: seq<Line>, k: nat)
    requires Reached(cfg, prog, k)
    ensures GoesOn(cfg, prog, k) <==> !SucceedsAt(cfg, prog, k) && !FailsAt(cfg, prog, k)
    ensures !(SucceedsAt(cfg, prog, k) && FailsAt(cfg, prog, k))
  {
    hide PassAt, DisturbancesAt;
  }

  /**
   * Whole runs, exactly. The loop is still running after pass n if every pass
   * so far went on: it had no error, was not spotless, and there were fewer
   * than seven disturbances. It has succeeded, with the table and the output of
   * that pass, if the first one that did not go on was spotless; it has failed
   * if that one had an error or brought the seventh disturbance. Short jumps
   * out of range end nothing before they are reported.
   */
  lemma RunExactly(cfg: Config, prog: seq<Line>, n: nat, bound: nat)
    requires Bounded(cfg, prog, n, bound)
    ensures var s := After(cfg, prog, n);
            && (s.Running? <==> Reached(cfg, prog, n + 1))
            && (s.Failure? <==> exists k :: 0 <= k <= n && FailsAt(cfg, prog, k))
            && (s.Success? <==> exists k :: 0 <= k <= n && SucceedsAt(cfg, prog, k))
            && forall k :: 0 <= k <= n && SucceedsAt(cfg, prog, k) ==>
                 s == Success(PassAt(cfg, prog, k).labels, PassAt(cfg, prog, k).output)
  {
    hide PassAt, Remembers, After, Counting, DisturbancesAt, GoesOn;
    forall k | 0 <= k <= n && Reached(cfg, prog, k)
      ensures GoesOn(cfg, prog, k) <==> !SucceedsAt(cfg, prog, k) && !FailsAt(cfg, prog, k)
    {
      ThreeWays(cfg, prog, k);
    }
    if Reached(cfg, prog, n + 1) {
      assert forall k :: 0 <= k <= n ==> GoesOn(cfg, prog, k) && Reached(cfg, prog, k);
      RunFollows(cfg, prog, n, bound);
    } else {
      var k := StopsAt(cfg, prog, n);
      RunFollows(cfg, prog, k, bound);
      Stays(cfg, prog, k, n);
      ThreeWays(cfg, prog, k);
      assert forall j :: 0 <= j <= n && Reached(cfg, prog, j) && !GoesOn(cfg, prog, j) ==> j == k;
    }
  }

  /** A pass without errors that moved a label is followed by another, up to the seventh disturbance. */
  lemma MovedGoesOn(cfg: Config, prog: seq<Line>, n: nat, bound: nat)
    requires Bounded(cfg, prog, n, bound) && Reached(cfg, prog, n)
    requires !PassAt(cfg, prog, n).errors && PassAt(cfg, prog, n).changed
    ensures After(cfg, prog, n).Running? <==> DisturbancesAt(cfg, prog, n) < MAX_VIOLATIONS
  {
    hide PassAt;
    RunFollows(cfg, prog, n, bound);
  }

  /** A run succeeds with the first pass that starts from a fixed point, if it gets that far. */
  lemma SucceedsAtFixedPoint(cfg: Config, prog: seq<Line>, k: nat)
    requires k > 0
    ensures SucceedsAt(cfg, prog, k) <==>
            Reached(cfg, prog, k) && FixedPoint(cfg, prog, PassAt(cfg, prog, k - 1).labels)
    ensures SucceedsAt(cfg, prog, k) ==> PassAt(cfg, prog, k).labels == PassAt(cfg, prog, k - 1).labels
  {
    var p := PassAt(cfg, prog, k - 1);
    SpotlessExactly(cfg, prog, Pass(true, p.labels, 0, [], false, false, ReportsNext(p), false));
  }

  /** Without TIMES and ALIGN there is always a bound. */
  lemma {:induction false} PlainPassSize(cfg: Config, prog: seq<Line>, k: nat)
    requires forall line :: line in prog ==> Plain(line)
    ensures PassAt(cfg, prog, k).size <= 5 * |prog|
  {
    if k == 0 {
      PlainSize(cfg, prog, Pass(false, map[], 0, [], false, false, false, false));
    } else {
      var p := PassAt(cfg, prog, k - 1);
      PlainSize(cfg, prog, Pass(true, p.labels, 0, [], false, false, ReportsNext(p), false));
    }
  }

  lemma PlainBounded(cfg: Config, prog: seq<Line>, n: nat)
    requires (forall line :: line in prog ==> Plain(line)) && 5 * |prog| < 0x1000_0000
    ensures Bounded(cfg, prog, n, 5 * |prog|)
  {
    forall k: nat ensures PassAt(cfg, prog, k).size <= 5 * |prog| { PlainPassSize(cfg, prog, k); }
  }
}
