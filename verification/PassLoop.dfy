/**
 * The loop of main: passes until no label moves, with a second look at short
 * jumps out of range and a limit on how often the size may change direction.
 */
module PassLoop {
  import opened Common
  import opened Names
  import opened Words
  import opened JumpCode
  import opened Passes

  const MAX_VIOLATIONS := 7

  // The variables of the loop between two passes. size is current_address
  // relative to the start.
  datatype Loop = Loop(
    labels: map<Name, Word>,
    size: nat,
    reportTooFar: bool,
    curDir: int,
    deltaAcc: int,
    deltaAccMax: int,
    violations: nat)

  datatype State =
    | Running(loop: Loop)
    | Success(labels: map<Name, Word>, output: seq<Byte>)
    | Failure

  /** Arithmetic in value_t. */
  function SignedWrap(x: int): int {
    Signed(Wrap(x))
  }

  /** Pass 0: sizes and labels only. */
  function FirstPass(cfg: Config, prog: seq<Line>): Pass {
    DoLines(cfg, prog, Pass(false, map[], 0, [], false, false, false, false))
  }

  function Begin(cfg: Config, prog: seq<Line>): State {
    var st := FirstPass(cfg, prog);
    if st.errors then Failure else Running(Loop(st.labels, st.size, false, 1, 0, 0, 0))
  }

  function LateStart(l: Loop): Pass {
    Pass(true, l.labels, 0, [], false, false, l.reportTooFar, false)
  }

  function LatePass(cfg: Config, prog: seq<Line>, l: Loop): Pass {
    DoLines(cfg, prog, LateStart(l))
  }

  /** The delta violation heuristic, for the change in address since the last pass. */
  function CountDelta(l: Loop, difference: int): Loop {
    var delta := if difference < 0 then SignedWrap(0 - difference) else difference;
    var dir := if difference < 0 then -1 else if difference > 0 then 1 else 0;
    if dir == 0 then l.(violations := l.violations + 1)
    else if dir == l.curDir then l.(deltaAcc := SignedWrap(l.deltaAcc + delta))
    else if l.deltaAcc >= l.deltaAccMax then
      l.(curDir := dir, deltaAccMax := l.deltaAcc, violations := l.violations + 1)
    else l.(curDir := dir)
  }

  // What one pass tells the loop, whatever it assembled.
  datatype Outcome = Outcome(size: nat, changed: bool, tooFar: bool, errors: bool)

  datatype Verdict = GoOn(loop: Loop) | Done | Abort

  /** The decision of the loop after one late pass. */
  function Round(start: Word, l: Loop, o: Outcome): Verdict {
    // Nothing changed, but a short jump was out of range: once more, reporting it.
    var lookAgain := !o.changed && o.tooFar && !l.reportTooFar;
    if !o.changed && !lookAgain then
      if o.errors then Abort else Done
    else
      var l' := CountDelta(l, SignedWrap(Wrap(start + o.size) - Wrap(start + l.size)));
      if o.errors || l'.violations == MAX_VIOLATIONS then Abort
      else GoOn(l'.(size := o.size, reportTooFar := l.reportTooFar || lookAgain))
  }

  function OutcomeOf(st: Pass): Outcome {
    Outcome(st.size, st.changed, st.tooFar, st.errors)
  }

  /** One round of the loop: a late pass and the decision. */
  function Next(cfg: Config, prog: seq<Line>, l: Loop): State {
    var st := LatePass(cfg, prog, l);
    match Round(cfg.start, l, OutcomeOf(st))
    case GoOn(l') => Running(l'.(labels := st.labels))
    case Done => Success(st.labels, st.output)
    case Abort => Failure
  }

  /** The state after pass 0 and n rounds. */
  function After(cfg: Config, prog: seq<Line>, n: nat): State {
    if n == 0 then Begin(cfg, prog)
    else
      var s := After(cfg, prog, n - 1);
      if s.Running? then Next(cfg, prog, s.loop) else s
  }

  // ----- safety: what a successful run has written -----

  /** Line k owns the bytes from cuts[k] to cuts[k + 1], and they agree with the table. */
  ghost predicate InPlace(cfg: Config, prog: seq<Line>, labels: map<Name, Word>, output: seq<Byte>,
                          cuts: seq<nat>, k: nat)
    requires |cuts| == |prog| + 1 && k < |prog|
  {
    && cuts[k] <= cuts[k + 1] <= |output|
    && LineAgrees(cfg, prog[k], labels, Wrap(cfg.start + cuts[k]), output[cuts[k]..cuts[k + 1]], true)
  }

  ghost predicate Layout(cfg: Config, prog: seq<Line>, labels: map<Name, Word>, output: seq<Byte>, cuts: seq<nat>) {
    && |cuts| == |prog| + 1 && cuts[0] == 0 && cuts[|prog|] == |output|
    && forall k :: 0 <= k < |prog| ==> InPlace(cfg, prog, labels, output, cuts, k)
  }

  /**
   * The output is the program assembled against the label table: it falls into
   * one piece per line, labels are where they were placed, and every jump, with
   * no exception for short ones, goes to its target.
   */
  ghost predicate Assembled(cfg: Config, prog: seq<Line>, labels: map<Name, Word>, output: seq<Byte>) {
    && (exists cuts :: Layout(cfg, prog, labels, output, cuts))
    && forall name :: name in labels <==> exists line :: line in prog && Defines(line, name)
  }

  ghost function Cuts(cfg: Config, prog: seq<Line>, st: Pass, n: nat): (cuts: seq<nat>)
    requires n <= |prog|
    ensures |cuts| == n + 1
    ensures forall k :: 0 <= k <= n ==> cuts[k] == DoLines(cfg, prog[..k], st).size
  {
    if n == 0 then [DoLines(cfg, prog[..0], st).size]
    else Cuts(cfg, prog, st, n - 1) + [DoLines(cfg, prog[..n], st).size]
  }

  lemma CleanPassLine(cfg: Config, prog: seq<Line>, st: Pass, k: nat)
    requires st.late && st.output == [] && st.size == 0 && k < |prog|
    requires var end := DoLines(cfg, prog, st); Clean(end) && !end.tooFar
    ensures var end := DoLines(cfg, prog, st);
            InPlace(cfg, prog, end.labels, end.output, Cuts(cfg, prog, st, |prog|), k)
  {
    hide DoLines, DoLine, LineAgrees, Cuts;
    CleanPassAgrees(cfg, prog, k, st);
    LinesGrow(cfg, prog, k + 1, st);
    LinesGrow(cfg, prog, 0, st);
    LinesGrow(cfg, prog[..k + 1], k, st);
    NoLines(cfg, st);
    assert prog[..k + 1][..k] == prog[..k] && prog[..0] == [];
  }

  lemma CleanPassLayout(cfg: Config, prog: seq<Line>, st: Pass)
    requires st.late && st.output == [] && st.size == 0
    requires var end := DoLines(cfg, prog, st); Clean(end) && !end.tooFar
    ensures var end := DoLines(cfg, prog, st);
            Layout(cfg, prog, end.labels, end.output, Cuts(cfg, prog, st, |prog|))
  {
    hide DoLines, DoLine, InPlace, Cuts;
    assert prog[..0] == [] && prog[..|prog|] == prog;
    NoLines(cfg, st);
    LinesGrow(cfg, prog, 0, st);
    var end := DoLines(cfg, prog, st);
    forall k | 0 <= k < |prog|
      ensures InPlace(cfg, prog, end.labels, end.output, Cuts(cfg, prog, st, |prog|), k)
    {
      CleanPassLine(cfg, prog, st, k);
    }
  }

  lemma {:induction false} KeysStay(cfg: Config, lines: seq<Line>, st: Pass)
    requires st.late
    ensures DoLines(cfg, lines, st).labels.Keys == st.labels.Keys
  {
    if lines != [] {
      var mid := DoLines(cfg, lines[..|lines| - 1], st);
      LinesGrow(cfg, lines[..|lines| - 1], 0, st);
      assert lines[..|lines| - 1][..0] == [];
      NoLines(cfg, st);
      KeysStay(cfg, lines[..|lines| - 1], st);
      LineKeepsKeys(cfg, lines[|lines| - 1], mid);
    }
  }

  /** The label table keeps the program's labels, pass after pass. */
  lemma {:induction false} LabelsStay(cfg: Config, prog: seq<Line>, n: nat, name: Name)
    ensures var s := After(cfg, prog, n);
            && (s.Running? ==> (name in s.loop.labels <==> exists line :: line in prog && Defines(line, name)))
            && (s.Success? ==> (name in s.labels <==> exists line :: line in prog && Defines(line, name)))
  {
    hide DoLines;
    if n == 0 {
      if !FirstPass(cfg, prog).errors {
        FirstPassDefines(cfg, prog, Pass(false, map[], 0, [], false, false, false, false), name);
      }
    } else {
      LabelsStay(cfg, prog, n - 1, name);
      var s := After(cfg, prog, n - 1);
      if s.Running? { KeysStay(cfg, prog, LateStart(s.loop)); }
    }
  }

  /** A round that ends the run with success has just run a clean pass without short jumps out of range. */
  lemma SuccessWasClean(cfg: Config, prog: seq<Line>, l: Loop)
    requires Next(cfg, prog, l).Success?
    ensures var st := LatePass(cfg, prog, l);
            Clean(st) && !st.tooFar && Next(cfg, prog, l) == Success(st.labels, st.output)
  {
    LinesGrow(cfg, prog, 0, LateStart(l));
    NoLines(cfg, LateStart(l));
    assert prog[..0] == [];
  }

  /**
   * Whole runs of main: whenever they end with success, after any number of
   * passes, the file written last is the assembled program, although short
   * jumps out of range are let through silently in earlier passes.
   */
  lemma {:induction false} SuccessIsAssembled(cfg: Config, prog: seq<Line>, n: nat)
    requires After(cfg, prog, n).Success?
    ensures Assembled(cfg, prog, After(cfg, prog, n).labels, After(cfg, prog, n).output)
  {
    var s := After(cfg, prog, n - 1);
    if s.Running? {
      SuccessWasClean(cfg, prog, s.loop);
      CleanPassLayout(cfg, prog, LateStart(s.loop));
      forall name ensures name in After(cfg, prog, n).labels <==> exists line :: line in prog && Defines(line, name) {
        LabelsStay(cfg, prog, n, name);
      }
    } else {
      SuccessIsAssembled(cfg, prog, n - 1);
    }
  }

  // ----- termination -----

  /** How much further the size can go in the current direction. */
  function Room(l: Loop, bound: nat): int {
    if l.curDir == 1 then bound - l.size else l.size
  }

  function Weight(violations: nat, bound: nat): int {
    (MAX_VIOLATIONS - violations) * (bound + 1)
  }

  function Cap(violations: nat, bound: nat): int {
    (violations + 1) * bound
  }

  /** Violations left first, room left second. */
  function Rank(l: Loop, bound: nat): int {
    Weight(l.violations, bound) + Room(l, bound)
  }

  /**
   * Since delta_acc is never reset it never falls below delta_acc_max, and it
   * cannot wrap within the limit on violations.
   */
  ghost predicate Counting(l: Loop, bound: nat) {
    && l.violations < MAX_VIOLATIONS && (l.curDir == 1 || l.curDir == -1) && l.size <= bound
    && 0 <= l.deltaAccMax <= l.deltaAcc
    && l.deltaAcc + Room(l, bound) <= Cap(l.violations, bound)
  }

  lemma SmallIsSigned(x: int)
    requires -0x8000_0000 <= x < 0x8000_0000
    ensures SignedWrap(x) == x
  {
  }

  /** The change in address is the change in size. */
  lemma AddressChange(start: Word, a: nat, b: nat)
    requires a < 0x8000_0000 && b < 0x8000_0000
    ensures SignedWrap(Wrap(start + b) - Wrap(start + a)) == b - a
  {
    WrapSum(start + b, start + a);
    WrapSum(Wrap(start + b), 0 - Wrap(start + a));
    WrapSum(start + b, 0 - Wrap(start + a));
    assert Wrap(Wrap(start + b) - Wrap(start + a)) == Wrap(b - a);
    SmallIsSigned(b - a);
  }

  lemma RankSteps(v: nat, bound: nat)
    requires v < MAX_VIOLATIONS
    ensures Weight(v + 1, bound) == Weight(v, bound) - (bound + 1)
    ensures Cap(v + 1, bound) == Cap(v, bound) + bound
    ensures Cap(v, bound) <= MAX_VIOLATIONS * bound
  {
    assert (MAX_VIOLATIONS - v - 1) * bound >= 0;
  }

  /** Every change of direction and every standstill is a violation; otherwise room is used up. */
  lemma CountDeltaStep(l: Loop, size: nat, bound: nat)
    requires Counting(l, bound) && size <= bound && bound < 0x1000_0000
    ensures var l' := CountDelta(l, size - l.size).(size := size);
            && Rank(l', bound) < Rank(l, bound)
            && (l'.violations < MAX_VIOLATIONS ==> Counting(l', bound))
            && l.violations <= l'.violations <= MAX_VIOLATIONS
            && (l'.curDir != l.curDir ==> l'.violations == l.violations + 1)
  {
    RankSteps(l.violations, bound);
    hide Weight, Cap, SignedWrap;
    var d := size - l.size;
    SmallIsSigned(0 - d);
    if d > 0 && l.curDir == 1 { SmallIsSigned(l.deltaAcc + d); }
    if d < 0 && l.curDir == -1 { SmallIsSigned(l.deltaAcc - d); }
  }

  lemma CountingBounds(l: Loop, bound: nat)
    requires Counting(l, bound)
    ensures l.size <= bound && l.violations < MAX_VIOLATIONS
  {
  }

  lemma RelabelKeeps(l: Loop, labels: map<Name, Word>, report: bool, bound: nat)
    requires Counting(l, bound)
    ensures var l' := l.(labels := labels, reportTooFar := report);
            Counting(l', bound) && Rank(l', bound) == Rank(l, bound)
  {
  }

  lemma RoundStep(start: Word, l: Loop, o: Outcome, bound: nat)
    requires Counting(l, bound) && o.size <= bound < 0x1000_0000 && Round(start, l, o).GoOn?
    ensures var l' := Round(start, l, o).loop;
            Counting(l', bound) && Rank(l', bound) < Rank(l, bound)
  {
    hide CountDelta, Counting, Rank, SignedWrap;
    CountingBounds(l, bound);
    AddressChange(start, l.size, o.size);
    CountDeltaStep(l, o.size, bound);
    var l' := CountDelta(l, o.size - l.size).(size := o.size);
    RelabelKeeps(l', l'.labels, Round(start, l, o).loop.reportTooFar, bound);
  }

  /** The loop after n passes that turned out as given. */
  function AfterOutcomes(start: Word, l: Loop, outcomes: nat -> Outcome, n: nat): Verdict {
    if n == 0 then GoOn(l)
    else
      var v := AfterOutcomes(start, l, outcomes, n - 1);
      if v.GoOn? then Round(start, v.loop, outcomes(n - 1)) else v
  }

  /** The variables of the loop before its first round. */
  predicate Initial(l: Loop, bound: nat) {
    l.curDir == 1 && l.deltaAcc == l.deltaAccMax == l.violations == 0 && l.size <= bound
  }

  lemma {:induction false} OutcomesRank(start: Word, l: Loop, outcomes: nat -> Outcome, bound: nat, n: nat)
    requires Initial(l, bound) && bound < 0x1000_0000 && forall k :: outcomes(k).size <= bound
    ensures var v := AfterOutcomes(start, l, outcomes, n);
            v.GoOn? ==> Counting(v.loop, bound) && Rank(v.loop, bound) <= 8 * bound + 7 - n
  {
    if n > 0 {
      hide Round;
      OutcomesRank(start, l, outcomes, bound, n - 1);
      var v := AfterOutcomes(start, l, outcomes, n - 1);
      if v.GoOn? && AfterOutcomes(start, l, outcomes, n).GoOn? {
        RoundStep(start, v.loop, outcomes(n - 1), bound);
      }
    }
  }

  /**
   * The loop of main ends for every sequence of pass outcomes, whatever the
   * passes do to labels and jumps, provided their sizes stay below a bound
   * small enough that the sums do not wrap.
   */
  lemma OutcomesEnd(start: Word, l: Loop, outcomes: nat -> Outcome, bound: nat)
    requires Initial(l, bound) && bound < 0x1000_0000 && forall k :: outcomes(k).size <= bound
    ensures !AfterOutcomes(start, l, outcomes, 8 * bound + 8).GoOn?
  {
    OutcomesRank(start, l, outcomes, bound, 8 * bound + 8);
    var v := AfterOutcomes(start, l, outcomes, 8 * bound + 8);
    if v.GoOn? { RankPositive(v.loop, bound); }
  }

  /** The outcomes of a program's passes, as long as the loop goes on after them. */
  function OutcomeAfter(cfg: Config, prog: seq<Line>, n: nat): Outcome {
    var s := After(cfg, prog, n);
    if s.Running? && Next(cfg, prog, s.loop).Running? then OutcomeOf(LatePass(cfg, prog, s.loop))
    else Outcome(0, false, false, true)
  }

  ghost predicate SameButLabels(a: Loop, b: Loop) {
    a.(labels := b.labels) == b
  }

  lemma {:induction false} RunIsOutcomes(cfg: Config, prog: seq<Line>, outcomes: nat -> Outcome, n: nat)
    requires After(cfg, prog, n).Running? && forall k :: outcomes(k) == OutcomeAfter(cfg, prog, k)
    ensures After(cfg, prog, 0).Running?
    ensures var v := AfterOutcomes(cfg.start, After(cfg, prog, 0).loop, outcomes, n);
            v.GoOn? && SameButLabels(v.loop, After(cfg, prog, n).loop)
  {
    hide LatePass, Begin, Round;
    if n > 0 {
      RunIsOutcomes(cfg, prog, outcomes, n - 1);
      var l := After(cfg, prog, n - 1).loop;
      assert After(cfg, prog, n) == Next(cfg, prog, l);
      var v := AfterOutcomes(cfg.start, After(cfg, prog, 0).loop, outcomes, n - 1);
      RoundIgnoresLabels(cfg.start, v.loop, l, outcomes(n - 1));
    }
  }

  lemma RoundIgnoresLabels(start: Word, a: Loop, b: Loop, o: Outcome)
    requires SameButLabels(a, b)
    ensures Round(start, a, o).GoOn? <==> Round(start, b, o).GoOn?
    ensures Round(start, a, o).GoOn? ==> SameButLabels(Round(start, a, o).loop, Round(start, b, o).loop)
  {
    hide CountDelta, SignedWrap;
    CountIgnoresLabels(a, b, SignedWrap(Wrap(start + o.size) - Wrap(start + a.size)));
  }

  lemma CountIgnoresLabels(a: Loop, b: Loop, difference: int)
    requires SameButLabels(a, b)
    ensures SameButLabels(CountDelta(a, difference), CountDelta(b, difference))
  {
    hide SignedWrap;
  }

  /** No pass of the run produces more than `bound` bytes. */
  ghost predicate SizesWithin(cfg: Config, prog: seq<Line>, bound: nat) {
    forall n: nat :: After(cfg, prog, n).Running? ==> After(cfg, prog, n).loop.size <= bound
  }

  lemma OutcomeWithin(cfg: Config, prog: seq<Line>, bound: nat, n: nat)
    requires SizesWithin(cfg, prog, bound)
    ensures OutcomeAfter(cfg, prog, n).size <= bound
  {
    var s := After(cfg, prog, n);
    if s.Running? {
      assert After(cfg, prog, n + 1) == Next(cfg, prog, s.loop);
    }
  }

  lemma StartsInitial(cfg: Config, prog: seq<Line>, bound: nat)
    requires After(cfg, prog, 0).Running? && After(cfg, prog, 0).loop.size <= bound
    ensures Initial(After(cfg, prog, 0).loop, bound)
  {
  }

  /** The same for the passes over a program. */
  lemma PassesEnd(cfg: Config, prog: seq<Line>, bound: nat)
    requires SizesWithin(cfg, prog, bound) && bound < 0x1000_0000
    ensures !After(cfg, prog, 8 * bound + 8).Running?
  {
    hide After, OutcomeAfter;
    var n, outcomes := 8 * bound + 8, (k: nat) => OutcomeAfter(cfg, prog, k);
    if After(cfg, prog, n).Running? {
      RunIsOutcomes(cfg, prog, outcomes, n);
      forall k: nat ensures outcomes(k).size <= bound {
        OutcomeWithin(cfg, prog, bound, k);
      }
      assert After(cfg, prog, 0).loop.size <= bound;
      StartsInitial(cfg, prog, bound);
      OutcomesEnd(cfg.start, After(cfg, prog, 0).loop, outcomes, bound);
    }
  }

  lemma NextStep(cfg: Config, prog: seq<Line>, l: Loop, bound: nat)
    requires Counting(l, bound) && bound < 0x1000_0000
    requires Next(cfg, prog, l).Running? && Next(cfg, prog, l).loop.size <= bound
    ensures var l' := Next(cfg, prog, l).loop;
            Counting(l', bound) && Rank(l', bound) < Rank(l, bound)
  {
    var st := LatePass(cfg, prog, l);
    hide LatePass, CountDelta, Counting, Rank;
    RoundStep(cfg.start, l, OutcomeOf(st), bound);
    var l' := Round(cfg.start, l, OutcomeOf(st)).loop;
    RelabelKeeps(l', st.labels, l'.reportTooFar, bound);
  }

  lemma RankPositive(l: Loop, bound: nat)
    requires Counting(l, bound)
    ensures Rank(l, bound) >= 0
  {
    MulGrows(MAX_VIOLATIONS - l.violations, bound + 1);
  }

  // ----- programs whose size is bounded beforehand -----

  /** Lines with at most one instruction. */
  predicate Plain(line: Line) {
    !line.Times? && !line.Align?
  }

  lemma PlainLineSize(cfg: Config, line: Line, st: Pass)
    requires Plain(line)
    ensures DoLine(cfg, line, st).size <= st.size + 5
  {
    hide Evaluate, Encode;
    if line.Code? {
      var o := Evaluate(cfg, line.instr.operand, st.labels, st.Address(cfg), st.late);
      CodeIsShort(line.instr, o, st.Address(cfg), st.late);
    }
  }

  lemma CodeIsShort(i: Instr, o: Operand, address: Word, late: bool)
    ensures |Encode(i, o, address, late).code| <= 5
  {
  }

  lemma {:induction false} PlainSize(cfg: Config, lines: seq<Line>, st: Pass)
    requires forall line :: line in lines ==> Plain(line)
    ensures DoLines(cfg, lines, st).size <= st.size + 5 * |lines|
  {
    if lines != [] {
      PlainSize(cfg, lines[..|lines| - 1], st);
      PlainLineSize(cfg, lines[|lines| - 1], DoLines(cfg, lines[..|lines| - 1], st));
    }
  }

  lemma PlainWithin(cfg: Config, prog: seq<Line>)
    requires forall line :: line in prog ==> Plain(line)
    ensures SizesWithin(cfg, prog, 5 * |prog|)
  {
    forall n: nat | After(cfg, prog, n).Running? ensures After(cfg, prog, n).loop.size <= 5 * |prog| {
      if n == 0 {
        PlainSize(cfg, prog, Pass(false, map[], 0, [], false, false, false, false));
      } else {
        PlainSize(cfg, prog, LateStart(After(cfg, prog, n - 1).loop));
      }
    }
  }

  /** Without TIMES and ALIGN, the passes end for every program of up to 2^28 / 5 lines. */
  lemma PlainProgramsEnd(cfg: Config, prog: seq<Line>)
    requires (forall line :: line in prog ==> Plain(line)) && 5 * |prog| < 0x1000_0000
    ensures !After(cfg, prog, 40 * |prog| + 8).Running?
  {
    PlainWithin(cfg, prog);
    PassesEnd(cfg, prog, 5 * |prog|);
  }

  // ----- the heuristic against its documentation -----

  function Sign(d: int): int {
    if d < 0 then -1 else if d > 0 then 1 else 0
  }

  function Magnitude(d: int): nat {
    if d < 0 then 0 - d else d
  }

  function Total(deltas: seq<int>): nat {
    if deltas == [] then 0 else Magnitude(deltas[0]) + Total(deltas[1..])
  }

  /** The heuristic applied to the deltas of several passes. */
  function CountAll(l: Loop, deltas: seq<int>): Loop
    decreases |deltas|
  {
    if deltas == [] then l else CountAll(CountDelta(l, deltas[0]), deltas[1..])
  }

  /** How many deltas are zero or go another way than the last nonzero one. */
  function Disturbances(dir: int, deltas: seq<int>): nat
    decreases |deltas|
  {
    if deltas == [] then 0
    else if deltas[0] == 0 then 1 + Disturbances(dir, deltas[1..])
    else (if Sign(deltas[0]) != dir then 1 else 0) + Disturbances(Sign(deltas[0]), deltas[1..])
  }

  /** Every zero delta and every change of direction counts, however small the swings are. */
  lemma {:induction false} CountsDisturbances(l: Loop, deltas: seq<int>)
    requires (l.curDir == 1 || l.curDir == -1) && 0 <= l.deltaAccMax <= l.deltaAcc
    requires l.deltaAcc + Total(deltas) < 0x8000_0000
    ensures CountAll(l, deltas).violations == l.violations + Disturbances(l.curDir, deltas)
    decreases |deltas|
  {
    if deltas != [] {
      var d := deltas[0];
      SmallIsSigned(0 - d);
      SmallIsSigned(l.deltaAcc + Magnitude(d));
      CountsDisturbances(CountDelta(l, d), deltas[1..]);
    }
  }

  /** The zero deltas removed. */
  function NonZero(deltas: seq<int>): (r: seq<int>)
    ensures |r| <= |deltas|
    ensures 0 !in r
  {
    if deltas == [] then []
    else if deltas[0] == 0 then NonZero(deltas[1..])
    else [deltas[0]] + NonZero(deltas[1..])
  }

  /** Consecutive deltas of the same sign added together, and the absolute values of the sums. */
  function Swings(deltas: seq<int>): seq<nat>
    decreases |deltas|
  {
    if |deltas| <= 1 then seq(|deltas|, i requires 0 <= i < |deltas| => Magnitude(deltas[i]))
    else if Sign(deltas[0]) == Sign(deltas[1]) then Swings([deltas[0] + deltas[1]] + deltas[2..])
    else [Magnitude(deltas[0])] + Swings(deltas[1..])
  }

  /** How many values are not smaller than the maximum so far; the first is one of them. */
  function Records(swings: seq<nat>): nat {
    var n := |swings|;
    if n == 0 then 0
    else Records(swings[..n - 1]) + if forall i :: 0 <= i < n - 1 ==> swings[i] <= swings[n - 1] then 1 else 0
  }

  /** How many values are smaller than one before them. */
  function Falls(swings: seq<nat>): nat {
    var n := |swings|;
    if n == 0 then 0
    else Falls(swings[..n - 1]) + if exists i :: 0 <= i < n - 1 && swings[i] > swings[n - 1] then 1 else 0
  }

  lemma {:induction false} RecordOrFall(swings: seq<nat>)
    ensures Records(swings) + Falls(swings) == |swings|
  {
    if swings != [] { RecordOrFall(swings[..|swings| - 1]); }
  }

  /** The number of delta violations as the comment in the source defines it. */
  function Documented(deltas: seq<int>): nat {
    |deltas| - |NonZero(deltas)| + Records(Swings(NonZero(deltas)))
  }

  lemma {:induction false} ZerosDisturb(dir: int, deltas: seq<int>)
    ensures Disturbances(dir, deltas) == |deltas| - |NonZero(deltas)| + Disturbances(dir, NonZero(deltas))
    decreases |deltas|
  {
    if deltas != [] {
      var d, rest := deltas[0], deltas[1..];
      ZerosDisturb(if d == 0 then dir else Sign(d), rest);
      assert ([d] + NonZero(rest))[1..] == NonZero(rest);
    }
  }

  /** Without zeros, every swing but the first is one change of direction. */
  lemma {:induction false} SwingsDisturb(dir: int, deltas: seq<int>)
    requires 0 !in deltas && deltas != []
    ensures Disturbances(dir, deltas) == |Swings(deltas)| - if Sign(deltas[0]) == dir then 1 else 0
    decreases |deltas|
  {
    var d, rest := deltas[0], deltas[1..];
    if rest == [] {
      assert Disturbances(Sign(d), rest) == 0;
    } else if Sign(d) == Sign(rest[0]) {
      var merged := [d + rest[0]] + rest[1..];
      assert deltas[2..] == rest[1..] && merged[1..] == rest[1..];
      SwingsDisturb(dir, merged);
      assert Disturbances(Sign(d), rest) == Disturbances(Sign(d), rest[1..]);
    } else {
      SwingsDisturb(Sign(d), rest);
    }
  }

  /**
   * The code counts zeros and changes of direction, the comment zeros and
   * swings not smaller than the maximum so far: when the run begins with a
   * decrease, the two agree exactly if no swing is smaller than one before it,
   * and otherwise exactly if one is.
   */
  lemma AsDocumented(l: Loop, deltas: seq<int>)
    requires l.curDir == 1 && l.deltaAcc == l.deltaAccMax == l.violations == 0 && Total(deltas) < 0x8000_0000
    ensures var moves := NonZero(deltas);
            CountAll(l, deltas).violations == Documented(deltas) <==>
            moves == [] || Falls(Swings(moves)) == if moves[0] < 0 then 0 else 1
  {
    CountsDisturbances(l, deltas);
    ZerosDisturb(1, deltas);
    var moves := NonZero(deltas);
    RecordOrFall(Swings(moves));
    if moves != [] {
      assert moves[0] in moves;
      SwingsDisturb(1, moves);
    }
  }

  /** The example of the comment: 4 violations as documented, 5 as counted. */
  lemma CommentExample(l: Loop)
    requires l.curDir == 1 && l.deltaAcc == l.deltaAccMax == l.violations == 0
    ensures Documented([100, -20, -31, 50, 0, 10, 0, -100]) == 4
    ensures CountAll(l, [100, -20, -31, 50, 0, 10, 0, -100]).violations == 5
  {
    hide NonZero, Swings, Falls, Records, CountAll, Disturbances, Total;
    MovesOfExample();
    SwingsOfExample();
    FallsOfExample();
    CountsDisturbances(l, [100, -20, -31, 50, 0, 10, 0, -100]);
    ZerosDisturb(1, [100, -20, -31, 50, 0, 10, 0, -100]);
    SwingsDisturb(1, [100, -20, -31, 50, 10, -100]);
    RecordOrFall([100, 51, 60, 100]);
  }

  lemma MovesOfExample()
    ensures NonZero([100, -20, -31, 50, 0, 10, 0, -100]) == [100, -20, -31, 50, 10, -100]
    ensures Total([100, -20, -31, 50, 0, 10, 0, -100]) < 1000
  {
    var a, b: seq<int> := [0, -100], [50, 0, 10, 0, -100];
    var c := [-20, -31] + b;
    assert a[1..] == [-100] && b[1..] == [0, 10] + a && b[1..][1..] == [10] + a && b[1..][1..][1..] == a;
    assert NonZero(a) == [-100] && Total(a) == 100;
    assert NonZero(b) == [50, 10, -100] && Total(b) == 160;
    assert c[1..] == [-31] + b && c[1..][1..] == b;
    assert NonZero(c) == [-20, -31, 50, 10, -100] && Total(c) == 211;
    assert [100, -20, -31, 50, 0, 10, 0, -100] == [100] + c && ([100] + c)[1..] == c;
  }

  lemma SwingsOfExample()
    ensures Swings([100, -20, -31, 50, 10, -100]) == [100, 51, 60, 100]
  {
    assert [50, 10, -100][2..] == [-100] && [60] + [-100] == [60, -100] && [60, -100][1..] == [-100];
    assert Swings([-100]) == [100];
    assert Swings([60, -100]) == [60, 100];
    assert Swings([50, 10, -100]) == [60, 100];
    assert [-20, -31, 50, 10, -100][2..] == [50, 10, -100] && [-51] + [50, 10, -100] == [-51, 50, 10, -100];
    assert [-51, 50, 10, -100][1..] == [50, 10, -100];
    assert Swings([-51, 50, 10, -100]) == [51, 60, 100];
    assert Swings([-20, -31, 50, 10, -100]) == [51, 60, 100];
    assert [100, -20, -31, 50, 10, -100][1..] == [-20, -31, 50, 10, -100];
  }

  lemma FallsOfExample()
    ensures Falls([100, 51, 60, 100]) == 2
  {
    var s: seq<nat> := [100, 51, 60, 100];
    assert s[..3] == [100, 51, 60] && s[..3][..2] == s[..2] && s[..2][..1] == s[..1] && s[..1][..0] == [];
    assert Falls(s[..1]) == 0;
    assert s[..2][0] > s[..2][1];
    assert s[..3][0] > s[..3][2];
    assert Falls(s[..2]) == 1;
    assert Falls(s[..3]) == 2;
  }

  /** One growing swing: 1 violation as documented, none as counted. */
  lemma FirstSwing(l: Loop)
    requires l.curDir == 1 && l.deltaAcc == l.deltaAccMax == l.violations == 0
    ensures Documented([100]) == 1 && CountAll(l, [100]).violations == 0
  {
  }
}
