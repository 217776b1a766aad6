/**
 * When a late pass changes nothing and fails nowhere, said about the label
 * table alone: every line is placed by the lengths of the instructions before
 * it, every label has the value that the table has for it, and every jump is
 * in range.
 */
module SettledTable {
  import opened Common
  import opened Names
  import opened Words
  import opened Grammar
  import opened JumpCode
  import opened Passes

  // ----- how long a line is -----

  /** The distance to the next multiple of v. */
  function Gap(address: int, v: Word): nat
    requires v != 0
  {
    (0 - address) % v
  }

  /** n copies, each as long as it takes at its own address. */
  function CopiesLength(i: Instr, o: Operand, address: Word, n: nat): nat
    requires o.Operand?
    decreases n
  {
    if n == 0 then 0
    else
      var k := Length(i, o.value, address, o.undefined);
      k + CopiesLength(i, o, Wrap(address + k), n - 1)
  }

  /** An operand that says how often, or how far. */
  predicate IsCount(o: Operand) {
    o.Operand? && !o.undefined && !IsNegative(o.value)
  }

  /** How many bytes a line takes at an address. */
  function LineLength(cfg: Config, line: Line, labels: map<Name, Word>, address: Word, late: bool): nat {
    match line
    case DefLabel(_) => 0
    case Equ(_, _) => 0
    case Code(instr) =>
      var o := Evaluate(cfg, instr.operand, labels, address, late);
      if o.NoOperand? then 0 else Length(instr, o.value, address, o.undefined)
    case Times(ts, instr) =>
      var n, o := Evaluate(cfg, ts, labels, address, late), Evaluate(cfg, instr.operand, labels, address, late);
      if o.NoOperand? || !IsCount(n) then 0 else CopiesLength(instr, o, address, n.value)
    case Align(ts) =>
      var o := Evaluate(cfg, ts, labels, address, late);
      if !IsCount(o) || o.value == 0 then 0 else Gap(address, o.value)
  }

  lemma AssembleLength(cfg: Config, i: Instr, o: Operand, st: Pass)
    ensures Assemble(cfg, i, o, st).size ==
            st.size + if o.NoOperand? then 0 else Length(i, o.value, st.Address(cfg), o.undefined)
    ensures Assemble(cfg, i, o, st).late == st.late
    ensures o.Operand? ==>
      Assemble(cfg, i, o, st).Address(cfg) == Wrap(st.Address(cfg) + Length(i, o.value, st.Address(cfg), o.undefined))
  {
    hide Length, Wrap, NearForm, ShortForm, InvertedForm;
    if o.Operand? {
      LengthIsRight(i, o, st.Address(cfg), st.late);
      var size: int, k: int := st.size, Length(i, o.value, st.Address(cfg), o.undefined);
      WrapSum(cfg.start + size, k);
      assert cfg.start + (size + k) == cfg.start + size + k;
    }
  }

  lemma {:induction false} RepeatLength(cfg: Config, i: Instr, o: Operand, n: nat, st: Pass)
    ensures Repeat(cfg, i, o, n, st).size ==
            st.size + if o.NoOperand? then 0 else CopiesLength(i, o, st.Address(cfg), n)
    decreases n
  {
    if n > 0 {
      hide Assemble, Length, Wrap;
      AssembleLength(cfg, i, o, st);
      var st' := Assemble(cfg, i, o, st);
      RepeatLength(cfg, i, o, n - 1, st');
    }
  }

  lemma GapIsPadding(address: Word, v: Word)
    requires v != 0
    ensures Gap(address, v) == Padding(address, v)
  {
    var q, r := address / v, Mod(address, v);
    assert address == q * v + r;
    var g, k := (0 - address) % v, (0 - address) / v;
    assert 0 - address == k * v + g;
    var p: int := if r == 0 then 0 else v - r;
    assert g - p == (0 - k - q - if r == 0 then 0 else 1) * v by {
      assert (0 - k - q) * v == 0 - k * v - q * v;
      assert (0 - k - q - 1) * v == 0 - k * v - q * v - v;
    }
    SmallMultiple(g - p, 0 - k - q - if r == 0 then 0 else 1, v);
  }

  /** A line adds its length, in early and late passes, reported or not. */
  lemma LineSize(cfg: Config, line: Line, st: Pass)
    ensures DoLine(cfg, line, st).size == st.size + LineLength(cfg, line, st.labels, st.Address(cfg), st.late)
  {
    hide Evaluate, Assemble, Repeat, Padding, Gap, Length, CopiesLength;
    var here := st.Address(cfg);
    match line
    case Code(instr) =>
      AssembleLength(cfg, instr, Evaluate(cfg, instr.operand, st.labels, here, st.late), st);
    case Times(ts, instr) =>
      var n, o := Evaluate(cfg, ts, st.labels, here, st.late), Evaluate(cfg, instr.operand, st.labels, here, st.late);
      if IsCount(n) { RepeatLength(cfg, instr, o, n.value, Note(n, st)); }
    case Align(ts) =>
      var o := Evaluate(cfg, ts, st.labels, here, st.late);
      if IsCount(o) && o.value != 0 { GapIsPadding(here, o.value); }
    case _ =>
  }

  // ----- settled lines -----

  ghost predicate AllCanEncode(i: Instr, v: Word, address: Word, n: nat)
    decreases n
  {
    n == 0 ||
    (CanEncode(i, v, address) && AllCanEncode(i, v, Wrap(address + Length(i, v, address, false)), n - 1))
  }

  /** At its address, the line has nothing against the table. */
  ghost predicate Settled(cfg: Config, line: Line, labels: map<Name, Word>, address: Word) {
    match line
    case DefLabel(name) => name in labels && labels[name] == address
    case Equ(name, ts) =>
      var o := Evaluate(cfg, ts, labels, address, true);
      Complete(o) && name in labels && labels[name] == o.value
    case Code(instr) =>
      var o := Evaluate(cfg, instr.operand, labels, address, true);
      Complete(o) && CanEncode(instr, o.value, address)
    case Times(ts, instr) =>
      var n, o := Evaluate(cfg, ts, labels, address, true), Evaluate(cfg, instr.operand, labels, address, true);
      && Complete(n) && !IsNegative(n.value)
      && (n.value > 0 ==> Complete(o) && AllCanEncode(instr, o.value, address, n.value))
    case Align(ts) =>
      var o := Evaluate(cfg, ts, labels, address, true);
      Complete(o) && 0 < o.value && !IsNegative(o.value)
  }

  /** So far nothing moved, failed, or was out of range. */
  predicate Spotless(st: Pass) {
    Clean(st) && !st.tooFar
  }

  lemma AssembleSettled(cfg: Config, i: Instr, o: Operand, st: Pass)
    requires st.late && Spotless(st) && (o.Operand? && !o.complaint ==> !o.undefined)
    ensures Spotless(Assemble(cfg, i, o, st)) <==> Complete(o) && CanEncode(i, o.value, st.Address(cfg))
  {
    hide Encode, CanEncode, Near16;
    if Complete(o) { ReportedExactly(i, o, st.Address(cfg)); }
    ErrorExactly(i, o, st.Address(cfg), true);
  }

  lemma {:induction false} RepeatSettled(cfg: Config, i: Instr, o: Operand, n: nat, st: Pass)
    requires st.late && Spotless(st) && (o.Operand? && !o.complaint ==> !o.undefined)
    ensures Spotless(Repeat(cfg, i, o, n, st)) <==>
            n > 0 ==> Complete(o) && AllCanEncode(i, o.value, st.Address(cfg), n)
    decreases n
  {
    if n > 0 {
      hide Assemble, Length, CanEncode, Wrap;
      AssembleSettled(cfg, i, o, st);
      AssembleLength(cfg, i, o, st);
      var st' := Assemble(cfg, i, o, st);
      RepeatGrows(cfg, i, o, n - 1, st');
      if Spotless(st') {
        RepeatSettled(cfg, i, o, n - 1, st');
      }
    }
  }

  /** A line of a late pass stays spotless exactly if the table settles it. */
  lemma LineSettled(cfg: Config, line: Line, st: Pass)
    requires st.late && Spotless(st)
    ensures Spotless(DoLine(cfg, line, st)) <==> Settled(cfg, line, st.labels, st.Address(cfg))
    ensures Spotless(DoLine(cfg, line, st)) ==> DoLine(cfg, line, st).labels == st.labels
  {
    hide Evaluate, Assemble, Repeat, Padding, Nops, CanEncode, AllCanEncode;
    var here := st.Address(cfg);
    if Spotless(DoLine(cfg, line, st)) { LineStep(cfg, line, st); }
    match line
    case DefLabel(_) =>
    case Equ(_, ts) => LateOperands(cfg, ts, st.labels, here);
    case Code(instr) =>
      LateOperands(cfg, instr.operand, st.labels, here);
      AssembleSettled(cfg, instr, Evaluate(cfg, instr.operand, st.labels, here, true), st);
    case Times(ts, instr) =>
      LateOperands(cfg, ts, st.labels, here);
      LateOperands(cfg, instr.operand, st.labels, here);
      var n, o := Evaluate(cfg, ts, st.labels, here, true), Evaluate(cfg, instr.operand, st.labels, here, true);
      if Complete(n) && !IsNegative(n.value) {
        RepeatSettled(cfg, instr, o, n.value, st);
      } else if n.Operand? && !n.undefined && !IsNegative(n.value) {
        RepeatGrows(cfg, instr, o, n.value, Note(n, st));
      }
    case Align(ts) => LateOperands(cfg, ts, st.labels, here);
  }

  // ----- what any line does -----

  /** The short jump does not reach its target. */
  predicate TooFarAt(i: Instr, o: Operand, address: Word) {
    o.Operand? && !o.undefined && ShortOnly(i) && !Near8(o.value, address + 2)
  }

  /** A message, a form that there is not, or a near jump that is too long. */
  predicate ReportedAt(i: Instr, o: Operand, address: Word, late: bool) {
    || o.NoOperand? || o.complaint || (i.Jcc? && i.distance == Near)
    || (late &&
        var k := Length(i, o.value, address, o.undefined);
        (i.Call? || (i.Jmp? && k == 3) || (i.Jcc? && k == 5)) && !Near16(o.value, address + k))
  }

  predicate AnyTooFar(i: Instr, o: Operand, address: Word, n: nat)
    requires o.Operand?
    decreases n
  {
    n > 0 &&
    (TooFarAt(i, o, address)
     || AnyTooFar(i, o, Wrap(address + Length(i, o.value, address, o.undefined)), n - 1))
  }

  predicate AnyReported(i: Instr, o: Operand, address: Word, n: nat, late: bool)
    requires o.Operand?
    decreases n
  {
    n > 0 &&
    (ReportedAt(i, o, address, late)
     || AnyReported(i, o, Wrap(address + Length(i, o.value, address, o.undefined)), n - 1, late))
  }

  /** A short jump of the line does not reach its target. */
  predicate LineTooFar(cfg: Config, line: Line, labels: map<Name, Word>, address: Word) {
    match line
    case Code(instr) => TooFarAt(instr, Evaluate(cfg, instr.operand, labels, address, true), address)
    case Times(ts, instr) =>
      var n, o := Evaluate(cfg, ts, labels, address, true), Evaluate(cfg, instr.operand, labels, address, true);
      IsCount(n) && o.Operand? && AnyTooFar(instr, o, address, n.value)
    case _ => false
  }

  /** There is a message about the line, short jumps aside. */
  predicate LineReported(cfg: Config, line: Line, labels: map<Name, Word>, address: Word, late: bool) {
    match line
    case DefLabel(name) => late == (name !in labels)
    case Equ(name, ts) =>
      var o := Evaluate(cfg, ts, labels, address, late);
      o.NoOperand? || o.complaint || late == (name !in labels)
    case Code(instr) => ReportedAt(instr, Evaluate(cfg, instr.operand, labels, address, late), address, late)
    case Times(ts, instr) =>
      var n, o := Evaluate(cfg, ts, labels, address, late), Evaluate(cfg, instr.operand, labels, address, late);
      || !IsCount(n) || n.complaint || (o.NoOperand? && n.value > 0)
      || (o.Operand? && AnyReported(instr, o, address, n.value, late))
    case Align(ts) =>
      var o := Evaluate(cfg, ts, labels, address, late);
      !IsCount(o) || o.complaint || o.value == 0
  }

  /** The value that a label or EQU line gives to its name. */
  function GivenValue(cfg: Config, line: Line, labels: map<Name, Word>, address: Word, late: bool): Word
    requires line.DefLabel? || line.Equ?
  {
    if line.DefLabel? then address
    else
      var o := Evaluate(cfg, line.operand, labels, address, late);
      if o.Operand? then o.value else 0
  }

  /** The table after the line: early passes add names, late ones give new values to names. */
  function TableAfter(cfg: Config, line: Line, labels: map<Name, Word>, address: Word, late: bool): map<Name, Word> {
    if (line.DefLabel? || line.Equ?) && late == (line.name in labels) then
      labels[line.name := GivenValue(cfg, line, labels, address, late)]
    else labels
  }

  lemma AssembleReports(cfg: Config, i: Instr, o: Operand, st: Pass)
    ensures var st', far := Assemble(cfg, i, o, st), st.late && TooFarAt(i, o, st.Address(cfg));
            && (st'.tooFar <==> st.tooFar || far)
            && (st'.errors <==>
                st.errors || ReportedAt(i, o, st.Address(cfg), st.late) || (far && st.reportTooFar))
            && st'.changed == st.changed && st'.reportTooFar == st.reportTooFar && st'.labels == st.labels
  {
    hide Encode, Near8, Near16, Length;
    TooFarExactly(i, o, st.Address(cfg), st.late);
    ErrorExactly(i, o, st.Address(cfg), st.late);
    if o.Operand? { LengthIsRight(i, o, st.Address(cfg), st.late); }
  }

  lemma {:induction false} RepeatReports(cfg: Config, i: Instr, o: Operand, n: nat, st: Pass)
    requires o.Operand?
    ensures var st', far := Repeat(cfg, i, o, n, st), st.late && AnyTooFar(i, o, st.Address(cfg), n);
            && (st'.tooFar <==> st.tooFar || far)
            && (st'.errors <==>
                st.errors || AnyReported(i, o, st.Address(cfg), n, st.late) || (far && st.reportTooFar))
            && st'.changed == st.changed && st'.labels == st.labels
    decreases n
  {
    hide Assemble, Length, TooFarAt, ReportedAt, Wrap;
    if n > 0 {
      AssembleReports(cfg, i, o, st);
      AssembleLength(cfg, i, o, st);
      RepeatReports(cfg, i, o, n - 1, Assemble(cfg, i, o, st));
    }
  }

  lemma {:induction false} RepeatWithout(cfg: Config, i: Instr, o: Operand, n: nat, st: Pass)
    requires o.NoOperand?
    ensures var st' := Repeat(cfg, i, o, n, st);
            && st'.tooFar == st.tooFar && (st'.errors <==> st.errors || n > 0)
            && st'.changed == st.changed && st'.labels == st.labels
    decreases n
  {
    if n > 0 { RepeatWithout(cfg, i, o, n - 1, Assemble(cfg, i, o, st)); }
  }

  ghost predicate DoesExactly(cfg: Config, line: Line, st: Pass, st': Pass) {
    var here := st.Address(cfg);
    var far := st.late && LineTooFar(cfg, line, st.labels, here);
    && st'.labels == TableAfter(cfg, line, st.labels, here, st.late)
    && (st'.changed <==> st.changed || (st.late && st'.labels != st.labels))
    && (st'.tooFar <==> st.tooFar || far)
    && (st'.errors <==>
        st.errors || LineReported(cfg, line, st.labels, here, st.late) || (far && st.reportTooFar))
  }

  lemma CreatesExactly(name: Name, value: Word, st: Pass)
    ensures var st' := CreateLabel(name, value, st);
            && st'.labels == (if st.late == (name in st.labels) then st.labels[name := value] else st.labels)
            && (st'.changed <==> st.changed || (st.late && st'.labels != st.labels))
            && (st'.errors <==> st.errors || st.late == (name !in st.labels))
            && st'.tooFar == st.tooFar
  {
    if name in st.labels {
      assert st.labels[name := value] == st.labels <==> st.labels[name] == value by {
        assert st.labels[name := value][name] == value;
      }
    }
  }

  lemma LabelExactly(cfg: Config, line: Line, st: Pass)
    requires line.DefLabel? || line.Equ?
    ensures DoesExactly(cfg, line, st, DoLine(cfg, line, st))
  {
    hide Evaluate, CreateLabel, Wrap;
    var here := st.Address(cfg);
    match line
    case DefLabel(name) => CreatesExactly(name, here, st);
    case Equ(name, ts) =>
      var o := Evaluate(cfg, ts, st.labels, here, st.late);
      CreatesExactly(name, if o.Operand? then o.value else 0, Note(o, st));
  }

  lemma TimesExactly(cfg: Config, line: Line, st: Pass)
    requires line.Times?
    ensures DoesExactly(cfg, line, st, DoLine(cfg, line, st))
  {
    hide Evaluate, Assemble, Repeat, AnyTooFar, AnyReported, Wrap;
    var here := st.Address(cfg);
    var n := Evaluate(cfg, line.operand, st.labels, here, st.late);
    var o := Evaluate(cfg, line.instr.operand, st.labels, here, st.late);
    if IsCount(n) {
      if o.Operand? {
        RepeatReports(cfg, line.instr, o, n.value, Note(n, st));
      } else {
        RepeatWithout(cfg, line.instr, o, n.value, Note(n, st));
      }
    }
  }

  /**
   * What a line does to the table and to the three flags, in any pass: short
   * jumps that do not reach are noted, and reported only when that is asked for.
   */
  lemma LineExactly(cfg: Config, line: Line, st: Pass)
    ensures DoesExactly(cfg, line, st, DoLine(cfg, line, st))
  {
    hide Evaluate, Assemble, Repeat, Padding, Nops, TooFarAt, ReportedAt, Wrap;
    match line
    case DefLabel(_) => LabelExactly(cfg, line, st);
    case Equ(_, _) => LabelExactly(cfg, line, st);
    case Times(_, _) => TimesExactly(cfg, line, st);
    case Code(instr) =>
      AssembleReports(cfg, instr, Evaluate(cfg, instr.operand, st.labels, st.Address(cfg), st.late), st);
    case Align(_) =>
  }

  // ----- a whole pass -----

  /** Where line k is, as far as the table says. */
  function PlaceOf(cfg: Config, prog: seq<Line>, labels: map<Name, Word>, k: nat): nat
    requires k <= |prog|
  {
    if k == 0 then 0
    else
      var before := PlaceOf(cfg, prog, labels, k - 1);
      before + LineLength(cfg, prog[k - 1], labels, Wrap(cfg.start + before), true)
  }

  ghost predicate SettledAt(cfg: Config, prog: seq<Line>, labels: map<Name, Word>, k: nat)
    requires k < |prog|
  {
    Settled(cfg, prog[k], labels, Wrap(cfg.start + PlaceOf(cfg, prog, labels, k)))
  }

  /** The table is a fixed point of the program. */
  ghost predicate FixedPoint(cfg: Config, prog: seq<Line>, labels: map<Name, Word>) {
    forall k :: 0 <= k < |prog| ==> SettledAt(cfg, prog, labels, k)
  }

  lemma {:induction false} SettledUpTo(cfg: Config, prog: seq<Line>, n: nat, st: Pass)
    requires st.late && Spotless(st) && st.size == 0 && n <= |prog|
    ensures var mid := DoLines(cfg, prog[..n], st);
            && mid.late
            && (Spotless(mid) <==> forall k :: 0 <= k < n ==> SettledAt(cfg, prog, st.labels, k))
            && (Spotless(mid) ==> mid.labels == st.labels && mid.size == PlaceOf(cfg, prog, st.labels, n))
    decreases n
  {
    hide DoLine, DoLines, Settled, LineLength, Wrap;
    if n == 0 {
      NoLines(cfg, st);
      assert prog[..0] == [];
    } else {
      SettledUpTo(cfg, prog, n - 1, st);
      DoLinesUnfolds(cfg, prog, n - 1, st);
      var mid := DoLines(cfg, prog[..n - 1], st);
      LineGrows(cfg, prog[n - 1], mid);
      if Spotless(mid) {
        LineSettled(cfg, prog[n - 1], mid);
        LineSize(cfg, prog[n - 1], mid);
        assert SettledAt(cfg, prog, st.labels, n - 1) <==> Settled(cfg, prog[n - 1], mid.labels, mid.Address(cfg));
      } else {
        var k :| 0 <= k < n - 1 && !SettledAt(cfg, prog, st.labels, k);
        assert !Spotless(DoLine(cfg, prog[n - 1], mid));
      }
    }
  }

  /**
   * A late pass changes no label, reports nothing and has no short jump out of
   * range if and only if it starts with a fixed point, which it then keeps.
   */
  lemma SpotlessExactly(cfg: Config, prog: seq<Line>, st: Pass)
    requires st.late && Spotless(st) && st.size == 0
    ensures var end := DoLines(cfg, prog, st);
            && (Spotless(end) <==> FixedPoint(cfg, prog, st.labels))
            && (Spotless(end) ==> end.labels == st.labels && end.size == PlaceOf(cfg, prog, st.labels, |prog|))
  {
    SettledUpTo(cfg, prog, |prog|, st);
    assert prog[..|prog|] == prog;
  }

  // ----- the first pass -----

  /** In an early pass without a report, entries are only added, and each has the value of its line. */
  lemma EarlyLine(cfg: Config, line: Line, st: Pass)
    requires !st.late && !DoLine(cfg, line, st).errors
    ensures var st' := DoLine(cfg, line, st);
            && (forall name :: name in st.labels ==> name in st'.labels && st'.labels[name] == st.labels[name])
            && (line.DefLabel? ==> line.name !in st.labels && line.name in st'.labels
                                   && st'.labels[line.name] == st.Address(cfg))
            && (line.Equ? ==>
                var o := Evaluate(cfg, line.operand, st.labels, st.Address(cfg), false);
                && line.name !in st.labels && line.name in st'.labels
                && o.Operand? && !o.complaint && st'.labels[line.name] == o.value)
  {
    hide Evaluate, Assemble, Repeat, Padding, Nops;
    LineLabels(cfg, line, st);
  }

  lemma {:induction false} EarlyLines(cfg: Config, lines: seq<Line>, k: nat, st: Pass)
    requires !st.late && k <= |lines| && !DoLines(cfg, lines, st).errors
    ensures var a, b := DoLines(cfg, lines[..k], st), DoLines(cfg, lines, st);
            && !a.errors && !a.late
            && forall name :: name in a.labels ==> name in b.labels && b.labels[name] == a.labels[name]
    decreases |lines|
  {
    if k < |lines| {
      var init := lines[..|lines| - 1];
      assert init[..k] == lines[..k];
      LineGrows(cfg, lines[|lines| - 1], DoLines(cfg, init, st));
      LinesGrow(cfg, init, 0, st);
      assert init[..0] == [];
      NoLines(cfg, st);
      EarlyLines(cfg, init, k, st);
      EarlyLine(cfg, lines[|lines| - 1], DoLines(cfg, init, st));
    } else {
      assert lines[..k] == lines;
      LinesGrow(cfg, lines, 0, st);
      assert lines[..0] == [];
      NoLines(cfg, st);
    }
  }

  /** Pass 0 leaves each label at the address its line had in it. */
  lemma FirstPassPlaces(cfg: Config, lines: seq<Line>, k: nat, st: Pass)
    requires !st.late && k < |lines| && lines[k].DefLabel? && !DoLines(cfg, lines, st).errors
    ensures var end := DoLines(cfg, lines, st);
            && lines[k].name in end.labels
            && end.labels[lines[k].name] == DoLines(cfg, lines[..k], st).Address(cfg)
  {
    hide DoLine;
    EarlyLines(cfg, lines, k, st);
    EarlyLines(cfg, lines, k + 1, st);
    DoLinesUnfolds(cfg, lines, k, st);
    EarlyLine(cfg, lines[k], DoLines(cfg, lines[..k], st));
  }
}
