/**
 * Assembler passes over a straight-line program with -O9: the label table is
 * updated in place during each pass, jumps shrink and grow with it, and passes
 * are repeated until nothing changes.
 */
module Passes {
  import opened Common
  import opened Names
  import opened Words
  import opened Grammar
  import opened JumpCode

  // One line of the program.
  datatype Line =
    | DefLabel(name: Name)
    | Equ(name: Name, operand: seq<Token>)
    | Code(instr: Instr)
    | Times(operand: seq<Token>, instr: Instr)
    | Align(operand: seq<Token>)

  // The start address.
  datatype Config = Config(start: Word)

  // The variables of a pass: the label table, the bytes so far (counted in
  // every pass, emitted in the late ones), have_labels_changed, the two bits of
  // jump_range_bits, and whether there was a message.
  datatype Pass = Pass(
    late: bool,
    labels: map<Name, Word>,
    size: nat,
    output: seq<Byte>,
    changed: bool,
    tooFar: bool,
    reportTooFar: bool,
    errors: bool)
  {
    /** current_address */
    function Address(cfg: Config): Word {
      Wrap(cfg.start + size)
    }
  }

  /** match_expression on a whole operand, for a line that began at `here`. */
  function Evaluate(cfg: Config, ts: seq<Token>, labels: map<Name, Word>, here: Word, late: bool): Operand {
    var env, none := Env(labels, here, cfg.start, late), Flags(false, 0);
    if TooDeep(ts, env, 0, none) then NoOperand
    else
      match Expr(ts, env, 0, 0, none)
      case Error(_) => NoOperand
      case Value(v, pos, flags) =>
        Operand(if flags.undefined then 0 else v, flags.undefined, flags.errors > 0 || pos < |ts|)
  }

  /** create_label. */
  function CreateLabel(name: Name, value: Word, st: Pass): Pass {
    if !st.late then
      if name in st.labels then st.(errors := true) else st.(labels := st.labels[name := value])
    else if name !in st.labels then st.(errors := true)
    else st.(labels := st.labels[name := value], changed := st.changed || st.labels[name] != value)
  }

  /** Count the bytes, and emit them in a late pass. */
  function Emit(code: seq<Byte>, st: Pass): Pass {
    st.(size := st.size + |code|, output := if st.late then st.output + code else st.output)
  }

  /** One instruction: a short jump out of range is noted, and reported only on request. */
  function Assemble(cfg: Config, i: Instr, o: Operand, st: Pass): Pass {
    var e := Encode(i, o, st.Address(cfg), st.late);
    Emit(e.code, st.(
      tooFar := st.tooFar || e.tooFar,
      errors := st.errors || e.error || (e.tooFar && st.reportTooFar)))
  }

  /** The same instruction n times. */
  function Repeat(cfg: Config, i: Instr, o: Operand, n: nat, st: Pass): Pass {
    if n == 0 then st else Repeat(cfg, i, o, n - 1, Assemble(cfg, i, o, st))
  }

  /** How many bytes of padding bring the address to a multiple of v. */
  function Padding(address: Word, v: Word): Word
    requires v != 0
  {
    var r := Mod(address, v);
    if r == 0 then 0 else Wrap(v - r)
  }

  function Nops(n: nat): seq<Byte> {
    seq(n, _ => 0x90)
  }

  /** The code takes the address to the next multiple of v, and does nothing on the way. */
  ghost predicate Aligns(address: int, v: Word, code: seq<Byte>)
    requires v != 0
  {
    |code| < v && (address + |code|) % v == 0 && forall b :: b in code ==> b == 0x90
  }

  lemma PaddingAligns(address: Word, v: Word)
    requires v != 0
    ensures Aligns(address, v, Nops(Padding(address, v)))
  {
    var q, r := address / v, address % v;
    assert address == q * v + r;
    if r != 0 {
      assert address + (v - r) == (q + 1) * v;
      IsMultiple(address + (v - r), q + 1, v);
    }
  }

  lemma IsMultiple(x: int, q: int, v: int)
    requires v > 0 && x == q * v
    ensures x % v == 0
  {
    assert x == x / v * v + x % v;
    SmallMultiple(x % v, q - x / v, v);
  }

  lemma SmallMultiple(d: int, k: int, v: int)
    requires d == k * v && -v < d < v
    ensures d == 0
  {
    MulGrows(k - 1, v);
    MulGrows(k + 1, v);
    assert (k - 1) * v == k * v - v && (k + 1) * v == k * v + v;
  }

  /** There is only one such code. */
  lemma AlignsUnique(address: int, v: Word, a: seq<Byte>, b: seq<Byte>)
    requires v != 0 && Aligns(address, v, a) && Aligns(address, v, b)
    ensures a == b
  {
    var k, l := (address + |a|) / v, (address + |b|) / v;
    assert address + |a| == k * v && address + |b| == l * v;
    SmallMultiple(|a| - |b|, k - l, v);
    assert forall i :: 0 <= i < |a| ==> a[i] in a && b[i] in b;
  }

  /** Evaluated to the end, with nothing to complain about. */
  predicate Complete(o: Operand) {
    o.Operand? && !o.undefined && !o.complaint
  }

  function Fail(st: Pass): Pass {
    st.(errors := true)
  }

  function Note(o: Operand, st: Pass): Pass {
    if o.NoOperand? || o.complaint then Fail(st) else st
  }

  function DoLine(cfg: Config, line: Line, st: Pass): Pass {
    var here := st.Address(cfg);
    match line
    case DefLabel(name) => CreateLabel(name, here, st)
    case Equ(name, ts) =>
      var o := Evaluate(cfg, ts, st.labels, here, st.late);
      CreateLabel(name, if o.Operand? then o.value else 0, Note(o, st))
    case Code(instr) => Assemble(cfg, instr, Evaluate(cfg, instr.operand, st.labels, here, st.late), st)
    case Times(ts, instr) =>
      var o := Evaluate(cfg, ts, st.labels, here, st.late);
      if o.NoOperand? || o.undefined || IsNegative(o.value) then Fail(st)
      else Repeat(cfg, instr, Evaluate(cfg, instr.operand, st.labels, here, st.late), o.value, Note(o, st))
    case Align(ts) =>
      var o := Evaluate(cfg, ts, st.labels, here, st.late);
      if o.NoOperand? || o.undefined || o.value == 0 || IsNegative(o.value) then Fail(st)
      else Emit(Nops(Padding(here, o.value)), Note(o, st))
  }

  /** do_assembly: all lines in order. */
  function DoLines(cfg: Config, lines: seq<Line>, st: Pass): Pass {
    if lines == [] then st
    else DoLine(cfg, lines[|lines| - 1], DoLines(cfg, lines[..|lines| - 1], st))
  }

  // ----- what one late pass guarantees -----

  /** Nothing seen so far moved a label or failed. */
  predicate Clean(st: Pass) {
    !st.changed && !st.errors
  }

  /** The code does its job, or else it is a short jump that cannot reach. */
  ghost predicate DoesOrCannot(i: Instr, v: Word, address: Word, code: seq<Byte>, strict: bool) {
    Does(i, v, address, code) || (!strict && ShortOnly(i) && !FitsByte(Wrap(v - (address + 2))))
  }

  /** n copies of the instruction, each for its own address. */
  ghost predicate Copies(i: Instr, v: Word, address: Word, code: seq<Byte>, n: nat, strict: bool)
    decreases n
  {
    if n == 0 then code == []
    else exists k | 0 <= k <= |code| ::
      DoesOrCannot(i, v, address, code[..k], strict) && Copies(i, v, Wrap(address + k), code[k..], n - 1, strict)
  }

  /**
   * The bytes emitted for a line at an address agree with a label table: label
   * lines give the label its place, EQU lines its value, and every instruction
   * does what its operand's value under that table asks for. Unless strict,
   * short jumps that cannot reach are excepted.
   */
  ghost predicate LineAgrees(cfg: Config, line: Line, labels: map<Name, Word>, address: Word,
                             code: seq<Byte>, strict: bool) {
    match line
    case DefLabel(name) => name in labels && labels[name] == address && code == []
    case Equ(name, ts) =>
      var o := Evaluate(cfg, ts, labels, address, true);
      Complete(o) && name in labels && labels[name] == o.value && code == []
    case Code(instr) =>
      var o := Evaluate(cfg, instr.operand, labels, address, true);
      Complete(o) && DoesOrCannot(instr, o.value, address, code, strict)
    case Times(ts, instr) =>
      var n, o := Evaluate(cfg, ts, labels, address, true), Evaluate(cfg, instr.operand, labels, address, true);
      && Complete(n) && !IsNegative(n.value) && (n.value > 0 ==> Complete(o))
      && Copies(instr, if o.Operand? then o.value else 0, address, code, n.value, strict)
    case Align(ts) =>
      var o := Evaluate(cfg, ts, labels, address, true);
      Complete(o) && 0 < o.value && !IsNegative(o.value) && Aligns(address, o.value, code)
  }

  // In a late pass an undefined label always comes with a message.
  predicate Reported(flags: Flags) {
    flags.undefined ==> flags.errors > 0
  }

  lemma {:induction false} UnaryReports(ts: seq<Token>, env: Env, p: nat, flags: Flags)
    requires env.late && Reported(flags)
    ensures Reported(Unary(ts, env, p, flags).flags)
    decreases |ts| - p, 0
  {
    if p < |ts| {
      match ts[p]
      case Minus | Plus | Tilde => UnaryReports(ts, env, p + 1, flags);
      case LParen => ExprReports(ts, env, 0, p + 1, flags);
      case _ =>
    }
  }

  lemma {:induction false} ExprReports(ts: seq<Token>, env: Env, level: nat, p: nat, flags: Flags)
    requires level <= 6 && env.late && Reported(flags)
    ensures Reported(Expr(ts, env, level, p, flags).flags)
    decreases |ts| - p, 14 - 2 * level
  {
    if level == 6 {
      UnaryReports(ts, env, p, flags);
    } else {
      ExprReports(ts, env, level + 1, p, flags);
      var r := Expr(ts, env, level + 1, p, flags);
      if r.Value? { RestReports(ts, env, level, r.value, r.pos, r.flags); }
    }
  }

  lemma {:induction false} RestReports(ts: seq<Token>, env: Env, tier: nat, v: Word, p: nat, flags: Flags)
    requires tier <= 5 && p <= |ts| && env.late && Reported(flags)
    ensures Reported(Rest(ts, env, tier, v, p, flags).flags)
    decreases |ts| - p, 13 - 2 * tier
  {
    var op := OpAt(ts, p, tier);
    if op != 0 {
      ExprReports(ts, env, tier + 1, p + 1, flags);
      var r := Combine(op, v, Expr(ts, env, tier + 1, p + 1, flags), env.late);
      if r.Value? { RestReports(ts, env, tier, r.value, r.pos, r.flags); }
    }
  }

  lemma LateOperands(cfg: Config, ts: seq<Token>, labels: map<Name, Word>, here: Word)
    ensures var o := Evaluate(cfg, ts, labels, here, true);
            o.Operand? && !o.complaint ==> !o.undefined
  {
    ExprReports(ts, Env(labels, here, cfg.start, true), 0, 0, Flags(false, 0));
  }

  /** What a step leaves alone, and how the output grows with the size. */
  ghost predicate Grows(st: Pass, st': Pass) {
    && st'.late == st.late && st'.reportTooFar == st.reportTooFar
    && st.size <= st'.size
    && (st.changed ==> st'.changed) && (st.errors ==> st'.errors) && (st.tooFar ==> st'.tooFar)
    && (st.late ==> |st'.output| - |st.output| == st'.size - st.size && st'.output[..|st.output|] == st.output)
    && (st.reportTooFar && st'.tooFar && !st.tooFar ==> st'.errors)
  }

  lemma GrowsTwice(a: Pass, b: Pass, c: Pass)
    requires Grows(a, b) && Grows(b, c)
    ensures Grows(a, c)
  {
    if a.late { assert c.output[..|a.output|] == c.output[..|b.output|][..|a.output|]; }
  }

  lemma {:induction false} RepeatGrows(cfg: Config, i: Instr, o: Operand, n: nat, st: Pass)
    ensures Grows(st, Repeat(cfg, i, o, n, st)) && Repeat(cfg, i, o, n, st).labels == st.labels
  {
    if n > 0 {
      RepeatGrows(cfg, i, o, n - 1, Assemble(cfg, i, o, st));
      GrowsTwice(st, Assemble(cfg, i, o, st), Repeat(cfg, i, o, n, st));
    }
  }

  lemma LabelGrows(name: Name, value: Word, st: Pass)
    ensures Grows(st, CreateLabel(name, value, st))
  {
  }

  lemma NoteGrows(o: Operand, st: Pass)
    ensures Grows(st, Note(o, st)) && Grows(st, Fail(st))
  {
  }

  lemma EmitGrows(code: seq<Byte>, st: Pass)
    ensures Grows(st, Emit(code, st))
  {
  }

  lemma LineGrows(cfg: Config, line: Line, st: Pass)
    ensures Grows(st, DoLine(cfg, line, st))
  {
    hide Evaluate, Encode, Grows, CreateLabel, Note, Fail, Emit, Assemble, Repeat, Padding, Nops;
    var here := st.Address(cfg);
    match line
    case DefLabel(name) => LabelGrows(name, here, st);
    case Equ(name, ts) =>
      var o := Evaluate(cfg, ts, st.labels, here, st.late);
      NoteGrows(o, st);
      LabelGrows(name, if o.Operand? then o.value else 0, Note(o, st));
      GrowsTwice(st, Note(o, st), DoLine(cfg, line, st));
    case Code(instr) =>
      RepeatGrows(cfg, instr, Evaluate(cfg, instr.operand, st.labels, here, st.late), 1, st);
      RepeatOnce(cfg, instr, Evaluate(cfg, instr.operand, st.labels, here, st.late), st);
    case Times(ts, instr) =>
      var n, o := Evaluate(cfg, ts, st.labels, here, st.late),
                  Evaluate(cfg, instr.operand, st.labels, here, st.late);
      NoteGrows(n, st);
      if n.Operand? && !n.undefined && !IsNegative(n.value) {
        RepeatGrows(cfg, instr, o, n.value, Note(n, st));
        GrowsTwice(st, Note(n, st), Repeat(cfg, instr, o, n.value, Note(n, st)));
      }
    case Align(ts) =>
      var o := Evaluate(cfg, ts, st.labels, here, st.late);
      NoteGrows(o, st);
      if o.Operand? && o.value != 0 {
        EmitGrows(Nops(Padding(here, o.value)), Note(o, st));
        GrowsTwice(st, Note(o, st), Emit(Nops(Padding(here, o.value)), Note(o, st)));
      }
  }

  lemma RepeatOnce(cfg: Config, i: Instr, o: Operand, st: Pass)
    ensures Repeat(cfg, i, o, 1, st) == Assemble(cfg, i, o, st)
  {
    assert Repeat(cfg, i, o, 0, Assemble(cfg, i, o, st)) == Assemble(cfg, i, o, st);
  }

  lemma {:induction false} LinesGrow(cfg: Config, lines: seq<Line>, k: nat, st: Pass)
    requires k <= |lines|
    ensures Grows(DoLines(cfg, lines[..k], st), DoLines(cfg, lines, st))
    decreases |lines|
  {
    if k < |lines| {
      var init := lines[..|lines| - 1];
      assert init[..k] == lines[..k];
      LinesGrow(cfg, init, k, st);
      var a, b := DoLines(cfg, lines[..k], st), DoLines(cfg, init, st);
      LineGrows(cfg, lines[|lines| - 1], b);
      GrowsTwice(a, b, DoLines(cfg, lines, st));
    } else {
      assert lines[..k] == lines;
    }
  }

  lemma AssembleDoes(cfg: Config, i: Instr, o: Operand, st: Pass)
    requires st.late && o.Operand? && !o.undefined
    requires var st' := Assemble(cfg, i, o, st); !st'.errors
    ensures var st' := Assemble(cfg, i, o, st);
            var code := Encode(i, o, st.Address(cfg), true).code;
            && st'.output == st.output + code && st'.Address(cfg) == Wrap(st.Address(cfg) + |code|)
            && DoesOrCannot(i, o.value, st.Address(cfg), code, !st'.tooFar)
  {
    EncodeDoes(i, o, st.Address(cfg));
    WrapSum(cfg.start + st.size, |Encode(i, o, st.Address(cfg), true).code|);
    hide Does;
  }

  lemma Loosen(i: Instr, v: Word, address: Word, code: seq<Byte>, strict: bool, strict': bool)
    requires DoesOrCannot(i, v, address, code, strict) && (strict' ==> strict)
    ensures DoesOrCannot(i, v, address, code, strict')
  {
  }

  lemma OneMoreCopy(i: Instr, v: Word, address: Word, code: seq<Byte>, rest: seq<Byte>, n: nat, strict: bool)
    requires n > 0 && DoesOrCannot(i, v, address, code, strict)
    requires Copies(i, v, Wrap(address + |code|), rest, n - 1, strict)
    ensures Copies(i, v, address, code + rest, n, strict)
  {
    hide DoesOrCannot;
    var all, k := code + rest, |code|;
    assert all[..k] == code && all[k..] == rest;
  }

  /** The copies a pass appends agree with the label table. */
  ghost predicate Copied(cfg: Config, i: Instr, o: Operand, n: nat, st: Pass, st': Pass) {
    && |st.output| <= |st'.output|
    && Copies(i, if o.Operand? then o.value else 0, st.Address(cfg), st'.output[|st.output|..], n, !st'.tooFar)
  }

  lemma {:induction false} RepeatCopies(cfg: Config, i: Instr, o: Operand, n: nat, st: Pass)
    requires st.late && (n > 0 ==> o.Operand? && !o.undefined) && !Repeat(cfg, i, o, n, st).errors
    ensures Copied(cfg, i, o, n, st, Repeat(cfg, i, o, n, st))
  {
    if n > 0 {
      RepeatUnfolds(cfg, i, o, n, st);
      hide *;
      var mid := Assemble(cfg, i, o, st);
      AssembleKeeps(cfg, i, o, st);
      RepeatCopies(cfg, i, o, n - 1, mid);
      RepeatGrows(cfg, i, o, n - 1, mid);
      CopiedStep(cfg, i, o, n, st, Repeat(cfg, i, o, n, st));
    }
  }

  lemma CopiedStep(cfg: Config, i: Instr, o: Operand, n: nat, st: Pass, st': Pass)
    requires n > 0 && st.late && o.Operand? && !o.undefined && !st'.errors
    requires Grows(Assemble(cfg, i, o, st), st') && Copied(cfg, i, o, n - 1, Assemble(cfg, i, o, st), st')
    ensures Copied(cfg, i, o, n, st, st')
  {
    hide Copies, DoesOrCannot, Encode;
    var mid := Assemble(cfg, i, o, st);
    GrowsOutput(mid, st');
    AssembleDoes(cfg, i, o, st);
    hide Assemble, Grows;
    var code, rest := Encode(i, o, st.Address(cfg), true).code, st'.output[|mid.output|..];
    Loosen(i, o.value, st.Address(cfg), code, !mid.tooFar, !st'.tooFar);
    OneMoreCopy(i, o.value, st.Address(cfg), code, rest, n, !st'.tooFar);
    assert st'.output == st'.output[..|mid.output|] + rest;
    assert st'.output[|st.output|..] == code + rest;
  }

  lemma RepeatUnfolds(cfg: Config, i: Instr, o: Operand, n: nat, st: Pass)
    requires n > 0
    ensures Repeat(cfg, i, o, n, st) == Repeat(cfg, i, o, n - 1, Assemble(cfg, i, o, st))
  {
  }

  lemma GrowsOutput(a: Pass, b: Pass)
    requires Grows(a, b) && a.late
    ensures b.late && |a.output| <= |b.output| && b.output[..|a.output|] == a.output
    ensures (a.tooFar ==> b.tooFar) && (a.errors ==> b.errors)
  {
  }

  lemma AssembleKeeps(cfg: Config, i: Instr, o: Operand, st: Pass)
    ensures Assemble(cfg, i, o, st).late == st.late
  {
  }

  /** One line of a late pass that ends clean. */
  lemma LineStep(cfg: Config, line: Line, st: Pass)
    requires st.late && Clean(DoLine(cfg, line, st))
    ensures var st' := DoLine(cfg, line, st);
            && st'.labels == st.labels && |st.output| <= |st'.output|
            && LineAgrees(cfg, line, st.labels, st.Address(cfg), st'.output[|st.output|..], !st'.tooFar)
  {
    hide Evaluate, Encode, Does, Padding;
    var here := st.Address(cfg);
    LineGrows(cfg, line, st);
    match line
    case DefLabel(_) =>
    case Equ(_, ts) => LateOperands(cfg, ts, st.labels, here);
    case Code(instr) =>
      LateOperands(cfg, instr.operand, st.labels, here);
      NoOperandFails(cfg, instr, Evaluate(cfg, instr.operand, st.labels, here, true), st);
      AssembleDoes(cfg, instr, Evaluate(cfg, instr.operand, st.labels, here, true), st);
    case Times(ts, instr) =>
      LateOperands(cfg, ts, st.labels, here);
      LateOperands(cfg, instr.operand, st.labels, here);
      var n, o := Evaluate(cfg, ts, st.labels, here, true), Evaluate(cfg, instr.operand, st.labels, here, true);
      if n.value > 0 {
        RepeatGrows(cfg, instr, o, n.value - 1, Assemble(cfg, instr, o, Note(n, st)));
        NoOperandFails(cfg, instr, o, Note(n, st));
      }
      RepeatCopies(cfg, instr, o, n.value, Note(n, st));
      assert Copied(cfg, instr, o, n.value, st, DoLine(cfg, line, st));
    case Align(ts) =>
      LateOperands(cfg, ts, st.labels, here);
      PaddingAligns(here, Evaluate(cfg, ts, st.labels, here, true).value);
  }

  lemma NoOperandFails(cfg: Config, i: Instr, o: Operand, st: Pass)
    requires !Assemble(cfg, i, o, st).errors
    ensures o.Operand? && !o.complaint
  {
  }

  lemma DoLinesUnfolds(cfg: Config, lines: seq<Line>, k: nat, st: Pass)
    requires k < |lines|
    ensures DoLines(cfg, lines[..k + 1], st) == DoLine(cfg, lines[k], DoLines(cfg, lines[..k], st))
  {
    assert lines[..k + 1][..k] == lines[..k];
  }

  /** After an ALIGN line without a report, in any pass, the address is a multiple, unless that is 2^32 or more. */
  lemma AlignedAddress(cfg: Config, ts: seq<Token>, st: Pass)
    requires !DoLine(cfg, Align(ts), st).errors
    ensures var o := Evaluate(cfg, ts, st.labels, st.Address(cfg), st.late);
            var size' := DoLine(cfg, Align(ts), st).size;
            && o.Operand? && 0 < o.value && st.size <= size' < st.size + o.value
            && (st.Address(cfg) + (size' - st.size)) % o.value == 0
            && (st.Address(cfg) + (size' - st.size) < TWO_TO_THE_32 ==>
                DoLine(cfg, Align(ts), st).Address(cfg) % o.value == 0)
  {
    hide Evaluate, Padding, Wrap;
    var here := st.Address(cfg);
    var o := Evaluate(cfg, ts, st.labels, here, st.late);
    PaddingAligns(here, o.value);
    var from: int, gap: int := here, Padding(here, o.value);
    WrapSum(cfg.start + st.size, gap);
    WrapOfSmall(from + gap);
    assert cfg.start + (st.size + gap) == cfg.start + st.size + gap;
  }

  lemma WrapOfSmall(x: nat)
    ensures x < TWO_TO_THE_32 ==> Wrap(x) == x
  {
  }

  /** In a clean late pass the label table is the same before every line. */
  lemma {:induction false} StableTable(cfg: Config, lines: seq<Line>, k: nat, st: Pass)
    requires st.late && k <= |lines| && Clean(DoLines(cfg, lines, st))
    ensures DoLines(cfg, lines[..k], st).labels == st.labels
    ensures DoLines(cfg, lines[..k], st).late && Clean(DoLines(cfg, lines[..k], st))
  {
    LinesGrow(cfg, lines, k, st);
    LinesGrow(cfg, lines, 0, st);
    assert lines[..0] == [];
    if k > 0 {
      StableTable(cfg, lines, k - 1, st);
      DoLinesUnfolds(cfg, lines, k - 1, st);
      LineStep(cfg, lines[k - 1], DoLines(cfg, lines[..k - 1], st));
    }
  }

  lemma {:induction false} CopiesLoosen(i: Instr, v: Word, address: Word, code: seq<Byte>, n: nat,
                                        strict: bool, strict': bool)
    requires Copies(i, v, address, code, n, strict) && (strict' ==> strict)
    ensures Copies(i, v, address, code, n, strict')
    decreases n
  {
    if n > 0 {
      var k :| 0 <= k <= |code| && DoesOrCannot(i, v, address, code[..k], strict)
               && Copies(i, v, Wrap(address + k), code[k..], n - 1, strict);
      CopiesLoosen(i, v, Wrap(address + k), code[k..], n - 1, strict, strict');
      Loosen(i, v, address, code[..k], strict, strict');
    }
  }

  lemma LineLoosen(cfg: Config, line: Line, labels: map<Name, Word>, address: Word, code: seq<Byte>,
                   strict: bool, strict': bool)
    requires LineAgrees(cfg, line, labels, address, code, strict) && (strict' ==> strict)
    ensures LineAgrees(cfg, line, labels, address, code, strict')
  {
    hide Evaluate, Copies, Does;
    if line.Times? {
      var n, o := Evaluate(cfg, line.operand, labels, address, true),
                  Evaluate(cfg, line.instr.operand, labels, address, true);
      CopiesLoosen(line.instr, if o.Operand? then o.value else 0, address, code, n.value, strict, strict');
    }
  }

  /** The bytes emitted for line k of a program, cut out of the output of the pass. */
  ghost function CodeOf(cfg: Config, lines: seq<Line>, k: nat, st: Pass): seq<Byte>
    requires k < |lines| && st.late && |st.output| == st.size
  {
    LinesGrow(cfg, lines, k + 1, st);
    LinesGrow(cfg, lines[..k + 1], k, st);
    LinesGrow(cfg, lines[..k + 1], 0, st);
    assert lines[..k + 1][..k] == lines[..k] && lines[..k + 1][..0] == [];
    DoLines(cfg, lines, st).output[DoLines(cfg, lines[..k], st).size..DoLines(cfg, lines[..k + 1], st).size]
  }

  /**
   * A late pass that ends without a changed label and without a message read
   * every label, before and after its definition, at its final value: the
   * output agrees, line by line, with the one table it ends with.
   */
  lemma CleanPassAgrees(cfg: Config, lines: seq<Line>, k: nat, st: Pass)
    requires k < |lines| && st.late && |st.output| == st.size && Clean(DoLines(cfg, lines, st))
    ensures var end := DoLines(cfg, lines, st);
            && end.labels == st.labels
            && LineAgrees(cfg, lines[k], end.labels, DoLines(cfg, lines[..k], st).Address(cfg),
                          CodeOf(cfg, lines, k, st), !end.tooFar)
  {
    hide LineAgrees, DoLine, DoLines;
    StableTable(cfg, lines, k, st);
    StableTable(cfg, lines, k + 1, st);
    StableTable(cfg, lines, |lines|, st);
    assert lines[..|lines|] == lines;
    DoLinesUnfolds(cfg, lines, k, st);
    var a, b, end := DoLines(cfg, lines[..k], st), DoLines(cfg, lines[..k + 1], st), DoLines(cfg, lines, st);
    LineStep(cfg, lines[k], a);
    LinesGrow(cfg, lines, k + 1, st);
    LinesGrow(cfg, lines[..k + 1], k, st);
    LinesGrow(cfg, lines[..k], 0, st);
    assert lines[..k + 1][..k] == lines[..k] && lines[..k][..0] == [];
    NoLines(cfg, st);
    assert |a.output| == a.size && |b.output| == b.size;
    assert end.output[..|b.output|] == b.output;
    assert end.output[a.size..b.size] == b.output[|a.output|..];
    LineLoosen(cfg, lines[k], st.labels, a.Address(cfg), b.output[|a.output|..], !b.tooFar, !end.tooFar);
  }

  lemma NoLines(cfg: Config, st: Pass)
    ensures DoLines(cfg, [], st) == st
  {
  }

  // ----- which labels exist -----

  ghost predicate Defines(line: Line, name: Name) {
    (line.DefLabel? || line.Equ?) && line.name == name
  }

  /** Pass 0 without a message leaves exactly the program's labels in the table. */
  lemma {:induction false} FirstPassDefines(cfg: Config, lines: seq<Line>, st: Pass, name: Name)
    requires !st.late && st.labels == map[] && !DoLines(cfg, lines, st).errors
    ensures name in DoLines(cfg, lines, st).labels <==> exists line :: line in lines && Defines(line, name)
  {
    if lines != [] {
      var init, last := lines[..|lines| - 1], lines[|lines| - 1];
      var mid := DoLines(cfg, init, st);
      LineGrows(cfg, last, mid);
      LinesGrow(cfg, init, 0, st);
      assert init[..0] == [] && lines == init + [last];
      NoLines(cfg, st);
      FirstPassDefines(cfg, init, st, name);
      LineDefines(cfg, last, mid, name);
    }
  }

  lemma LineDefines(cfg: Config, line: Line, st: Pass, name: Name)
    requires !DoLine(cfg, line, st).errors
    ensures name in DoLine(cfg, line, st).labels <==> name in st.labels || Defines(line, name)
  {
    LineLabels(cfg, line, st);
    hide DoLine;
    assert name in DoLine(cfg, line, st).labels <==> name in DoLine(cfg, line, st).labels.Keys;
  }

  /** Only label and EQU lines touch the table, and only at their own name. */
  lemma LineLabels(cfg: Config, line: Line, st: Pass)
    ensures var st' := DoLine(cfg, line, st);
            if line.DefLabel? || line.Equ? then
              && (!st'.errors ==> line.name in st'.labels)
              && (st'.labels.Keys == st.labels.Keys
                  || (!st.late && st'.labels.Keys == st.labels.Keys + {line.name}))
            else st'.labels == st.labels
  {
    hide Evaluate, CreateLabel, Repeat, Grows, Assemble, Padding, Nops;
    var here := st.Address(cfg);
    match line
    case DefLabel(name) => CreatedLabel(name, here, st);
    case Equ(name, ts) =>
      var o := Evaluate(cfg, ts, st.labels, here, st.late);
      CreatedLabel(name, if o.Operand? then o.value else 0, Note(o, st));
    case Code(instr) =>
      var o := Evaluate(cfg, instr.operand, st.labels, here, st.late);
      RepeatGrows(cfg, instr, o, 1, st);
      RepeatOnce(cfg, instr, o, st);
    case Times(ts, instr) =>
      var n := Evaluate(cfg, ts, st.labels, here, st.late);
      if n.Operand? && !IsNegative(n.value) {
        RepeatGrows(cfg, instr, Evaluate(cfg, instr.operand, st.labels, here, st.late), n.value, Note(n, st));
      }
    case Align(_) =>
  }

  lemma CreatedLabel(name: Name, value: Word, st: Pass)
    ensures var st' := CreateLabel(name, value, st);
            && (!st'.errors ==> name in st'.labels)
            && (st'.labels.Keys == st.labels.Keys || (!st.late && st'.labels.Keys == st.labels.Keys + {name}))
  {
  }

  lemma LineKeepsKeys(cfg: Config, line: Line, st: Pass)
    requires st.late
    ensures DoLine(cfg, line, st).labels.Keys == st.labels.Keys
  {
    LineLabels(cfg, line, st);
  }
}
