/** do_assembly and the pass loop of main, on the assembler's variables. */
module Assembler {
  import opened Common
  import opened Names
  import opened Words
  import opened Grammar
  import opened MatchExpression
  import opened JumpCode
  import opened Passes
  import opened PassLoop
  import opened WholeRuns

  class Assembler {
    const cfg: Config
    var assemblerPass: nat
    var labels: map<Name, Word>
    var currentAddress: Word
    var haveLabelsChanged: bool
    var jumpRangeBits: nat
    var errors: bool
    var output: seq<Byte>
    ghost var size: nat

    ghost predicate Valid()
      reads this
    {
      currentAddress == Wrap(cfg.start + size) && jumpRangeBits < 4
    }

    /** The state of the pass, as a value. */
    ghost function Snapshot(): Pass
      reads this
    {
      Pass(assemblerPass > 1, labels, size, output, haveLabelsChanged,
           jumpRangeBits % 2 == 1, jumpRangeBits >= 2, errors)
    }

    constructor (cfg: Config)
      ensures Valid() && this.cfg == cfg && Snapshot() == Pass(false, map[], 0, [], false, false, false, false)
    {
      this.cfg := cfg;
      assemblerPass, labels, currentAddress, haveLabelsChanged := 0, map[], cfg.start, false;
      jumpRangeBits, errors, output, size := 0, false, [], 0;
    }

    method CreateLabel(name: Name, value: Word)
      requires Valid()
      modifies this
      ensures Valid() && Snapshot() == Passes.CreateLabel(name, value, old(Snapshot()))
      ensures assemblerPass == old(assemblerPass)
    {
      if assemblerPass <= 1 {
        if name !in labels { labels := labels[name := value]; } else { errors := true; }
      } else if name !in labels {
        errors := true;
      } else {
        if labels[name] != value { haveLabelsChanged := true; }
        labels := labels[name := value];
      }
    }

    method EmitBytes(code: seq<Byte>)
      requires Valid()
      modifies this
      ensures Valid() && Snapshot() == Emit(code, old(Snapshot()))
      ensures assemblerPass == old(assemblerPass) && labels == old(labels)
    {
      WrapSum(cfg.start + size, |code|);
      currentAddress := Wrap(currentAddress + |code|);
      size := size + |code|;
      if assemblerPass > 1 { output := output + code; }
    }

    /** match_expression on a whole operand, for a line that began at `here`. */
    method MatchOperand(ts: seq<Token>, here: Word) returns (o: Operand)
      ensures o == Evaluate(cfg, ts, labels, here, assemblerPass > 1)
    {
      hide Expr, TooDeep;
      var evaluator := new Evaluator();
      var r := evaluator.MatchExpression(ts, 0, Env(labels, here, cfg.start, assemblerPass > 1), 0);
      match r
      case Matched(pos, value, flags) => o := Operand(value, flags.undefined, flags.errors > 0 || pos < |ts|);
      case _ => o := NoOperand;
    }

    /** match: the operand is evaluated for the line, the jump encoded for the current address. */
    method ProcessInstruction(i: Instr, here: Word)
      requires Valid()
      modifies this
      ensures Valid()
      ensures Snapshot() == Passes.Assemble(cfg, i, Evaluate(cfg, i.operand, old(labels), here, assemblerPass > 1),
                                     old(Snapshot()))
      ensures assemblerPass == old(assemblerPass) && labels == old(labels)
    {
      hide Evaluate, Encode, Emit;
      var late := assemblerPass > 1;
      var o := MatchOperand(i.operand, here);
      var e := Encode(i, o, currentAddress, late);
      NoteErrors(e);
      EmitBytes(e.code);
    }

    /** A short jump out of range is noted in bit 0 of jump_range_bits, and reported if bit 1 is set. */
    method NoteErrors(e: Encoding)
      requires Valid()
      modifies this`errors, this`jumpRangeBits
      ensures Valid()
      ensures var st := old(Snapshot());
              Snapshot() == st.(tooFar := st.tooFar || e.tooFar,
                                errors := st.errors || e.error || (e.tooFar && st.reportTooFar))
    {
      if e.error { errors := true; }
      if e.tooFar {
        jumpRangeBits := jumpRangeBits - jumpRangeBits % 2 + 1;
        if jumpRangeBits >= 2 { errors := true; }
      }
    }

    method ProcessLine(line: Line)
      requires Valid()
      modifies this
      ensures Valid() && Snapshot() == DoLine(cfg, line, old(Snapshot()))
      ensures assemblerPass == old(assemblerPass)
    {
      hide Evaluate, Encode, Padding, Assemble;
      var lineAddress, late := currentAddress, assemblerPass > 1;
      match line {
        case DefLabel(name) => CreateLabel(name, lineAddress);
        case Equ(name, ts) =>
          var o := MatchOperand(ts, lineAddress);
          if o.NoOperand? || o.complaint { errors := true; }
          CreateLabel(name, if o.Operand? then o.value else 0);
        case Code(instr) => ProcessInstruction(instr, lineAddress);
        case Times(ts, instr) =>
          var o := MatchOperand(ts, lineAddress);
          if o.NoOperand? || o.undefined || IsNegative(o.value) {
            errors := true;
          } else {
            if o.complaint { errors := true; }
            var times := o.value;
            ghost var st, p := Snapshot(), Evaluate(cfg, instr.operand, labels, lineAddress, late);
            while times != 0
              invariant 0 <= times <= o.value
              invariant Valid() && labels == st.labels && assemblerPass == old(assemblerPass)
              invariant Repeat(cfg, instr, p, times, Snapshot()) == Repeat(cfg, instr, p, o.value, st)
            {
              ProcessInstruction(instr, lineAddress);
              times := times - 1;
            }
          }
        case Align(ts) =>
          var o := MatchOperand(ts, lineAddress);
          if o.NoOperand? || o.undefined || o.value == 0 || IsNegative(o.value) {
            errors := true;
          } else {
            if o.complaint { errors := true; }
            EmitBytes(Nops(Padding(lineAddress, o.value)));
          }
      }
    }

    /** reset_address and do_assembly: one pass over the program. */
    method DoAssembly(prog: seq<Line>)
      requires Valid()
      modifies this
      ensures Valid() && assemblerPass == old(assemblerPass)
      ensures var st := old(Snapshot());
              Snapshot() == DoLines(cfg, prog, st.(size := 0, output := [], changed := false, tooFar := false))
    {
      hide DoLines, DoLine;
      currentAddress, size, output := cfg.start, 0, [];
      haveLabelsChanged := false;
      jumpRangeBits := jumpRangeBits - jumpRangeBits % 2;
      ghost var st := Snapshot();
      assert st == old(Snapshot().(size := 0, output := [], changed := false, tooFar := false));
      var i := 0;
      NoLines(cfg, st);
      assert prog[..0] == [];
      while i < |prog|
        invariant i <= |prog|
        invariant Valid() && assemblerPass == old(assemblerPass)
        invariant Snapshot() == DoLines(cfg, prog[..i], st)
      {
        DoLinesUnfolds(cfg, prog, i, st);
        ProcessLine(prog[i]);
        i := i + 1;
      }
      assert prog[..|prog|] == prog;
    }

    /** What the loop of main remembers from pass to pass. */
    ghost function Between(curDir: int, deltaAcc: int, deltaAccMax: int, violations: nat): Loop
      reads this
    {
      Loop(labels, size, jumpRangeBits >= 2, curDir, deltaAcc, deltaAccMax, violations)
    }

    /** The delta violation heuristic of main. */
    static method CountViolation(difference: int, curDir: int, deltaAcc: int, deltaAccMax: int, violations: nat,
                                 ghost l: Loop)
      returns (curDir': int, deltaAcc': int, deltaAccMax': int, violations': nat)
      requires l.curDir == curDir && l.violations == violations
      requires l.deltaAcc == deltaAcc && l.deltaAccMax == deltaAccMax
      ensures CountDelta(l, difference) ==
              l.(curDir := curDir', deltaAcc := deltaAcc', deltaAccMax := deltaAccMax', violations := violations')
    {
      curDir', deltaAcc', deltaAccMax', violations' := curDir, deltaAcc, deltaAccMax, violations;
      var delta, deltaDir := difference, 0;
      if delta < 0 {
        delta, deltaDir := SignedWrap(0 - delta), -1;
      } else if delta > 0 {
        deltaDir := 1;
      }
      if deltaDir == 0 {
        violations' := violations + 1;
      } else if deltaDir == curDir {
        deltaAcc' := SignedWrap(deltaAcc + delta);
      } else {
        curDir' := deltaDir;
        if deltaAcc >= deltaAccMax {
          deltaAccMax' := deltaAcc;
          violations' := violations + 1;
        }
      }
    }

    /** One round of the loop of main. */
    method NextPass(prog: seq<Line>, curDir: int, deltaAcc: int, deltaAccMax: int, violations: nat, ghost l: Loop)
      returns (curDir': int, deltaAcc': int, deltaAccMax': int, violations': nat)
      requires Valid() && !errors && assemblerPass >= 1
      requires l == Between(curDir, deltaAcc, deltaAccMax, violations)
      modifies this
      ensures Valid() && assemblerPass >= 1
      ensures Next(cfg, prog, l) ==
              if errors then Failure
              else if !haveLabelsChanged then Success(labels, output)
              else Running(Between(curDir', deltaAcc', deltaAccMax', violations'))
    {
      hide DoLines, CountDelta;
      if assemblerPass < 0xffff { assemblerPass := assemblerPass + 1; }
      var prevAddress := currentAddress;
      assert LateStart(l) == Snapshot().(size := 0, output := [], changed := false, tooFar := false);
      DoAssembly(prog);
      assert Snapshot() == LatePass(cfg, prog, l);
      LinesGrow(cfg, prog, 0, LateStart(l));
      NoLines(cfg, LateStart(l));
      assert prog[..0] == [];
      curDir', deltaAcc', deltaAccMax', violations' := curDir, deltaAcc, deltaAccMax, violations;
      if !haveLabelsChanged && jumpRangeBits == 1 {
        jumpRangeBits, haveLabelsChanged := 2, true;
      }
      if haveLabelsChanged {
        curDir', deltaAcc', deltaAccMax', violations' :=
          CountViolation(SignedWrap(currentAddress - prevAddress), curDir, deltaAcc, deltaAccMax, violations, l);
        if violations' == MAX_VIOLATIONS { errors := true; }
      }
    }

    /**
     * The passes of main. It returns, and it reports success exactly when the
     * loop as a state machine does, with the file and the label table in
     * agreement.
     */
    method AssembleProgram(prog: seq<Line>, ghost bound: nat) returns (ok: bool, ghost n: nat)
      requires Valid() && Snapshot() == Pass(false, map[], 0, [], false, false, false, false)
      requires SizesWithin(cfg, prog, bound) && bound < 0x1000_0000
      modifies this
      ensures After(cfg, prog, n) == if ok then Success(labels, output) else Failure
      ensures ok ==> Assembled(cfg, prog, labels, output)
      ensures Bounded(cfg, prog, n, bound) ==>
        (ok <==> exists k :: 0 <= k <= n && SucceedsAt(cfg, prog, k))
    {
      hide DoLines, Assembled, Next, Rank, Counting, Bounded, SucceedsAt;
      n := 0;
      ghost var st0 := Snapshot();
      DoAssembly(prog);
      LinesGrow(cfg, prog, 0, st0);
      NoLines(cfg, st0);
      assert prog[..0] == [];
      if errors {
        if Bounded(cfg, prog, 0, bound) { RunExactly(cfg, prog, 0, bound); }
        return false, 0;
      }
      assemblerPass := 1;
      var curDir, deltaAcc, deltaAccMax, violations: nat := 1, 0, 0, 0;
      ghost var l := Between(curDir, deltaAcc, deltaAccMax, violations);
      assert After(cfg, prog, 0) == Running(l);
      FirstCount(cfg, prog, l, bound);
      while true
        invariant Valid() && !errors && assemblerPass >= 1
        invariant l == Between(curDir, deltaAcc, deltaAccMax, violations)
        invariant After(cfg, prog, n) == Running(l) && Counting(l, bound)
        decreases Rank(l, bound)
      {
        curDir, deltaAcc, deltaAccMax, violations := NextPass(prog, curDir, deltaAcc, deltaAccMax, violations, l);
        n := n + 1;
        assert After(cfg, prog, n) == Next(cfg, prog, l);
        RankPositive(l, bound);
        if Bounded(cfg, prog, n, bound) { RunExactly(cfg, prog, n, bound); }
        if errors { return false, n; }
        if !haveLabelsChanged {
          SuccessIsAssembled(cfg, prog, n);
          return true, n;
        }
        assert After(cfg, prog, n).loop.size <= bound;
        NextStep(cfg, prog, l, bound);
        l := Between(curDir, deltaAcc, deltaAccMax, violations);
      }
    }
  }

  lemma FirstCount(cfg: Config, prog: seq<Line>, l: Loop, bound: nat)
    requires After(cfg, prog, 0) == Running(l) && SizesWithin(cfg, prog, bound)
    ensures Counting(l, bound)
  {
    assert After(cfg, prog, 0).loop.size <= bound;
  }
}
