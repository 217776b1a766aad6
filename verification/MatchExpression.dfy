/**
 * match_expression: the evaluator that replaces recursion by a stack of frames
 * and a switch over resume points. A run of unary operators becomes one frame,
 * a run of open parentheses becomes one frame with a negative counter.
 */
module MatchExpression {
  import opened Words
  import opened Grammar

  // casei < 0: that many parentheses are still open; 2, 3: value1 minus, plus
  // the operand; 10 to 21: a binary operator with left operand value1.
  datatype Frame = Frame(casei: int, level: nat, value1: Word)

  predicate FrameOk(f: Frame) {
    && f.level <= 6
    && (-127 <= f.casei < 0 || f.casei == 2 || f.casei == 3
        || (10 <= f.casei <= 21 && f.level <= Tier(f.casei)))
  }

  // ----- what a stack of frames still has to do -----

  /** The tiers k, k - 1, ..., level applied in turn to what follows r. */
  ghost function Down(ts: seq<Token>, env: Env, k: int, level: nat, r: Outcome): (q: Outcome)
    requires k <= 5
    requires r.Value? ==> r.pos <= |ts|
    ensures q.Value? ==> r.Value? && r.pos <= q.pos <= |ts|
    decreases k
  {
    if k < level || r.Error? then r
    else Down(ts, env, k - 1, level, Rest(ts, env, k, r.value, r.pos, r.flags))
  }

  /** n closing parentheses around r; what is outside the last continues at the level. */
  ghost function CloseAll(ts: seq<Token>, env: Env, n: nat, level: nat, r: Outcome): (q: Outcome)
    requires n > 0 && (r.Value? ==> r.pos <= |ts|)
    ensures q.Value? ==> q.pos <= |ts|
  {
    var c := Closed(ts, r);
    if n == 1 then Down(ts, env, 5, level, c)
    else CloseAll(ts, env, n - 1, level, Down(ts, env, 5, 0, c))
  }

  /** value1 minus or plus the operand, for a folded run of unary operators. */
  function Joined(minus: bool, value1: Word, r: Outcome): Outcome {
    if r.Error? then r else r.(value := Wrap(if minus then value1 - r.value else value1 + r.value))
  }

  ghost function ResumeFrame(ts: seq<Token>, env: Env, f: Frame, r: Outcome): (q: Outcome)
    requires FrameOk(f) && (r.Value? ==> r.pos <= |ts|)
    ensures q.Value? ==> q.pos <= |ts|
  {
    if f.casei < 0 then CloseAll(ts, env, -f.casei, f.level, r)
    else if f.casei <= 3 then Down(ts, env, 5, f.level, Joined(f.casei == 2, f.value1, r))
    else Down(ts, env, Tier(f.casei), f.level, Combine(f.casei, f.value1, r, env.late))
  }

  /** The value of the whole expression once the innermost open part yields r. */
  ghost function Resume(ts: seq<Token>, env: Env, stack: seq<Frame>, r: Outcome): Outcome
    requires (forall f :: f in stack ==> FrameOk(f)) && (r.Value? ==> r.pos <= |ts|)
  {
    if stack == [] then r
    else Resume(ts, env, stack[..|stack| - 1], ResumeFrame(ts, env, stack[|stack| - 1], r))
  }

  lemma {:induction false} DownOfError(ts: seq<Token>, env: Env, k: int, level: nat, r: Outcome)
    requires k <= 5 && r.Error?
    ensures Down(ts, env, k, level, r) == r
  {
  }

  lemma {:induction false} CloseAllOfError(ts: seq<Token>, env: Env, n: nat, level: nat, r: Outcome)
    requires n > 0 && r.Error?
    ensures CloseAll(ts, env, n, level, r) == r
  {
    if n > 1 { CloseAllOfError(ts, env, n - 1, level, r); }
  }

  /** An error in the innermost part is the result of the whole. */
  lemma {:induction false} ResumeOfError(ts: seq<Token>, env: Env, stack: seq<Frame>, r: Outcome)
    requires (forall f :: f in stack ==> FrameOk(f)) && r.Error?
    ensures Resume(ts, env, stack, r) == r
  {
    if stack != [] {
      var f := stack[|stack| - 1];
      if f.casei < 0 { CloseAllOfError(ts, env, -f.casei, f.level, r); }
      ResumeOfError(ts, env, stack[..|stack| - 1], r);
    }
  }

  /** An expression of a level is a unary expression followed by all tiers down to it. */
  lemma {:induction false} ExprIsDown(ts: seq<Token>, env: Env, level: nat, p: nat, flags: Flags)
    requires level <= 6
    ensures Expr(ts, env, level, p, flags) == Down(ts, env, 5, level, Unary(ts, env, p, flags))
    decreases 6 - level
  {
    if level < 6 {
      ExprIsDown(ts, env, level + 1, p, flags);
      DownOneMore(ts, env, 5, level, Unary(ts, env, p, flags));
    }
  }

  lemma {:induction false} DownOneMore(ts: seq<Token>, env: Env, k: int, level: nat, r: Outcome)
    requires level <= k <= 5 && (r.Value? ==> r.pos <= |ts|)
    ensures var q := Down(ts, env, k, level + 1, r);
            Down(ts, env, k, level, r) ==
            if q.Error? then q else Rest(ts, env, level, q.value, q.pos, q.flags)
    decreases k
  {
    if r.Value? {
      var s := Rest(ts, env, k, r.value, r.pos, r.flags);
      if k > level {
        DownOneMore(ts, env, k - 1, level, s);
      }
    }
  }

  /** n parentheses opened from p on, evaluated as one frame with counter -n. */
  lemma {:induction false} OpenParens(ts: seq<Token>, env: Env, level: nat, p: nat, n: nat, flags: Flags)
    requires level <= 6 && n > 0 && p + n <= |ts|
    requires forall i :: p <= i < p + n ==> ts[i] == LParen
    ensures CloseAll(ts, env, n, level, Expr(ts, env, 0, p + n, flags)) == Expr(ts, env, level, p, flags)
  {
    hide Unary, Expr, Rest, Down, Closed;
    ParenIsClosed(ts, env, p + n - 1, flags);
    if n == 1 {
      ExprIsDown(ts, env, level, p, flags);
    } else {
      ExprIsDown(ts, env, 0, p + n - 1, flags);
      OpenParens(ts, env, level, p, n - 1, flags);
    }
  }

  lemma ParenIsClosed(ts: seq<Token>, env: Env, p: nat, flags: Flags)
    requires p < |ts| && ts[p] == LParen
    ensures Unary(ts, env, p, flags) == Closed(ts, Expr(ts, env, 0, p + 1, flags))
  {
  }

  /** A run of unary operators read so far, then the unary expression at p. */
  ghost predicate Folded(ts: seq<Token>, env: Env, whole: Outcome, minus: bool, value1: Word, p: nat, flags: Flags) {
    whole == Joined(minus, value1, Unary(ts, env, p, flags))
  }

  /** One more unary operator goes into the sign and the delta. */
  lemma FoldOne(ts: seq<Token>, env: Env, whole: Outcome, minus: bool, value1: Word, p: nat, flags: Flags)
    requires p < |ts| && Folded(ts, env, whole, minus, value1, p, flags)
    ensures ts[p] == Plus ==> Folded(ts, env, whole, minus, value1, p + 1, flags)
    ensures ts[p] == Minus ==> Folded(ts, env, whole, !minus, value1, p + 1, flags)
    ensures ts[p] == Tilde ==>
      Folded(ts, env, whole, !minus, Wrap(if minus then value1 + 1 else value1 - 1), p + 1, flags)
  {
    UnaryPrefix(ts, env, p, flags);
    var r := Unary(ts, env, p + 1, flags);
    hide Unary;
    FoldNegate(minus, value1, r);
    FoldComplement(minus, value1, r);
  }

  /** The whole run is one frame around the operand at p. */
  lemma AllFolded(ts: seq<Token>, env: Env, f: Frame, start: nat, p: nat, flags: Flags)
    requires p <= |ts| && f.level <= 6 && (f.casei == 2 || f.casei == 3)
    requires At(ts, p) != Minus && At(ts, p) != Plus && At(ts, p) != Tilde
    requires Folded(ts, env, Unary(ts, env, start, flags), f.casei == 2, f.value1, p, flags)
    requires UnaryDepth(ts, env, start, Nothing, flags) == 1 + UnaryDepth(ts, env, p, Sign, flags)
    ensures var r := Expr(ts, env, 6, p, flags);
            && Expr(ts, env, f.level, start, flags) == ResumeFrame(ts, env, f, r)
            && ExprDepth(ts, env, f.level, start, Nothing, flags) ==
               Max(1 + ExprDepth(ts, env, 6, p, Nothing, flags), FrameDepth(ts, env, f, r))
  {
    hide Unary, UnaryDepth, Expr, ExprDepth, Down, DownDepth, CloseAll, CloseAllDepth, Joined;
    UnaryIsExpr(ts, env, p, flags);
    ExprDepthIsDown(ts, env, f.level, start, Nothing, flags);
    ExprIsDown(ts, env, f.level, start, flags);
    BeforeOther(ts, env, 6, p, Sign, flags);
  }

  lemma UnaryPrefix(ts: seq<Token>, env: Env, p: nat, flags: Flags)
    requires p < |ts|
    ensures ts[p] == Plus ==> Unary(ts, env, p, flags) == Unary(ts, env, p + 1, flags)
    ensures ts[p] == Minus ==> Unary(ts, env, p, flags) == Negate(Unary(ts, env, p + 1, flags))
    ensures ts[p] == Tilde ==> Unary(ts, env, p, flags) == Complement(Unary(ts, env, p + 1, flags))
  {
  }

  lemma FoldNegate(minus: bool, d: Word, r: Outcome)
    ensures Joined(minus, d, Negate(r)) == Joined(!minus, d, r)
  {
    if r.Value? { WrapSum(d, 0 - r.value); }
  }

  lemma FoldComplement(minus: bool, d: Word, r: Outcome)
    ensures Joined(minus, d, Complement(r)) == Joined(!minus, Wrap(if minus then d + 1 else d - 1), r)
  {
    if r.Value? {
      WrapSum(d, -1 - r.value);
      WrapSum(if minus then d + 1 else d - 1, if minus then r.value else 0 - r.value);
    }
  }

  /** The loop of a tier finds an operator: its right operand comes next. */
  lemma DownAtOp(ts: seq<Token>, env: Env, tier: nat, level: nat, v: Word, p: nat, flags: Flags)
    requires level <= tier <= 5 && p <= |ts| && OpAt(ts, p, tier) != 0
    ensures Down(ts, env, tier, level, Value(v, p, flags)) ==
            Down(ts, env, tier, level,
                 Combine(OpAt(ts, p, tier), v, Expr(ts, env, tier + 1, p + 1, flags), env.late))
  {
  }

  /** The loop of a tier is skipped or finds nothing. */
  lemma DownPastTier(ts: seq<Token>, env: Env, tier: nat, level: nat, v: Word, p: nat, flags: Flags)
    requires tier <= 5 && p <= |ts| && (tier < level || OpAt(ts, p, tier) == 0)
    ensures Down(ts, env, tier, level, Value(v, p, flags)) ==
            if tier == 0 then Value(v, p, flags) else Down(ts, env, tier - 1, level, Value(v, p, flags))
  {
    if tier > 0 && tier < level {
      assert Down(ts, env, tier - 1, level, Value(v, p, flags)) == Value(v, p, flags);
    }
  }

  // ----- the frames that takes -----

  /** What Down adds: the frames of the operators of tiers k to level. */
  ghost function DownDepth(ts: seq<Token>, env: Env, k: int, level: nat, r: Outcome): nat
    requires k <= 5
    requires r.Value? ==> r.pos <= |ts|
    decreases k
  {
    if k < level || r.Error? then 0
    else
      Max(RestDepth(ts, env, k, r.value, r.pos, r.flags),
          DownDepth(ts, env, k - 1, level, Rest(ts, env, k, r.value, r.pos, r.flags)))
  }

  /** Behind all but the last parenthesis, the frame of the others is still there. */
  ghost function CloseAllDepth(ts: seq<Token>, env: Env, n: nat, level: nat, r: Outcome): nat
    requires n > 0 && (r.Value? ==> r.pos <= |ts|)
  {
    var c := Closed(ts, r);
    if n == 1 || c.Error? then DownDepth(ts, env, 5, level, c)
    else
      Max(1 + DownDepth(ts, env, 5, 0, c), CloseAllDepth(ts, env, n - 1, level, Down(ts, env, 5, 0, c)))
  }

  ghost function FrameDepth(ts: seq<Token>, env: Env, f: Frame, r: Outcome): nat
    requires FrameOk(f) && (r.Value? ==> r.pos <= |ts|)
  {
    if f.casei < 0 then CloseAllDepth(ts, env, -f.casei, f.level, r)
    else if f.casei <= 3 then DownDepth(ts, env, 5, f.level, Joined(f.casei == 2, f.value1, r))
    else DownDepth(ts, env, Tier(f.casei), f.level, Combine(f.casei, f.value1, r, env.late))
  }

  /** The most slots in use from when the innermost open part yields r. */
  ghost function ResumeDepth(ts: seq<Token>, env: Env, stack: seq<Frame>, r: Outcome): nat
    requires (forall f :: f in stack ==> FrameOk(f)) && (r.Value? ==> r.pos <= |ts|)
  {
    if stack == [] then 0
    else
      var rest, f := stack[..|stack| - 1], stack[|stack| - 1];
      Max(|rest| + FrameDepth(ts, env, f, r), ResumeDepth(ts, env, rest, ResumeFrame(ts, env, f, r)))
  }

  lemma {:induction false} CloseAllDepthOfError(ts: seq<Token>, env: Env, n: nat, level: nat, r: Outcome)
    requires n > 0 && (r.Error? || (r.pos <= |ts| && At(ts, r.pos) != RParen))
    ensures CloseAllDepth(ts, env, n, level, r) == 0
  {
  }

  lemma {:induction false} ResumeDepthOfError(ts: seq<Token>, env: Env, stack: seq<Frame>, r: Outcome)
    requires (forall f :: f in stack ==> FrameOk(f)) && r.Error?
    ensures ResumeDepth(ts, env, stack, r) <= |stack|
  {
    if stack != [] {
      var f := stack[|stack| - 1];
      if f.casei < 0 {
        CloseAllOfError(ts, env, -f.casei, f.level, r);
        CloseAllDepthOfError(ts, env, -f.casei, f.level, r);
      }
      ResumeDepthOfError(ts, env, stack[..|stack| - 1], r);
    }
  }

  /** The frames of a unary expression, and those of the tiers after it. */
  lemma {:induction false} ExprDepthIsDown(ts: seq<Token>, env: Env, level: nat, p: nat, before: Before, flags: Flags)
    requires level <= 6
    ensures ExprDepth(ts, env, level, p, before, flags) ==
            Max(UnaryDepth(ts, env, p, before, flags), DownDepth(ts, env, 5, level, Unary(ts, env, p, flags)))
    decreases 6 - level
  {
    if level < 6 {
      ExprDepthIsDown(ts, env, level + 1, p, before, flags);
      ExprIsDown(ts, env, level + 1, p, flags);
      hide Unary, UnaryDepth;
      DownDepthOneMore(ts, env, 5, level, Unary(ts, env, p, flags));
    }
  }

  lemma {:induction false} DownDepthOneMore(ts: seq<Token>, env: Env, k: int, level: nat, r: Outcome)
    requires level <= k <= 5 && (r.Value? ==> r.pos <= |ts|)
    ensures var q, d := Down(ts, env, k, level + 1, r), DownDepth(ts, env, k, level + 1, r);
            DownDepth(ts, env, k, level, r) ==
            if q.Error? then d else Max(d, RestDepth(ts, env, level, q.value, q.pos, q.flags))
    decreases k
  {
    hide Rest, RestDepth;
    if r.Value? && k > level {
      DownDepthOneMore(ts, env, k - 1, level, Rest(ts, env, k, r.value, r.pos, r.flags));
    }
  }

  /** What an operand follows matters only if it starts in the same way. */
  lemma BeforeOther(ts: seq<Token>, env: Env, level: nat, p: nat, before: Before, flags: Flags)
    requires level <= 6
    requires before == Nothing || (before.Parens? && (before.n == 127 || At(ts, p) != LParen))
             || (before == Sign && At(ts, p) != Minus && At(ts, p) != Plus && At(ts, p) != Tilde)
    ensures ExprDepth(ts, env, level, p, before, flags) == ExprDepth(ts, env, level, p, Nothing, flags)
  {
    ExprDepthIsDown(ts, env, level, p, before, flags);
    ExprDepthIsDown(ts, env, level, p, Nothing, flags);
  }

  /** n parentheses opened from p on take one frame. */
  lemma {:induction false} OpenParensDepth(ts: seq<Token>, env: Env, level: nat, p: nat, n: nat, flags: Flags)
    requires level <= 6 && 0 < n <= 127 && p + n <= |ts|
    requires forall i :: p <= i < p + n ==> ts[i] == LParen
    ensures ExprDepth(ts, env, level, p, Nothing, flags) ==
            Max(1 + ExprDepth(ts, env, 0, p + n, Parens(n), flags),
                CloseAllDepth(ts, env, n, level, Expr(ts, env, 0, p + n, flags)))
  {
    hide Unary, UnaryDepth, Expr, ExprDepth, Rest, RestDepth, Down, DownDepth, Closed;
    ParenIsClosed(ts, env, p + n - 1, flags);
    ParenTakesFrame(ts, env, p + n - 1, if n == 1 then Nothing else Parens(n - 1), flags);
    if n == 1 {
      ExprDepthIsDown(ts, env, level, p, Nothing, flags);
    } else {
      var u := Unary(ts, env, p + n - 1, flags);
      ExprIsDown(ts, env, 0, p + n - 1, flags);
      ExprDepthIsDown(ts, env, 0, p + n - 1, Parens(n - 1), flags);
      OpenParensDepth(ts, env, level, p, n - 1, flags);
      if u.Error? {
        DownOfError(ts, env, 5, 0, u);
        CloseAllDepthOfError(ts, env, n - 1, level, u);
        DownDepthOfError(ts, env, 5, 0, u);
        DownDepthOfError(ts, env, 5, level, u);
      }
    }
  }

  lemma DownDepthOfError(ts: seq<Token>, env: Env, k: int, level: nat, r: Outcome)
    requires k <= 5 && r.Error?
    ensures DownDepth(ts, env, k, level, r) == 0
  {
  }

  lemma ParenTakesFrame(ts: seq<Token>, env: Env, p: nat, before: Before, flags: Flags)
    requires p < |ts| && ts[p] == LParen && (before == Nothing || (before.Parens? && before.n < 127))
    ensures UnaryDepth(ts, env, p, before, flags) ==
            if before == Nothing then 1 + ExprDepth(ts, env, 0, p + 1, Parens(1), flags)
            else ExprDepth(ts, env, 0, p + 1, Parens(before.n + 1), flags)
  {
  }

  lemma DownDepthAtOp(ts: seq<Token>, env: Env, tier: nat, level: nat, v: Word, p: nat, flags: Flags)
    requires level <= tier <= 5 && p <= |ts| && OpAt(ts, p, tier) != 0
    ensures DownDepth(ts, env, tier, level, Value(v, p, flags)) ==
            Max(1 + ExprDepth(ts, env, tier + 1, p + 1, Nothing, flags),
                DownDepth(ts, env, tier, level,
                          Combine(OpAt(ts, p, tier), v, Expr(ts, env, tier + 1, p + 1, flags), env.late)))
  {
  }

  lemma DownDepthPastTier(ts: seq<Token>, env: Env, tier: nat, level: nat, v: Word, p: nat, flags: Flags)
    requires tier <= 5 && p <= |ts| && (tier < level || OpAt(ts, p, tier) == 0)
    ensures DownDepth(ts, env, tier, level, Value(v, p, flags)) ==
            if tier == 0 then 0 else DownDepth(ts, env, tier - 1, level, Value(v, p, flags))
  {
    if tier > 0 && tier < level {
      assert DownDepth(ts, env, tier - 1, level, Value(v, p, flags)) == 0;
    }
  }

  // ----- the whole expression -----

  // Its outcome, and whether it needs all slots of the stack on the way.
  datatype Whole = Whole(outcome: Outcome, tooDeep: bool)

  /** The whole, if the innermost open part takes that many more frames and yields r. */
  ghost function Finish(ts: seq<Token>, env: Env, stack: seq<Frame>, depth: nat, r: Outcome): Whole
    requires (forall f :: f in stack ==> FrameOk(f)) && (r.Value? ==> r.pos <= |ts|)
  {
    Whole(Resume(ts, env, stack, r), Max(|stack| + depth, ResumeDepth(ts, env, stack, r)) >= STACK_DEPTH)
  }

  lemma FinishPushed(ts: seq<Token>, env: Env, stack: seq<Frame>, f: Frame, depth: nat, r: Outcome)
    requires (forall g :: g in stack ==> FrameOk(g)) && FrameOk(f) && (r.Value? ==> r.pos <= |ts|)
    ensures Finish(ts, env, stack + [f], depth, r) ==
            Finish(ts, env, stack, Max(1 + depth, FrameDepth(ts, env, f, r)), ResumeFrame(ts, env, f, r))
  {
    hide ResumeFrame, FrameDepth;
    assert (stack + [f])[..|stack|] == stack;
  }

  /** The innermost part is complete. */
  lemma FinishPopped(ts: seq<Token>, env: Env, stack: seq<Frame>, f: Frame, r: Outcome)
    requires (forall g :: g in stack ==> FrameOk(g)) && FrameOk(f) && (r.Value? ==> r.pos <= |ts|)
    requires |stack| + 1 < STACK_DEPTH
    ensures Finish(ts, env, stack + [f], 0, r) ==
            Finish(ts, env, stack, FrameDepth(ts, env, f, r), ResumeFrame(ts, env, f, r))
  {
    hide ResumeFrame, FrameDepth;
    assert (stack + [f])[..|stack|] == stack;
  }

  lemma FinishOfError(ts: seq<Token>, env: Env, stack: seq<Frame>, r: Outcome)
    requires (forall g :: g in stack ==> FrameOk(g)) && r.Error? && |stack| < STACK_DEPTH
    ensures Finish(ts, env, stack, 0, r) == Whole(r, false)
  {
    ResumeOfError(ts, env, stack, r);
    ResumeDepthOfError(ts, env, stack, r);
  }

  /** The stack is full. */
  lemma FinishTooDeep(ts: seq<Token>, env: Env, stack: seq<Frame>, depth: nat, r: Outcome)
    requires (forall g :: g in stack ==> FrameOk(g)) && (r.Value? ==> r.pos <= |ts|)
    requires |stack| + depth >= STACK_DEPTH
    ensures Finish(ts, env, stack, depth, r).tooDeep
  {
  }

  // ----- the evaluator -----

  // What match_expression leaves behind: the position after the expression (or
  // none), instruction_value, and the flags.
  datatype Result =
    | Matched(pos: nat, value: Word, flags: Flags)
    | NoMatch(flags: Flags)
    | StackOverflow(flags: Flags)

  /** The result the recursive evaluator asks for; an undefined label makes the value 0. */
  function Report(r: Outcome): Result {
    if r.Error? then NoMatch(r.flags)
    else Matched(r.pos, if r.flags.undefined then 0 else r.value, r.flags)
  }

  // Where the evaluator goes next: do_match, the operator loop of a tier, do_pop.
  datatype Label = DoMatch | Have(tier: nat) | DoPop

  // The variables of match_expression; msp is an index into the stack.
  datatype State = State(pc: Label, msp: nat, p: nat, level: nat, value1: Word, flags: Flags)

  datatype Step = Go(st: State) | Stop(result: Result)

  /** What the innermost open part will evaluate to. */
  ghost function Current(ts: seq<Token>, env: Env, st: State): (r: Outcome)
    requires st.level <= 6 && (st.pc.Have? ==> st.pc.tier <= 5) && st.p <= |ts|
    ensures r.Value? ==> r.pos <= |ts|
  {
    match st.pc
    case DoMatch => Expr(ts, env, st.level, st.p, st.flags)
    case Have(k) => Down(ts, env, k, st.level, Value(st.value1, st.p, st.flags))
    case DoPop => Value(st.value1, st.p, st.flags)
  }

  /** How many frames more that will take. */
  ghost function CurrentDepth(ts: seq<Token>, env: Env, st: State): nat
    requires st.level <= 6 && (st.pc.Have? ==> st.pc.tier <= 5) && st.p <= |ts|
  {
    match st.pc
    case DoMatch => ExprDepth(ts, env, st.level, st.p, Nothing, st.flags)
    case Have(k) => DownDepth(ts, env, k, st.level, Value(st.value1, st.p, st.flags))
    case DoPop => 0
  }

  /** Finishing the stack with the current part gives the wanted outcome. */
  ghost predicate OnTrack(ts: seq<Token>, env: Env, st: State, stack: seq<Frame>, goal: Whole) {
    && |stack| == st.msp < STACK_DEPTH
    && (forall f :: f in stack ==> FrameOk(f))
    && st.level <= 6 && (st.pc.Have? ==> st.pc.tier <= 5) && (st.pc.DoPop? ==> st.msp > 0)
    && st.p <= |ts|
    && goal == Finish(ts, env, stack, CurrentDepth(ts, env, st), Current(ts, env, st))
  }

  function LabelRank(pc: Label): nat {
    match pc case DoPop => 0 case Have(k) => k + 1 case DoMatch => 7
  }

  /** Every step reads a token, or pops a frame, or moves on within the operator loops. */
  ghost predicate Progress(ts: seq<Token>, st: State, st': State) {
    || st'.p > st.p
    || (st'.p == st.p && st'.msp < st.msp)
    || (st'.p == st.p && st'.msp == st.msp && LabelRank(st'.pc) < LabelRank(st.pc))
  }

  /** The result that is asked for: a message if the stack overflows, else what the recursive evaluator finds. */
  predicate Answers(r: Result, goal: Whole) {
    if goal.tooDeep then r.StackOverflow? && r.flags.errors > 0 else r == Report(goal.outcome)
  }

  ghost predicate StepOk(ts: seq<Token>, env: Env, st: State, step: Step, frames: seq<Frame>, goal: Whole) {
    match step
    case Go(st') =>
      st'.msp <= |frames| && OnTrack(ts, env, st', frames[..st'.msp], goal) && Progress(ts, st, st')
    case Stop(r) => Answers(r, goal)
  }

  class Evaluator {
    const matchStack: array<Frame>

    constructor ()
      ensures fresh(matchStack) && matchStack.Length == STACK_DEPTH
    {
      matchStack := new Frame[STACK_DEPTH](_ => Frame(0, 0, 0));
    }

    /** do_push: the frame f is open while the operand at p is evaluated at the given level. */
    method Push(f: Frame, level: nat, p: nat, st: State, ts: seq<Token>, env: Env,
                ghost goal: Whole) returns (step: Step)
      requires matchStack.Length == STACK_DEPTH && FrameOk(f) && level <= 6
      requires st.msp < STACK_DEPTH && st.p < p <= |ts|
      requires forall g :: g in matchStack[..st.msp] ==> FrameOk(g)
      requires var r, depth := Expr(ts, env, level, p, st.flags), ExprDepth(ts, env, level, p, Nothing, st.flags);
               goal == Finish(ts, env, matchStack[..st.msp], Max(1 + depth, FrameDepth(ts, env, f, r)),
                              ResumeFrame(ts, env, f, r))
      modifies matchStack
      ensures StepOk(ts, env, st, step, matchStack[..], goal)
    {
      hide Expr, ExprDepth, ResumeFrame, FrameDepth, Finish;
      ghost var stack, r := matchStack[..st.msp], Expr(ts, env, level, p, st.flags);
      ghost var depth := ExprDepth(ts, env, level, p, Nothing, st.flags);
      matchStack[st.msp] := f;
      if st.msp + 1 == STACK_DEPTH {
        FinishTooDeep(ts, env, stack, Max(1 + depth, FrameDepth(ts, env, f, r)), ResumeFrame(ts, env, f, r));
        return Stop(StackOverflow(st.flags.(errors := st.flags.errors + 1)));
      }
      assert matchStack[..][..st.msp + 1] == stack + [f];
      FinishPushed(ts, env, stack, f, depth, r);
      step := Go(State(DoMatch, st.msp + 1, p, level, f.value1, st.flags));
    }

    /** The operator loops after have_value1, one tier at a time; then do_pop or the end. */
    method AfterValue(st: State, ts: seq<Token>, env: Env, ghost goal: Whole) returns (step: Step)
      requires matchStack.Length == STACK_DEPTH && st.msp < STACK_DEPTH && st.pc.Have?
      requires OnTrack(ts, env, st, matchStack[..st.msp], goal)
      modifies matchStack
      ensures StepOk(ts, env, st, step, matchStack[..], goal)
    {
      hide Expr, ExprDepth, Rest, Down, DownDepth;
      assert matchStack[..][..st.msp] == matchStack[..st.msp];
      var tier := st.pc.tier;
      var op := OpAt(ts, st.p, tier);
      if st.level <= tier && op != 0 {
        DownAtOp(ts, env, tier, st.level, st.value1, st.p, st.flags);
        DownDepthAtOp(ts, env, tier, st.level, st.value1, st.p, st.flags);
        step := Push(Frame(op, st.level, st.value1), tier + 1, st.p + 1, st, ts, env, goal);
      } else {
        DownPastTier(ts, env, tier, st.level, st.value1, st.p, st.flags);
        DownDepthPastTier(ts, env, tier, st.level, st.value1, st.p, st.flags);
        if tier > 0 {
          step := Go(st.(pc := Have(tier - 1)));
        } else if st.msp != 0 {
          step := Go(st.(pc := DoPop));
        } else {
          step := Stop(Matched(st.p, if st.flags.undefined then 0 else st.value1, st.flags));
        }
      }
    }

    /** do_pop at a frame of open parentheses: one of them must close here. */
    method PopParen(st: State, f: Frame, ts: seq<Token>, env: Env, ghost stack: seq<Frame>,
                    ghost goal: Whole) returns (step: Step)
      requires matchStack.Length == STACK_DEPTH && st.pc.DoPop? && 0 < st.msp < STACK_DEPTH
      requires stack == matchStack[..st.msp - 1] && (forall g :: g in stack ==> FrameOk(g))
      requires FrameOk(f) && f.casei < 0 && st.p <= |ts|
      requires var r := Value(st.value1, st.p, st.flags);
               goal == Finish(ts, env, stack, CloseAllDepth(ts, env, -f.casei, f.level, r),
                              CloseAll(ts, env, -f.casei, f.level, r))
      modifies matchStack
      ensures StepOk(ts, env, st, step, matchStack[..], goal)
    {
      hide Expr, Rest, Down, DownDepth, CloseAll, CloseAllDepth, Finish;
      var msp := st.msp - 1;
      if At(ts, st.p) != RParen {
        var flags := st.flags.(errors := st.flags.errors + 1);
        ClosedFails(ts, env, -f.casei, f.level, Value(st.value1, st.p, st.flags));
        CloseAllDepthOfError(ts, env, -f.casei, f.level, Value(st.value1, st.p, st.flags));
        FinishOfError(ts, env, stack, Error(flags));
        return Stop(NoMatch(flags));
      }
      CloseOne(ts, env, -f.casei, f.level, st.value1, st.p, st.flags);
      CloseOneDepth(ts, env, -f.casei, f.level, st.value1, st.p, st.flags);
      if f.casei + 1 == 0 {
        assert matchStack[..][..msp] == stack;
        step := Go(State(Have(5), msp, st.p + 1, f.level, st.value1, st.flags));
      } else {
        var g := f.(casei := f.casei + 1);
        matchStack[msp] := g;
        assert matchStack[..][..st.msp] == stack + [g];
        ghost var c := Value(st.value1, st.p + 1, st.flags);
        FinishPushed(ts, env, stack, g, DownDepth(ts, env, 5, 0, c), Down(ts, env, 5, 0, c));
        step := Go(State(Have(5), st.msp, st.p + 1, 0, st.value1, st.flags));
      }
    }

    /** do_pop: the operand of the innermost frame is complete. */
    method Pop(st: State, ts: seq<Token>, env: Env, ghost goal: Whole) returns (step: Step)
      requires matchStack.Length == STACK_DEPTH && 0 < st.msp < STACK_DEPTH && st.pc.DoPop?
      requires OnTrack(ts, env, st, matchStack[..st.msp], goal)
      modifies matchStack
      ensures StepOk(ts, env, st, step, matchStack[..], goal)
    {
      hide Expr, Rest, Down, DownDepth, CloseAll, CloseAllDepth, Finish;
      ghost var stack := matchStack[..st.msp - 1];
      var f := matchStack[st.msp - 1];
      assert matchStack[..st.msp] == stack + [f] && matchStack[..][..st.msp - 1] == stack;
      assert f in matchStack[..st.msp];
      FinishPopped(ts, env, stack, f, Value(st.value1, st.p, st.flags));
      if f.casei < 0 {
        step := PopParen(st, f, ts, env, stack, goal);
      } else if f.casei <= 3 {
        var v := Wrap(if f.casei == 2 then f.value1 - st.value1 else f.value1 + st.value1);
        step := Go(State(Have(5), st.msp - 1, st.p, f.level, v, st.flags));
      } else {
        var r := Combine(f.casei, f.value1, Value(st.value1, st.p, st.flags), env.late);
        step := Go(State(Have(Tier(f.casei)), st.msp - 1, st.p, f.level, r.value, r.flags));
      }
    }

    /** A run of unary operators, squeezed into one frame. */
    method MatchUnary(st: State, ts: seq<Token>, env: Env, ghost goal: Whole) returns (step: Step)
      requires matchStack.Length == STACK_DEPTH && st.msp < STACK_DEPTH && st.pc.DoMatch? && st.p < |ts|
      requires ts[st.p] == Minus || ts[st.p] == Plus || ts[st.p] == Tilde
      requires OnTrack(ts, env, st, matchStack[..st.msp], goal)
      modifies matchStack
      ensures StepOk(ts, env, st, step, matchStack[..], goal)
    {
      hide Expr, ExprDepth, Unary, UnaryDepth, Rest, Down, DownDepth, FrameDepth, ResumeFrame, Finish, Folded;
      ghost var whole, stack := Unary(ts, env, st.p, st.flags), matchStack[..st.msp];
      var value1: Word := if ts[st.p] == Tilde then Wrap(-1) else 0;
      var minus := ts[st.p] != Plus;
      FoldFirst(ts, env, st.p, st.flags);
      SignsShareFrame(ts, env, st.p, Nothing, st.flags);
      var p := st.p + 1;
      while p < |ts| && (ts[p] == Minus || ts[p] == Plus || ts[p] == Tilde)
        invariant st.p < p <= |ts| && unchanged(matchStack)
        invariant Folded(ts, env, whole, minus, value1, p, st.flags)
        invariant UnaryDepth(ts, env, st.p, Nothing, st.flags) == 1 + UnaryDepth(ts, env, p, Sign, st.flags)
      {
        SignsShareFrame(ts, env, p, Sign, st.flags);
        FoldOne(ts, env, whole, minus, value1, p, st.flags);
        if ts[p] == Tilde { value1 := Wrap(if minus then value1 + 1 else value1 - 1); }
        if ts[p] != Plus { minus := !minus; }
        p := p + 1;
      }
      var f := Frame(if minus then 2 else 3, st.level, value1);
      AllFolded(ts, env, f, st.p, p, st.flags);
      assert matchStack[..st.msp] == stack;
      step := Push(f, 6, p, st, ts, env, goal);
    }

    /** A run of open parentheses, counted in one frame, at most 127 at a time. */
    method MatchParens(st: State, ts: seq<Token>, env: Env, ghost goal: Whole) returns (step: Step)
      requires matchStack.Length == STACK_DEPTH && st.msp < STACK_DEPTH && st.pc.DoMatch? && st.p < |ts|
      requires ts[st.p] == LParen
      requires OnTrack(ts, env, st, matchStack[..st.msp], goal)
      modifies matchStack
      ensures StepOk(ts, env, st, step, matchStack[..], goal)
    {
      hide Expr, ExprDepth, Unary, Rest, Down, CloseAll, CloseAllDepth, Finish;
      var casei, p := 0, st.p;
      while p < |ts| && ts[p] == LParen && casei > -127
        invariant unchanged(matchStack)
        invariant st.p <= p <= |ts| && -127 <= casei == st.p - p
        invariant forall i :: st.p <= i < p ==> ts[i] == LParen
      {
        p, casei := p + 1, casei - 1;
      }
      OpenParens(ts, env, st.level, st.p, -casei, st.flags);
      OpenParensDepth(ts, env, st.level, st.p, -casei, st.flags);
      BeforeOther(ts, env, 0, p, Parens(-casei), st.flags);
      step := Push(Frame(casei, st.level, 0), 0, p, st, ts, env, goal);
    }

    /** do_match: the start of an operand. */
    method Match(st: State, ts: seq<Token>, env: Env, ghost goal: Whole) returns (step: Step)
      requires matchStack.Length == STACK_DEPTH && st.msp < STACK_DEPTH && st.pc.DoMatch?
      requires OnTrack(ts, env, st, matchStack[..st.msp], goal)
      modifies matchStack
      ensures StepOk(ts, env, st, step, matchStack[..], goal)
    {
      hide Expr, ExprDepth, Rest, Down, DownDepth, Finish;
      ExprIsDown(ts, env, st.level, st.p, st.flags);
      ExprDepthIsDown(ts, env, st.level, st.p, Nothing, st.flags);
      assert matchStack[..][..st.msp] == matchStack[..st.msp];
      var value1: Word, flags := 0, st.flags;
      match At(ts, st.p) {
        case LParen => step := MatchParens(st, ts, env, goal); return;
        case Minus | Plus | Tilde => step := MatchUnary(st, ts, env, goal); return;
        case Number(v) => value1 := v;
        case Here => value1 := env.here;
        case Start => value1 := env.start;
        case Ident(name) =>
          if name in env.labels {
            value1 := env.labels[name];
          } else {
            flags := Flags(true, flags.errors + if env.late then 1 else 0);
          }
        case _ =>
          DownOfError(ts, env, 5, st.level, Error(flags));
          DownDepthOfError(ts, env, 5, st.level, Error(flags));
          FinishOfError(ts, env, matchStack[..st.msp], Error(flags));
          return Stop(NoMatch(flags));
      }
      step := Go(State(Have(5), st.msp, st.p + 1, st.level, value1, flags));
    }

    /**
     * match_expression finds the value, the stop position, has_undefined, the
     * messages and the failures of the recursive evaluator; it gives up with a
     * message if and only if the expression is nested too deeply for the
     * stack. No access leaves the stack.
     */
    method MatchExpression(ts: seq<Token>, p0: nat, env: Env, errors: nat) returns (result: Result)
      requires matchStack.Length == STACK_DEPTH && p0 <= |ts|
      modifies matchStack
      ensures result.StackOverflow? <==> TooDeep(ts, env, p0, Flags(false, errors))
      ensures if result.StackOverflow? then result.flags.errors > 0
              else result == Report(Expr(ts, env, 0, p0, Flags(false, errors)))
    {
      hide Expr, ExprDepth, Rest, Down, Finish, Current;
      var flags := Flags(false, errors);
      ghost var goal := Whole(Expr(ts, env, 0, p0, flags), TooDeep(ts, env, p0, flags));
      var st := State(DoMatch, 0, p0, 0, 0, Flags(false, errors));
      Started(ts, env, st, goal);
      assert matchStack[..0] == [];
      while true
        invariant st.msp <= matchStack.Length && OnTrack(ts, env, st, matchStack[..st.msp], goal)
        decreases |ts| - st.p, st.msp, LabelRank(st.pc)
      {
        var step: Step;
        match st.pc {
          case DoMatch => step := Match(st, ts, env, goal);
          case Have(_) => step := AfterValue(st, ts, env, goal);
          case DoPop => step := Pop(st, ts, env, goal);
        }
        if step.Stop? { return step.result; }
        assert matchStack[..][..step.st.msp] == matchStack[..step.st.msp];
        st := step.st;
      }
    }
  }

  lemma Started(ts: seq<Token>, env: Env, st: State, goal: Whole)
    requires st.p <= |ts| && st.pc == DoMatch && st.msp == 0 && st.level == 0
    requires goal == Whole(Expr(ts, env, 0, st.p, st.flags), TooDeep(ts, env, st.p, st.flags))
    ensures OnTrack(ts, env, st, [], goal)
  {
  }

  lemma SignsShareFrame(ts: seq<Token>, env: Env, p: nat, before: Before, flags: Flags)
    requires p < |ts| && (ts[p] == Minus || ts[p] == Plus || ts[p] == Tilde)
    ensures UnaryDepth(ts, env, p, before, flags) ==
            UnaryDepth(ts, env, p + 1, Sign, flags) + if before == Sign then 0 else 1
  {
  }

  lemma FoldFirst(ts: seq<Token>, env: Env, p: nat, flags: Flags)
    requires p < |ts| && (ts[p] == Minus || ts[p] == Plus || ts[p] == Tilde)
    ensures Folded(ts, env, Unary(ts, env, p, flags), ts[p] != Plus,
                   if ts[p] == Tilde then Wrap(-1) else 0, p + 1, flags)
  {
  }

  lemma UnaryIsExpr(ts: seq<Token>, env: Env, p: nat, flags: Flags)
    ensures Expr(ts, env, 6, p, flags) == Unary(ts, env, p, flags)
    ensures ExprDepth(ts, env, 6, p, Sign, flags) == UnaryDepth(ts, env, p, Sign, flags)
  {
  }

  lemma CloseOne(ts: seq<Token>, env: Env, n: nat, level: nat, v: Word, p: nat, flags: Flags)
    requires n > 0 && p < |ts| && ts[p] == RParen
    ensures CloseAll(ts, env, n, level, Value(v, p, flags)) ==
            if n == 1 then Down(ts, env, 5, level, Value(v, p + 1, flags))
            else CloseAll(ts, env, n - 1, level, Down(ts, env, 5, 0, Value(v, p + 1, flags)))
  {
  }

  lemma CloseOneDepth(ts: seq<Token>, env: Env, n: nat, level: nat, v: Word, p: nat, flags: Flags)
    requires n > 0 && p < |ts| && ts[p] == RParen
    ensures var c := Value(v, p + 1, flags);
            CloseAllDepth(ts, env, n, level, Value(v, p, flags)) ==
            if n == 1 then DownDepth(ts, env, 5, level, c)
            else Max(1 + DownDepth(ts, env, 5, 0, c), CloseAllDepth(ts, env, n - 1, level, Down(ts, env, 5, 0, c)))
  {
    hide Down, DownDepth;
  }

  lemma ClosedFails(ts: seq<Token>, env: Env, n: nat, level: nat, r: Outcome)
    requires n > 0 && r.Value? && r.pos <= |ts| && At(ts, r.pos) != RParen
    ensures CloseAll(ts, env, n, level, r) == Error(r.flags.(errors := r.flags.errors + 1))
  {
    var e := Error(r.flags.(errors := r.flags.errors + 1));
    if n > 1 { CloseAllOfError(ts, env, n - 1, level, e); }
  }
}
