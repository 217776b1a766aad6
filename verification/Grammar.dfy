/**
 * The expression language of operands: seven levels of left-associative
 * operators over 32-bit wrap-around values, as a plain recursive evaluator.
 */
module Grammar {
  import opened Names
  import opened Words

  // An operand cut into tokens, with literals already valued. A name that is a
  // 16-bit general register is a token of its own; End is anything that cannot
  // start or continue an expression, and what follows the last token.
  datatype Token =
    | LParen | RParen
    | Plus | Minus | Tilde
    | Star | Slash | SlashSlash | Percent | PercentPercent
    | ShiftLeft | ShiftRight
    | And | Xor | Or
    | Number(value: Word)
    | Here | Start
    | Ident(name: Name)
    | Register16
    | End

  // What an expression can refer to: defined labels, the addresses behind $
  // and $$, and whether this is a pass that reports undefined values.
  datatype Env = Env(labels: map<Name, Word>, here: Word, start: Word, late: bool)

  // has_undefined and the number of messages so far.
  datatype Flags = Flags(undefined: bool, errors: nat)

  datatype Outcome =
    | Value(value: Word, pos: nat, flags: Flags)
    | Error(flags: Flags)

  function At(ts: seq<Token>, p: nat): Token {
    if p < |ts| then ts[p] else End
  }

  // ----- operators, numbered like the resume points of the evaluator -----

  /** The binary operator of the given tier at p, or 0. */
  function OpAt(ts: seq<Token>, p: nat, tier: nat): (op: nat)
    ensures op != 0 ==> p < |ts| && 10 <= op <= 21 && Tier(op) == tier
  {
    match At(ts, p)
    case Star => if tier == 5 then 10 else 0
    case SlashSlash => if tier == 5 then 11 else 0
    case Slash => if tier == 5 then 12 else 0
    case PercentPercent => if tier == 5 then 13 else 0
    case Percent => if tier == 5 then 14 else 0
    case Plus => if tier == 4 && At(ts, p + 1) != Register16 then 15 else 0
    case Minus => if tier == 4 && At(ts, p + 1) != Register16 then 16 else 0
    case ShiftLeft => if tier == 3 then 17 else 0
    case ShiftRight => if tier == 3 then 18 else 0
    case And => if tier == 2 then 19 else 0
    case Xor => if tier == 1 then 20 else 0
    case Or => if tier == 0 then 21 else 0
    case _ => 0
  }

  function Tier(op: nat): nat {
    if op <= 14 then 5 else if op <= 16 then 4 else if op <= 18 then 3
    else if op == 19 then 2 else if op == 20 then 1 else 0
  }

  /** value_div: signed division rounded towards zero, on the magnitudes. */
  function SignedDiv(a: Word, b: Word): Word
    requires b != 0
  {
    var d := Div(if IsNegative(a) then Negated(a) else a, if IsNegative(b) then Negated(b) else b);
    if IsNegative(a) == IsNegative(b) then d else Negated(d)
  }

  /** value_mod. */
  function SignedMod(a: Word, b: Word): Word
    requires b != 0
  {
    Wrap(a - SignedDiv(a, b) * b)
  }

  /** One operator applied; a zero divisor counts as 1, a shift by more than 31 as a shift by 0. */
  function Apply(op: nat, a: Word, b: Word): Word {
    var divisor := if b == 0 then 1 else b;
    var shift := if b > 31 then 0 else b;
    if op == 10 then Wrap(a * b)
    else if op == 11 then SignedDiv(a, divisor)
    else if op == 12 then Div(a, divisor)
    else if op == 13 then SignedMod(a, divisor)
    else if op == 14 then Mod(a, divisor)
    else if op == 15 then Wrap(a + b)
    else if op == 16 then Wrap(a - b)
    else if op == 17 then Wrap(a * Pow2(shift))
    else if op == 18 then Div(a, Pow2(shift))
    else if op == 19 then BitAnd(a, b)
    else if op == 20 then BitXor(a, b)
    else BitOr(a, b)
  }

  /** Dividing by zero and overlong shifts are reported in the late passes. */
  function Complaint(op: nat, b: Word, late: bool): nat {
    if late && ((11 <= op <= 14 && b == 0) || (17 <= op <= 18 && b > 31)) then 1 else 0
  }

  function Combine(op: nat, a: Word, r: Outcome, late: bool): Outcome {
    if r.Error? then r
    else Value(Apply(op, a, r.value), r.pos, r.flags.(errors := r.flags.errors + Complaint(op, r.value, late)))
  }

  // ----- the recursive evaluator -----

  /** Unary operators, parentheses and single operands. */
  function Unary(ts: seq<Token>, env: Env, p: nat, flags: Flags): (r: Outcome)
    ensures r.Value? ==> p < r.pos <= |ts|
    decreases |ts| - p, 0
  {
    match At(ts, p)
    case Minus => Negate(Unary(ts, env, p + 1, flags))
    case Plus => Unary(ts, env, p + 1, flags)
    case Tilde => Complement(Unary(ts, env, p + 1, flags))
    case LParen => Closed(ts, Expr(ts, env, 0, p + 1, flags))
    case Number(v) => Value(v, p + 1, flags)
    case Here => Value(env.here, p + 1, flags)
    case Start => Value(env.start, p + 1, flags)
    case Ident(name) => UseLabel(env, name, p + 1, flags)
    case _ => Error(flags)
  }

  function Negate(r: Outcome): Outcome {
    if r.Error? then r else r.(value := Negated(r.value))
  }

  function Complement(r: Outcome): Outcome {
    if r.Error? then r else r.(value := Wrap(-1 - r.value))
  }

  function UseLabel(env: Env, name: Name, p: nat, flags: Flags): Outcome {
    if name in env.labels then Value(env.labels[name], p, flags)
    else Value(0, p, Flags(true, flags.errors + if env.late then 1 else 0))
  }

  /** The closing parenthesis after a parenthesized expression. */
  function Closed(ts: seq<Token>, r: Outcome): Outcome {
    if r.Error? then r
    else if At(ts, r.pos) == RParen then r.(pos := r.pos + 1)
    else Error(r.flags.(errors := r.flags.errors + 1))
  }

  /** level 6 is a unary expression; level k joins level k + 1 with the operators of tier k. */
  function Expr(ts: seq<Token>, env: Env, level: nat, p: nat, flags: Flags): (r: Outcome)
    requires level <= 6
    ensures r.Value? ==> p < r.pos <= |ts|
    decreases |ts| - p, 14 - 2 * level
  {
    if level == 6 then Unary(ts, env, p, flags)
    else
      var r := Expr(ts, env, level + 1, p, flags);
      if r.Error? then r else Rest(ts, env, level, r.value, r.pos, r.flags)
  }

  /** The operators of one tier that follow value v, from left to right. */
  function Rest(ts: seq<Token>, env: Env, tier: nat, v: Word, p: nat, flags: Flags): (r: Outcome)
    requires tier <= 5 && p <= |ts|
    ensures r.Value? ==> p <= r.pos <= |ts|
    decreases |ts| - p, 13 - 2 * tier
  {
    var op := OpAt(ts, p, tier);
    if op == 0 then Value(v, p, flags)
    else
      var r := Combine(op, v, Expr(ts, env, tier + 1, p + 1, flags), env.late);
      if r.Error? then r else Rest(ts, env, tier, r.value, r.pos, r.flags)
  }

  // ----- how deep an expression is nested -----

  const STACK_DEPTH := 100

  // What an operand follows directly: a unary operator or n open parentheses
  // whose frame it may share, or anything else.
  datatype Before = Nothing | Sign | Parens(n: nat)

  function Max(a: nat, b: nat): nat {
    if a < b then b else a
  }

  /**
   * How many frames evaluating a unary expression takes at once: one for a
   * chain of unary operators, one for up to 127 parentheses in a row, besides
   * those of what they apply to.
   */
  function UnaryDepth(ts: seq<Token>, env: Env, p: nat, before: Before, flags: Flags): nat
    decreases |ts| - p, 0
  {
    match At(ts, p)
    case Minus | Plus | Tilde =>
      UnaryDepth(ts, env, p + 1, Sign, flags) + if before == Sign then 0 else 1
    case LParen =>
      if before.Parens? && before.n < 127 then ExprDepth(ts, env, 0, p + 1, Parens(before.n + 1), flags)
      else 1 + ExprDepth(ts, env, 0, p + 1, Parens(1), flags)
    case _ => 0
  }

  function ExprDepth(ts: seq<Token>, env: Env, level: nat, p: nat, before: Before, flags: Flags): nat
    requires level <= 6
    decreases |ts| - p, 14 - 2 * level
  {
    if level == 6 then UnaryDepth(ts, env, p, before, flags)
    else
      var first, r := ExprDepth(ts, env, level + 1, p, before, flags), Expr(ts, env, level + 1, p, flags);
      if r.Error? then first else Max(first, RestDepth(ts, env, level, r.value, r.pos, r.flags))
  }

  /** A binary operator takes a frame while its right operand is evaluated. */
  function RestDepth(ts: seq<Token>, env: Env, tier: nat, v: Word, p: nat, flags: Flags): nat
    requires tier <= 5 && p <= |ts|
    decreases |ts| - p, 13 - 2 * tier
  {
    var op := OpAt(ts, p, tier);
    if op == 0 then 0
    else
      var operand := 1 + ExprDepth(ts, env, tier + 1, p + 1, Nothing, flags);
      var r := Combine(op, v, Expr(ts, env, tier + 1, p + 1, flags), env.late);
      if r.Error? then operand else Max(operand, RestDepth(ts, env, tier, r.value, r.pos, r.flags))
  }

  /** The expression needs all slots of the stack. */
  predicate TooDeep(ts: seq<Token>, env: Env, p: nat, flags: Flags) {
    ExprDepth(ts, env, 0, p, Nothing, flags) >= STACK_DEPTH
  }

  /** Every frame is for a token. */
  lemma {:induction false} UnaryWithin(ts: seq<Token>, env: Env, p: nat, before: Before, flags: Flags)
    requires p <= |ts|
    ensures UnaryDepth(ts, env, p, before, flags) <= |ts| - p
    decreases |ts| - p, 0
  {
    match At(ts, p)
    case Minus | Plus | Tilde => UnaryWithin(ts, env, p + 1, Sign, flags);
    case LParen =>
      ExprWithin(ts, env, 0, p + 1, Parens(1), flags);
      if before.Parens? { ExprWithin(ts, env, 0, p + 1, Parens(before.n + 1), flags); }
    case _ =>
  }

  lemma {:induction false} ExprWithin(ts: seq<Token>, env: Env, level: nat, p: nat, before: Before, flags: Flags)
    requires level <= 6 && p <= |ts|
    ensures ExprDepth(ts, env, level, p, before, flags) <= |ts| - p
    decreases |ts| - p, 14 - 2 * level
  {
    if level == 6 {
      UnaryWithin(ts, env, p, before, flags);
    } else {
      ExprWithin(ts, env, level + 1, p, before, flags);
      var r := Expr(ts, env, level + 1, p, flags);
      if r.Value? { RestWithin(ts, env, level, r.value, r.pos, r.flags); }
    }
  }

  lemma {:induction false} RestWithin(ts: seq<Token>, env: Env, tier: nat, v: Word, p: nat, flags: Flags)
    requires tier <= 5 && p <= |ts|
    ensures RestDepth(ts, env, tier, v, p, flags) <= |ts| - p
    decreases |ts| - p, 13 - 2 * tier
  {
    var op := OpAt(ts, p, tier);
    if op != 0 {
      ExprWithin(ts, env, tier + 1, p + 1, Nothing, flags);
      var r := Combine(op, v, Expr(ts, env, tier + 1, p + 1, flags), env.late);
      if r.Value? { RestWithin(ts, env, tier, r.value, r.pos, r.flags); }
    }
  }

  /** Without parentheses seven frames are enough, however long the expression is. */
  lemma {:induction false} FlatUnary(ts: seq<Token>, env: Env, p: nat, before: Before, flags: Flags)
    requires LParen !in ts
    ensures UnaryDepth(ts, env, p, before, flags) <= if before == Sign then 0 else 1
    decreases |ts| - p, 0
  {
    match At(ts, p)
    case Minus | Plus | Tilde => FlatUnary(ts, env, p + 1, Sign, flags);
    case _ =>
  }

  lemma {:induction false} FlatIsShallow(ts: seq<Token>, env: Env, level: nat, p: nat, before: Before, flags: Flags)
    requires level <= 6 && LParen !in ts
    ensures ExprDepth(ts, env, level, p, before, flags) <= 7 - level
    decreases |ts| - p, 14 - 2 * level
  {
    if level == 6 {
      FlatUnary(ts, env, p, before, flags);
    } else {
      FlatIsShallow(ts, env, level + 1, p, before, flags);
      var r := Expr(ts, env, level + 1, p, flags);
      if r.Value? { FlatRest(ts, env, level, r.value, r.pos, r.flags); }
    }
  }

  lemma {:induction false} FlatRest(ts: seq<Token>, env: Env, tier: nat, v: Word, p: nat, flags: Flags)
    requires tier <= 5 && LParen !in ts && p <= |ts|
    ensures RestDepth(ts, env, tier, v, p, flags) <= 7 - tier
    decreases |ts| - p, 13 - 2 * tier
  {
    var op := OpAt(ts, p, tier);
    if op != 0 {
      FlatIsShallow(ts, env, tier + 1, p + 1, Nothing, flags);
      var r := Combine(op, v, Expr(ts, env, tier + 1, p + 1, flags), env.late);
      if r.Value? { FlatRest(ts, env, tier, r.value, r.pos, r.flags); }
    }
  }
}
