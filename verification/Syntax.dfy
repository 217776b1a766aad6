/**
 * Expressions as trees, with a value of their own, and as tokens: what the
 * recursive evaluator accepts is exactly what is printed from trees that have
 * parentheses where they need them, and it finds the value of the tree.
 */
module Syntax {
  import opened Names
  import opened Words
  import opened Grammar
  import opened Operators
  import opened JumpCode
  import opened Passes

  datatype Expression =
    | Literal(value: Word)
    | HereAddress
    | StartAddress
    | LabelValue(name: Name)
    | Prefix(sign: SignOp, operand: Expression)
    | Infix(op: BinaryOp, left: Expression, right: Expression)
    | Group(inner: Expression)

  // ----- the tree -----

  ghost function ValueOf(t: Expression, env: Env): Word {
    match t
    case Literal(v) => v
    case HereAddress => env.here
    case StartAddress => env.start
    case LabelValue(name) => if name in env.labels then env.labels[name] else 0
    case Prefix(sign, u) => SignResult(sign, ValueOf(u, env))
    case Infix(op, l, r) => ResultOf(op, ValueOf(l, env), ValueOf(r, env))
    case Group(u) => ValueOf(u, env)
  }

  /** There is a label without a value. */
  predicate HasUndefined(t: Expression, env: Env) {
    match t
    case LabelValue(name) => name !in env.labels
    case Prefix(_, u) => HasUndefined(u, env)
    case Infix(_, l, r) => HasUndefined(l, env) || HasUndefined(r, env)
    case Group(u) => HasUndefined(u, env)
    case _ => false
  }

  /** How many messages its evaluation gives. */
  ghost function Messages(t: Expression, env: Env): nat {
    match t
    case LabelValue(name) => if env.late && name !in env.labels then 1 else 0
    case Prefix(_, u) => Messages(u, env)
    case Infix(op, l, r) =>
      Messages(l, env) + Messages(r, env) + if Complains(op, ValueOf(r, env), env.late) then 1 else 0
    case Group(u) => Messages(u, env)
    case _ => 0
  }

  function Print(t: Expression): (ts: seq<Token>)
    ensures ts != []
  {
    match t
    case Literal(v) => [Number(v)]
    case HereAddress => [Here]
    case StartAddress => [Start]
    case LabelValue(name) => [Ident(name)]
    case Prefix(sign, u) => [sign] + Print(u)
    case Infix(op, l, r) => Print(l) + [op] + Print(r)
    case Group(u) => [LParen] + Print(u) + [RParen]
  }

  /**
   * Operators below the given strength are in parentheses, so is the right
   * operand of an operator if it has one of the same strength, and any
   * operator under a sign.
   */
  predicate Fits(t: Expression, level: nat) {
    match t
    case Prefix(_, u) => Fits(u, 6)
    case Infix(op, l, r) => Strength(op) >= level && Fits(l, Strength(op)) && Fits(r, Strength(op) + 1)
    case Group(u) => Fits(u, 0)
    case _ => true
  }

  // ----- tokens -----

  ghost predicate TokensAt(ts: seq<Token>, p: nat, s: seq<Token>) {
    p + |s| <= |ts| && ts[p..p + |s|] == s
  }

  ghost predicate PrintedAt(ts: seq<Token>, p: nat, t: Expression) {
    TokensAt(ts, p, Print(t))
  }

  /** A binary operator of at least that strength comes next, and no register after a plus or minus. */
  predicate Continues(ts: seq<Token>, p: nat, level: nat) {
    var t := At(ts, p);
    level <= Strength(t) <= 5 && (t == Plus || t == Minus ==> At(ts, p + 1) != Register16)
  }

  ghost function Expected(t: Expression, env: Env, pos: nat, flags: Flags): Outcome {
    Value(ValueOf(t, env), pos,
          Flags(flags.undefined || HasUndefined(t, env), flags.errors + Messages(t, env)))
  }

  lemma JoinedAt(ts: seq<Token>, p: nat, a: seq<Token>, b: seq<Token>)
    ensures TokensAt(ts, p, a + b) <==> TokensAt(ts, p, a) && TokensAt(ts, p + |a|, b)
  {
    var q, e := p + |a|, p + |a| + |b|;
    if e <= |ts| {
      assert ts[p..e] == ts[p..q] + ts[q..e];
      if TokensAt(ts, p, a + b) {
        assert ts[p..q] == (a + b)[..|a|] == a;
        assert ts[q..e] == (a + b)[|a|..] == b;
      }
    }
  }

  lemma OneAt(ts: seq<Token>, p: nat, t: Token)
    ensures TokensAt(ts, p, [t]) <==> p < |ts| && ts[p] == t
  {
  }

  lemma PrintedInside(ts: seq<Token>, p: nat, t: Expression)
    requires PrintedAt(ts, p, t)
    ensures p + |Print(t)| <= |ts| && ts[p] == Print(t)[0]
  {
  }

  lemma InfixAt(ts: seq<Token>, p: nat, op: BinaryOp, l: Expression, r: Expression)
    ensures PrintedAt(ts, p, Infix(op, l, r)) <==>
            && PrintedAt(ts, p, l) && p + |Print(l)| < |ts| && ts[p + |Print(l)|] == op
            && PrintedAt(ts, p + |Print(l)| + 1, r)
    ensures |Print(Infix(op, l, r))| == |Print(l)| + 1 + |Print(r)|
  {
    hide TokensAt;
    var a, b := Print(l), Print(r);
    assert Print(Infix(op, l, r)) == a + [op] + b;
    JoinedAt(ts, p, a + [op], b);
    JoinedAt(ts, p, a, [op]);
    OneAt(ts, p + |a|, op);
  }

  lemma PrefixAt(ts: seq<Token>, p: nat, sign: SignOp, u: Expression)
    ensures PrintedAt(ts, p, Prefix(sign, u)) <==> p < |ts| && ts[p] == sign && PrintedAt(ts, p + 1, u)
    ensures |Print(Prefix(sign, u))| == 1 + |Print(u)|
  {
    hide TokensAt;
    assert Print(Prefix(sign, u)) == [sign] + Print(u);
    JoinedAt(ts, p, [sign], Print(u));
    OneAt(ts, p, sign);
  }

  lemma GroupAt(ts: seq<Token>, p: nat, u: Expression)
    ensures PrintedAt(ts, p, Group(u)) <==>
            && p < |ts| && ts[p] == LParen && PrintedAt(ts, p + 1, u)
            && p + 1 + |Print(u)| < |ts| && ts[p + 1 + |Print(u)|] == RParen
    ensures |Print(Group(u))| == |Print(u)| + 2
  {
    hide TokensAt;
    var b := Print(u);
    assert Print(Group(u)) == [LParen] + b + [RParen];
    JoinedAt(ts, p, [LParen] + b, [RParen]);
    JoinedAt(ts, p, [LParen], b);
    OneAt(ts, p, LParen);
    OneAt(ts, p + 1 + |b|, RParen);
  }

  // ----- what is printed is read back -----

  lemma {:induction false} ReadUnary(ts: seq<Token>, env: Env, t: Expression, p: nat, flags: Flags)
    requires Fits(t, 6) && PrintedAt(ts, p, t)
    ensures Unary(ts, env, p, flags) == Expected(t, env, p + |Print(t)|, flags)
    decreases t, 0
  {
    hide PrintedAt, Print, Expr, ValueOf, Messages, HasUndefined;
    match t
    case Prefix(sign, u) =>
      PrefixAt(ts, p, sign, u);
      ReadUnary(ts, env, u, p + 1, flags);
      PrefixIsRead(ts, env, t, p, flags);
    case Group(u) =>
      GroupAt(ts, p, u);
      ReadExpr(ts, env, u, 0, p + 1, flags);
      GroupIsRead(ts, env, t, p, flags);
    case _ =>
      PrintedInside(ts, p, t);
      LeafIsRead(ts, env, t, p, flags);
  }

  lemma LeafIsRead(ts: seq<Token>, env: Env, t: Expression, p: nat, flags: Flags)
    requires !t.Prefix? && !t.Infix? && !t.Group? && p < |ts| && ts[p] == Print(t)[0]
    ensures Unary(ts, env, p, flags) == Expected(t, env, p + |Print(t)|, flags)
  {
  }

  lemma PrefixIsRead(ts: seq<Token>, env: Env, t: Expression, p: nat, flags: Flags)
    requires t.Prefix? && p < |ts| && ts[p] == t.sign && |Print(t)| == 1 + |Print(t.operand)|
    requires Unary(ts, env, p + 1, flags) == Expected(t.operand, env, p + 1 + |Print(t.operand)|, flags)
    ensures Unary(ts, env, p, flags) == Expected(t, env, p + |Print(t)|, flags)
  {
    hide Print, Expr;
    SignApplied(t.sign, ValueOf(t.operand, env));
  }

  lemma GroupIsRead(ts: seq<Token>, env: Env, t: Expression, p: nat, flags: Flags)
    requires t.Group? && p < |ts| && ts[p] == LParen && |Print(t)| == |Print(t.inner)| + 2
    requires var q := p + 1 + |Print(t.inner)|;
             q < |ts| && ts[q] == RParen && Expr(ts, env, 0, p + 1, flags) == Expected(t.inner, env, q, flags)
    ensures Unary(ts, env, p, flags) == Expected(t, env, p + |Print(t)|, flags)
  {
    hide Print, Expr;
  }

  lemma SignApplied(sign: SignOp, x: Word)
    ensures SignResult(sign, x) == if sign == Plus then x else if sign == Minus then Negated(x) else Wrap(-1 - x)
  {
    NegateComputes(x);
    ComplementComputes(x);
    hide ComputesSign;
    assert ComputesSign(Plus, x, x) by { PlusComputes(x); }
    ComputesSignUnique(sign, x, SignResult(sign, x),
                       if sign == Plus then x else if sign == Minus then Negated(x) else Wrap(-1 - x));
  }

  lemma PlusComputes(x: Word)
    ensures ComputesSign(Plus, x, x)
  {
  }

  /** Up to its own strength, what is printed is read back, if no such operator follows. */
  lemma {:induction false} ReadExpr(ts: seq<Token>, env: Env, t: Expression, level: nat, p: nat, flags: Flags)
    requires level <= 6 && Fits(t, level) && PrintedAt(ts, p, t) && !Continues(ts, p + |Print(t)|, level)
    ensures Expr(ts, env, level, p, flags) == Expected(t, env, p + |Print(t)|, flags)
    decreases t, 13 - 2 * level
  {
    if level == 6 {
      ReadUnary(ts, env, t, p, flags);
    } else {
      ReadFirst(ts, env, t, level, p, flags);
      OperatorFound(ts, p + |Print(t)|, level);
    }
  }

  /** Otherwise the operators of that strength that follow are taken after it. */
  lemma {:induction false} ReadFirst(ts: seq<Token>, env: Env, t: Expression, tier: nat, p: nat, flags: Flags)
    requires tier <= 5 && Fits(t, tier) && PrintedAt(ts, p, t) && !Continues(ts, p + |Print(t)|, tier + 1)
    ensures var e := Expected(t, env, p + |Print(t)|, flags);
            e.pos <= |ts| && Expr(ts, env, tier, p, flags) == Rest(ts, env, tier, e.value, e.pos, e.flags)
    decreases t, 12 - 2 * tier
  {
    hide Fits, Print, PrintedAt, Expected, Messages, ValueOf, Expr, Rest;
    PrintedInside(ts, p, t);
    ExpectedIs(t, env, p + |Print(t)|, flags);
    if t.Infix? && Strength(t.op) == tier {
      InfixParts(t, env, tier);
      InfixAt(ts, p, t.op, t.left, t.right);
      var q := p + |Print(t.left)|;
      ReadFirst(ts, env, t.left, tier, p, flags);
      ExpectedIs(t.left, env, q, flags);
      var e := Expected(t.left, env, q, flags);
      PrintStarts(t.right);
      PrintedInside(ts, q + 1, t.right);
      OperatorFound(ts, q, tier);
      ReadExpr(ts, env, t.right, tier + 1, q + 1, e.flags);
      InfixApplied(ts, env, t, tier, q, flags);
      RestTakesOne(ts, env, tier, e.value, q, e.flags);
    } else {
      FitsMore(t, tier);
      ReadExpr(ts, env, t, tier + 1, p, flags);
      ExprStarts(ts, env, tier, p, flags);
    }
  }

  lemma RestTakesOne(ts: seq<Token>, env: Env, tier: nat, v: Word, p: nat, flags: Flags)
    requires tier <= 5 && p < |ts| && OpAt(ts, p, tier) != 0
    ensures var r := Combine(OpAt(ts, p, tier), v, Expr(ts, env, tier + 1, p + 1, flags), env.late);
            r.Value? ==>
            r.pos <= |ts| && Rest(ts, env, tier, v, p, flags) == Rest(ts, env, tier, r.value, r.pos, r.flags)
  {
  }

  lemma ExprStarts(ts: seq<Token>, env: Env, tier: nat, p: nat, flags: Flags)
    requires tier <= 5
    ensures var r := Expr(ts, env, tier + 1, p, flags);
            r.Value? ==> Expr(ts, env, tier, p, flags) == Rest(ts, env, tier, r.value, r.pos, r.flags)
  {
  }

  lemma ExpectedIs(t: Expression, env: Env, pos: nat, flags: Flags)
    ensures Expected(t, env, pos, flags).Value? && Expected(t, env, pos, flags).pos == pos
  {
  }

  lemma FitsMore(t: Expression, tier: nat)
    requires Fits(t, tier) && !(t.Infix? && Strength(t.op) == tier)
    ensures Fits(t, tier + 1)
  {
  }

  lemma InfixParts(t: Expression, env: Env, tier: nat)
    requires t.Infix? && Strength(t.op) == tier && Fits(t, tier)
    ensures Fits(t.left, tier) && Fits(t.right, tier + 1)
  {
  }

  /** Nothing printed starts with a register. */
  lemma {:induction false} PrintStarts(t: Expression)
    ensures Print(t)[0] != Register16 && !(IsBinary(Print(t)[0]) && !IsSign(Print(t)[0]))
  {
    if t.Infix? { PrintStarts(t.left); }
  }

  lemma InfixApplied(ts: seq<Token>, env: Env, t: Expression, tier: nat, q: nat, flags: Flags)
    requires t.Infix? && tier <= 5 && q < |ts| && ts[q] == t.op && OpAt(ts, q, tier) != 0
    ensures var e := Expected(t.left, env, q, flags);
            var pos := q + 1 + |Print(t.right)|;
            Combine(OpAt(ts, q, tier), e.value, Expected(t.right, env, pos, e.flags), env.late)
            == Expected(t, env, pos, flags)
  {
    var a, b := ValueOf(t.left, env), ValueOf(t.right, env);
    ApplyComputes(ts, q, tier, a, b);
    ComplaintExactly(ts, q, tier, b, env.late);
    ComputesUnique(t.op, a, b, Apply(OpAt(ts, q, tier), a, b), ResultOf(t.op, a, b));
    hide Computes, Apply, Complaint, Complains;
  }

  // ----- what is accepted has been printed -----

  lemma {:induction false} UnaryIsPrinted(ts: seq<Token>, env: Env, p: nat, flags: Flags) returns (t: Expression)
    requires Unary(ts, env, p, flags).Value?
    ensures Fits(t, 6) && PrintedAt(ts, p, t) && p + |Print(t)| == Unary(ts, env, p, flags).pos
    decreases |ts| - p, 0
  {
    hide PrintedAt, Expr;
    match At(ts, p)
    case Plus | Minus | Tilde =>
      var u := UnaryIsPrinted(ts, env, p + 1, flags);
      t := Prefix(ts[p], u);
      PrefixAt(ts, p, ts[p], u);
    case LParen =>
      var u := ExprIsPrinted(ts, env, 0, p + 1, flags);
      t := Group(u);
      GroupAt(ts, p, u);
    case Number(v) =>
      t := Literal(v);
      LeafAt(ts, p, t);
    case Here =>
      t := HereAddress;
      LeafAt(ts, p, t);
    case Start =>
      t := StartAddress;
      LeafAt(ts, p, t);
    case Ident(name) =>
      t := LabelValue(name);
      LeafAt(ts, p, t);
  }

  lemma LeafAt(ts: seq<Token>, p: nat, t: Expression)
    requires !t.Prefix? && !t.Infix? && !t.Group? && p < |ts| && ts[p] == Print(t)[0]
    ensures |Print(t)| == 1 && PrintedAt(ts, p, t) && Fits(t, 6)
  {
  }

  lemma {:induction false} ExprIsPrinted(ts: seq<Token>, env: Env, level: nat, p: nat, flags: Flags)
      returns (t: Expression)
    requires level <= 6 && Expr(ts, env, level, p, flags).Value?
    ensures Fits(t, level) && PrintedAt(ts, p, t) && p + |Print(t)| == Expr(ts, env, level, p, flags).pos
    ensures !Continues(ts, p + |Print(t)|, level)
    decreases |ts| - p, 14 - 2 * level
  {
    hide PrintedAt, Print, Fits;
    if level == 6 {
      t := UnaryIsPrinted(ts, env, p, flags);
    } else {
      t := ExprIsPrinted(ts, env, level + 1, p, flags);
      var r := Expr(ts, env, level + 1, p, flags);
      FitsLess(t, level);
      t := RestIsPrinted(ts, env, level, t, p, r.value, r.pos, r.flags);
    }
  }

  lemma FitsLess(t: Expression, level: nat)
    requires Fits(t, level + 1)
    ensures Fits(t, level)
  {
  }

  lemma InfixFits(op: BinaryOp, l: Expression, r: Expression, tier: nat)
    requires Strength(op) == tier && Fits(l, tier) && Fits(r, tier + 1)
    ensures Fits(Infix(op, l, r), tier)
  {
  }

  lemma {:induction false} RestIsPrinted(ts: seq<Token>, env: Env, tier: nat, left: Expression, p0: nat,
                                         v: Word, p: nat, flags: Flags) returns (t: Expression)
    requires tier <= 5 && p <= |ts| && Rest(ts, env, tier, v, p, flags).Value?
    requires Fits(left, tier) && PrintedAt(ts, p0, left) && p == p0 + |Print(left)| && !Continues(ts, p, tier + 1)
    ensures Fits(t, tier) && PrintedAt(ts, p0, t) && p0 + |Print(t)| == Rest(ts, env, tier, v, p, flags).pos
    ensures !Continues(ts, p0 + |Print(t)|, tier)
    decreases |ts| - p, 13 - 2 * tier
  {
    hide PrintedAt, Print, Fits, Apply, Complaint, Expr;
    OperatorFound(ts, p, tier);
    var op := OpAt(ts, p, tier);
    if op == 0 {
      t := left;
    } else {
      var right := ExprIsPrinted(ts, env, tier + 1, p + 1, flags);
      var r := Combine(op, v, Expr(ts, env, tier + 1, p + 1, flags), env.late);
      InfixAt(ts, p0, ts[p], left, right);
      InfixFits(ts[p], left, right, tier);
      t := RestIsPrinted(ts, env, tier, Infix(ts[p], left, right), p0, r.value, r.pos, r.flags);
    }
  }

  /**
   * An expression is accepted if and only if a tree is printed there, no
   * operator follows, and then the outcome is that of the tree.
   */
  lemma ExprExactly(ts: seq<Token>, env: Env, p: nat, flags: Flags)
    ensures var r := Expr(ts, env, 0, p, flags);
            && (r.Value? <==> exists t :: Fits(t, 0) && PrintedAt(ts, p, t) && !Continues(ts, p + |Print(t)|, 0))
            && forall t :: Fits(t, 0) && PrintedAt(ts, p, t) && !Continues(ts, p + |Print(t)|, 0) ==>
                 r == Expected(t, env, p + |Print(t)|, flags)
  {
    hide Expr, PrintedAt, Print, Fits, Expected;
    if Expr(ts, env, 0, p, flags).Value? { var t := ExprIsPrinted(ts, env, 0, p, flags); }
    forall t | Fits(t, 0) && PrintedAt(ts, p, t) && !Continues(ts, p + |Print(t)|, 0)
      ensures Expr(ts, env, 0, p, flags) == Expected(t, env, p + |Print(t)|, flags)
      ensures Expr(ts, env, 0, p, flags).Value?
    {
      ReadExpr(ts, env, t, 0, p, flags);
      ExpectedIs(t, env, p + |Print(t)|, flags);
    }
  }

  // ----- the fewest parentheses -----

  /** Parentheses where they are needed, and nowhere else. */
  function Grouped(t: Expression, level: nat): Expression {
    match t
    case Prefix(sign, u) => Prefix(sign, Grouped(u, 6))
    case Infix(op, l, r) =>
      var bare := Infix(op, Grouped(l, Strength(op)), Grouped(r, Strength(op) + 1));
      if Strength(op) >= level then bare else Group(bare)
    case Group(u) => Grouped(u, level)
    case _ => t
  }

  /** The tree without any. */
  function Bare(t: Expression): Expression {
    match t
    case Prefix(sign, u) => Prefix(sign, Bare(u))
    case Infix(op, l, r) => Infix(op, Bare(l), Bare(r))
    case Group(u) => Bare(u)
    case _ => t
  }

  function Groups(t: Expression): nat {
    match t
    case Prefix(_, u) => Groups(u)
    case Infix(_, l, r) => Groups(l) + Groups(r)
    case Group(u) => 1 + Groups(u)
    case _ => 0
  }

  lemma {:induction false} GroupedFits(t: Expression, level: nat)
    ensures Fits(Grouped(t, level), level) && Bare(Grouped(t, level)) == Bare(t)
  {
    match t
    case Prefix(_, u) => GroupedFits(u, 6);
    case Infix(op, l, r) =>
      GroupedFits(l, Strength(op));
      GroupedFits(r, Strength(op) + 1);
    case Group(u) => GroupedFits(u, level);
    case _ =>
  }

  /** Parentheses are not part of the meaning. */
  lemma {:induction false} BareMeansTheSame(t: Expression, env: Env)
    ensures ValueOf(Bare(t), env) == ValueOf(t, env)
    ensures HasUndefined(Bare(t), env) == HasUndefined(t, env) && Messages(Bare(t), env) == Messages(t, env)
  {
    match t
    case Prefix(_, u) => BareMeansTheSame(u, env);
    case Infix(_, l, r) =>
      BareMeansTheSame(l, env);
      BareMeansTheSame(r, env);
    case Group(u) => BareMeansTheSame(u, env);
    case _ =>
  }

  lemma GroupedMore(t: Expression, level: nat)
    ensures Groups(Grouped(t, level)) <= 1 + Groups(Grouped(t, 0))
  {
  }

  /** No tree that can be read back in its place has the same operators and operands and fewer parentheses. */
  lemma {:induction false} FewestGroups(t: Expression, level: nat)
    requires Fits(t, level)
    ensures Groups(Grouped(t, level)) <= Groups(t)
  {
    match t
    case Prefix(_, u) => FewestGroups(u, 6);
    case Infix(op, l, r) =>
      FewestGroups(l, Strength(op));
      FewestGroups(r, Strength(op) + 1);
    case Group(u) =>
      FewestGroups(u, 0);
      GroupedMore(u, level);
    case _ =>
  }

  lemma {:induction false} GroupedOfBare(t: Expression, level: nat)
    ensures Grouped(Bare(t), level) == Grouped(t, level)
  {
    match t
    case Prefix(_, u) => GroupedOfBare(u, 6);
    case Infix(op, l, r) =>
      GroupedOfBare(l, Strength(op));
      GroupedOfBare(r, Strength(op) + 1);
    case Group(u) => GroupedOfBare(u, level);
    case _ =>
  }

  /**
   * Any tree, printed with the fewest parentheses, is read back to its end and
   * to its value.
   */
  lemma PrintedIsRead(t: Expression, env: Env, flags: Flags)
    ensures var ts := Print(Grouped(t, 0)); Expr(ts, env, 0, 0, flags) == Expected(t, env, |ts|, flags)
  {
    var u := Grouped(t, 0);
    GroupedFits(t, 0);
    BareMeansTheSame(t, env);
    BareMeansTheSame(u, env);
    hide Print, Fits, Expr, ValueOf, Messages, HasUndefined;
    var ts := Print(u);
    assert ts[0..|ts|] == ts;
    assert !Continues(ts, |ts|, 0);
    ReadExpr(ts, env, u, 0, 0, flags);
  }

  /** One operator between two literals: the result is the one its law determines. */
  lemma OperatorLaw(op: BinaryOp, a: Word, b: Word, env: Env)
    ensures var r := Expr([Number(a), op, Number(b)], env, 0, 0, Flags(false, 0));
            && r.Value? && r.pos == 3 && Computes(op, a, b, r.value) && !r.flags.undefined
            && r.flags.errors == if Complains(op, b, env.late) then 1 else 0
  {
    hide Expr, Computes, Complains;
    var t := Infix(op, Literal(a), Literal(b));
    assert Print(Literal(a)) == [Number(a)] && Print(Literal(b)) == [Number(b)];
    assert Print(t) == [Number(a)] + [op] + [Number(b)] == [Number(a), op, Number(b)];
    assert Grouped(t, 0) == t;
    PrintedIsRead(t, env, Flags(false, 0));
    assert ValueOf(Literal(a), env) == a && ValueOf(Literal(b), env) == b;
    assert Messages(Literal(a), env) == Messages(Literal(b), env) == 0;
    assert !HasUndefined(Literal(a), env) && !HasUndefined(Literal(b), env);
  }

  /** A printed tree is an operand, with the value of the tree, or 0 if a label is undefined. */
  lemma OperandOfTree(cfg: Config, t: Expression, labels: map<Name, Word>, here: Word, late: bool)
    requires Fits(t, 0)
    ensures var env := Env(labels, here, cfg.start, late);
            Evaluate(cfg, Print(t), labels, here, late) ==
            if TooDeep(Print(t), env, 0, Flags(false, 0)) then NoOperand
            else
              var undefined := HasUndefined(t, env);
              Operand(if undefined then 0 else ValueOf(t, env), undefined, Messages(t, env) > 0)
  {
    hide Expr, Print, Fits, ValueOf, Messages, HasUndefined, TooDeep;
    var ts := Print(t);
    assert ts[0..|ts|] == ts && !Continues(ts, |ts|, 0);
    ReadExpr(ts, Env(labels, here, cfg.start, late), t, 0, 0, Flags(false, 0));
  }

  /**
   * An operand is complete if and only if it is a printed tree, whole, with
   * no undefined label and no message, that the stack can hold; its value is
   * that of the tree.
   */
  lemma OperandExactly(cfg: Config, ts: seq<Token>, labels: map<Name, Word>, here: Word, late: bool)
    ensures var o, env := Evaluate(cfg, ts, labels, here, late), Env(labels, here, cfg.start, late);
            && (Complete(o) <==>
                !TooDeep(ts, env, 0, Flags(false, 0))
                && exists t :: Fits(t, 0) && Print(t) == ts && !HasUndefined(t, env) && Messages(t, env) == 0)
            && forall t :: Complete(o) && Fits(t, 0) && Print(t) == ts ==> o.value == ValueOf(t, env)
  {
    hide Expr, Print, Fits, ValueOf, Messages, HasUndefined, TooDeep;
    var env, none := Env(labels, here, cfg.start, late), Flags(false, 0);
    ExprExactly(ts, env, 0, none);
    assert forall t :: Print(t) == ts ==> ts[0..0 + |Print(t)|] == Print(t);
    assert !Continues(ts, |ts|, 0);
    var r := Expr(ts, env, 0, 0, none);
    if r.Value? && r.pos == |ts| {
      var t :| Fits(t, 0) && PrintedAt(ts, 0, t) && !Continues(ts, 0 + |Print(t)|, 0);
      assert ts[0..|ts|] == ts;
    }
  }
}
