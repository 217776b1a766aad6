/**
 * What the operators of expressions mean: a law for each of them that
 * determines the result, without saying how it is computed.
 */
module Operators {
  import opened Words
  import opened Grammar
  import opened LongArithmetic
  import opened ValueDivision

  predicate IsBinary(t: Token) {
    Strength(t) <= 5
  }

  predicate IsSign(t: Token) {
    t == Plus || t == Minus || t == Tilde
  }

  /** How tightly a binary operator binds; 6 for what is none. */
  function Strength(t: Token): nat {
    match t
    case Star | Slash | SlashSlash | Percent | PercentPercent => 5
    case Plus | Minus => 4
    case ShiftLeft | ShiftRight => 3
    case And => 2
    case Xor => 1
    case Or => 0
    case _ => 6
  }

  type BinaryOp = t: Token | IsBinary(t) witness Plus

  type SignOp = t: Token | IsSign(t) witness Plus

  // ----- the laws -----

  /** Equal in 32 bits. */
  predicate Congruent(x: int, y: int) {
    (x - y) % TWO_TO_THE_32 == 0
  }

  /** Bit i, counted from the lowest. */
  predicate BitOf(a: nat, i: nat) {
    if i == 0 then a % 2 == 1 else BitOf(a / 2, i - 1)
  }

  /** Division rounded towards zero: the remainder is small and has the sign of the dividend. */
  ghost predicate IsTruncated(q: int, r: int, a: int, b: int) {
    a == q * b + r && Abs(r) < Abs(b) && (a >= 0 ==> r >= 0) && (a <= 0 ==> r <= 0)
  }

  function Doubled(a: Word, n: nat): Word {
    if n == 0 then a else (2 * Doubled(a, n - 1)) % TWO_TO_THE_32
  }

  /** A divisor of 0 counts as 1. */
  function NonzeroDivisor(b: Word): Word {
    if b == 0 then 1 else b
  }

  /** Shifting by more than 31 does not shift. */
  function Shift(b: Word): nat {
    if b > 31 then 0 else b
  }

  /** a op b is v. */
  ghost predicate Computes(op: BinaryOp, a: Word, b: Word, v: Word) {
    match op
    case Plus => Congruent(v, a + b)
    case Minus => Congruent(v + b, a)
    case Star => Congruent(v, a * b)
    case Slash => exists r :: IsQuotient(v, r, a, NonzeroDivisor(b))
    case Percent => exists q :: IsQuotient(q, v, a, NonzeroDivisor(b))
    case SlashSlash => exists q, r :: IsTruncated(q, r, Signed(a), Signed(NonzeroDivisor(b))) && Congruent(v, q)
    case PercentPercent => exists q, r :: IsTruncated(q, r, Signed(a), Signed(NonzeroDivisor(b))) && Congruent(v, r)
    case ShiftLeft => v == Doubled(a, Shift(b))
    case ShiftRight => exists r :: IsQuotient(v, r, a, Pow2(Shift(b)))
    case And => forall i :: 0 <= i < 32 ==> (BitOf(v, i) <==> BitOf(a, i) && BitOf(b, i))
    case Xor => forall i :: 0 <= i < 32 ==> (BitOf(v, i) <==> BitOf(a, i) != BitOf(b, i))
    case Or => forall i :: 0 <= i < 32 ==> (BitOf(v, i) <==> BitOf(a, i) || BitOf(b, i))
  }

  /** op x is v. */
  ghost predicate ComputesSign(op: SignOp, x: Word, v: Word) {
    match op
    case Plus => v == x
    case Minus => Congruent(v + x, 0)
    case Tilde => forall i :: 0 <= i < 32 ==> BitOf(v, i) != BitOf(x, i)
  }

  // ----- they determine the result -----

  lemma CongruentWords(v: Word, w: Word, x: int)
    requires Congruent(v, x) && Congruent(w, x)
    ensures v == w
  {
    var k, l := (v - x) / TWO_TO_THE_32, (w - x) / TWO_TO_THE_32;
    assert v - x == k * TWO_TO_THE_32 && w - x == l * TWO_TO_THE_32;
  }

  lemma OppositeIsCongruent(v: Word, x: Word)
    requires Congruent(v + x, 0)
    ensures Congruent(v, 0 - x)
  {
  }

  lemma {:induction false} SameBits(v: nat, w: nat, n: nat)
    requires v < Pow2(n) && w < Pow2(n) && forall i :: 0 <= i < n ==> (BitOf(v, i) <==> BitOf(w, i))
    ensures v == w
    decreases n
  {
    if n > 0 {
      assert BitOf(v, 0) <==> BitOf(w, 0);
      forall i | 0 <= i < n - 1 ensures BitOf(v / 2, i) <==> BitOf(w / 2, i) {
        assert BitOf(v, i + 1) <==> BitOf(w, i + 1);
      }
      SameBits(v / 2, w / 2, n - 1);
    }
  }

  lemma Pow2Of32()
    ensures Pow2(32) == TWO_TO_THE_32
  {
    assert Pow2(8) == 0x100;
    assert Pow2(16) == 0x1_0000;
    assert Pow2(24) == 0x100_0000;
  }

  lemma TruncatedUnique(q: int, r: int, q': int, r': int, a: int, b: int)
    requires IsTruncated(q, r, a, b) && IsTruncated(q', r', a, b)
    ensures q == q' && r == r'
  {
    var s, t := if a < 0 then -1 else 1, if b < 0 then -1 else 1;
    TruncatedMagnitudes(q, r, a, b);
    TruncatedMagnitudes(q', r', a, b);
    QuotientUnique(s * t * q, s * r, s * t * q', s * r', Abs(a), Abs(b));
  }

  lemma TruncatedMagnitudes(q: int, r: int, a: int, b: int)
    requires IsTruncated(q, r, a, b)
    ensures var s, t := if a < 0 then -1 else 1, if b < 0 then -1 else 1;
            IsQuotient(s * t * q, s * r, Abs(a), Abs(b))
  {
    assert (0 - q) * b == 0 - q * b == q * (0 - b);
  }

  lemma ComputesUnique(op: BinaryOp, a: Word, b: Word, v: Word, w: Word)
    requires Computes(op, a, b, v) && Computes(op, a, b, w)
    ensures v == w
  {
    hide Pow2, BitOf, Doubled, IsQuotient, IsTruncated, Congruent;
    match op
    case Plus => CongruentWords(v, w, a + b);
    case Minus =>
      MinusIsPlus(v, a, b);
      MinusIsPlus(w, a, b);
      CongruentWords(v, w, a - b);
    case Star => CongruentWords(v, w, a * b);
    case Slash =>
      var r, r' :| IsQuotient(v, r, a, NonzeroDivisor(b)) && IsQuotient(w, r', a, NonzeroDivisor(b));
      QuotientUnique(v, r, w, r', a, NonzeroDivisor(b));
    case Percent =>
      var q, q' :| IsQuotient(q, v, a, NonzeroDivisor(b)) && IsQuotient(q', w, a, NonzeroDivisor(b));
      QuotientUnique(q, v, q', w, a, NonzeroDivisor(b));
    case SlashSlash =>
      var x, y := Signed(a), Signed(NonzeroDivisor(b));
      var q, r :| IsTruncated(q, r, x, y) && Congruent(v, q);
      var q', r' :| IsTruncated(q', r', x, y) && Congruent(w, q');
      TruncatedUnique(q, r, q', r', x, y);
      CongruentWords(v, w, q);
    case PercentPercent =>
      var x, y := Signed(a), Signed(NonzeroDivisor(b));
      var q, r :| IsTruncated(q, r, x, y) && Congruent(v, r);
      var q', r' :| IsTruncated(q', r', x, y) && Congruent(w, r');
      TruncatedUnique(q, r, q', r', x, y);
      CongruentWords(v, w, r);
    case ShiftLeft =>
    case ShiftRight =>
      var r, r' :| IsQuotient(v, r, a, Pow2(Shift(b))) && IsQuotient(w, r', a, Pow2(Shift(b)));
      QuotientUnique(v, r, w, r', a, Pow2(Shift(b)));
    case And | Xor | Or =>
      Pow2Of32();
      SameBits(v, w, 32);
  }

  lemma MinusIsPlus(v: Word, a: Word, b: Word)
    requires Congruent(v + b, a)
    ensures Congruent(v, a - b)
  {
  }

  lemma ComputesSignUnique(op: SignOp, x: Word, v: Word, w: Word)
    requires ComputesSign(op, x, v) && ComputesSign(op, x, w)
    ensures v == w
  {
    hide Pow2, BitOf, Congruent;
    match op
    case Plus =>
    case Minus =>
      OppositeIsCongruent(v, x);
      OppositeIsCongruent(w, x);
      CongruentWords(v, w, 0 - x);
    case Tilde =>
      Pow2Of32();
      SameBits(v, w, 32);
  }

  // ----- the evaluator computes it -----

  lemma WrapIsCongruent(x: int)
    ensures Congruent(Wrap(x), x)
  {
  }

  lemma {:induction false} ShiftDoubles(a: Word, n: nat)
    ensures Wrap(a * Pow2(n)) == Doubled(a, n)
    decreases n
  {
    if n > 0 {
      ShiftDoubles(a, n - 1);
      TwicePow2(a, n);
      DoubleWraps(a * Pow2(n - 1));
    } else {
      assert a * Pow2(0) == a;
    }
  }

  lemma TwicePow2(a: nat, n: nat)
    requires n > 0
    ensures a * Pow2(n) == 2 * (a * Pow2(n - 1))
  {
  }

  lemma DoubleWraps(x: int)
    ensures Wrap(2 * x) == (2 * Wrap(x)) % TWO_TO_THE_32
  {
    hide Wrap;
    WrapSum(x, x);
    WrapSum(Wrap(x), x);
    WrapIs(Wrap(x) + Wrap(x));
  }

  lemma WrapIs(x: int)
    ensures Wrap(x) == x % TWO_TO_THE_32
  {
  }

  lemma {:induction false} BitwiseBits(f: (bool, bool) -> bool, a: nat, b: nat, n: nat, i: nat)
    requires i < n
    ensures BitOf(Bitwise(f, a, b, n), i) <==> f(BitOf(a, i), BitOf(b, i))
    decreases n
  {
    var rest := Bitwise(f, a / 2, b / 2, n - 1);
    assert Bitwise(f, a, b, n) / 2 == rest;
    if i > 0 { BitwiseBits(f, a / 2, b / 2, n - 1, i - 1); }
  }

  lemma {:induction false} BitwiseFits(f: (bool, bool) -> bool, a: nat, b: nat, n: nat)
    ensures Bitwise(f, a, b, n) < Pow2(n)
    decreases n
  {
    if n > 0 { BitwiseFits(f, a / 2, b / 2, n - 1); }
  }

  lemma WordBits(f: (bool, bool) -> bool, a: Word, b: Word, v: Word)
    requires v == Wrap(Bitwise(f, a, b, 32))
    ensures forall i :: 0 <= i < 32 ==> (BitOf(v, i) <==> f(BitOf(a, i), BitOf(b, i)))
  {
    hide BitOf, Bitwise;
    BitwiseFits(f, a, b, 32);
    Pow2Of32();
    forall i | 0 <= i < 32 ensures BitOf(v, i) <==> f(BitOf(a, i), BitOf(b, i)) { BitwiseBits(f, a, b, 32, i); }
  }

  lemma {:induction false} ComplementBits(x: nat, n: nat, i: nat)
    requires i < n && x < Pow2(n)
    ensures BitOf(Pow2(n) - 1 - x, i) != BitOf(x, i)
    decreases n
  {
    if i > 0 {
      assert (Pow2(n) - 1 - x) / 2 == Pow2(n - 1) - 1 - x / 2;
      ComplementBits(x / 2, n - 1, i - 1);
    }
  }

  lemma DivisionComputes(a: Word, b: Word)
    requires b != 0
    ensures IsQuotient(Div(a, b), Mod(a, b), a, b)
    ensures exists q, r :: IsTruncated(q, r, Signed(a), Signed(b)) && Congruent(SignedDiv(a, b), q)
    ensures exists q, r :: IsTruncated(q, r, Signed(a), Signed(b)) && Congruent(SignedMod(a, b), r)
  {
    DivIsQuotient(a, b);
    SignedDivIsTruncated(a, b);
    var x, y := Signed(a), Signed(b);
    TruncDivRoundsToZero(x, y);
    hide SignedDiv, SignedMod, TruncDiv, TruncMod;
    WrapIsCongruent(TruncDiv(x, y));
    WrapIsCongruent(TruncMod(x, y));
    assert IsTruncated(TruncDiv(x, y), TruncMod(x, y), x, y);
  }

  /** The operator that is found in a tier, applied by the evaluator, obeys its law. */
  lemma ApplyComputes(ts: seq<Token>, p: nat, tier: nat, a: Word, b: Word)
    requires OpAt(ts, p, tier) != 0
    ensures p < |ts| && IsBinary(ts[p]) && Strength(ts[p]) == tier
    ensures Computes(ts[p], a, b, Apply(OpAt(ts, p, tier), a, b))
  {
    hide Pow2, BitOf, Doubled, IsQuotient, Congruent, Bitwise, SignedDiv, SignedMod, Div, Mod;
    var v := Apply(OpAt(ts, p, tier), a, b);
    DivisionComputes(a, NonzeroDivisor(b));
    match ts[p]
    case Plus => WrapIsCongruent(a + b);
    case Minus => DifferenceComputes(a, b);
    case Star => WrapIsCongruent(a * b);
    case ShiftLeft => ShiftDoubles(a, Shift(b));
    case ShiftRight => HalvingComputes(a, Pow2(Shift(b)));
    case And => WordBits((x, y) => x && y, a, b, v);
    case Xor => WordBits((x, y) => x != y, a, b, v);
    case Or => WordBits((x, y) => x || y, a, b, v);
    case _ =>
  }

  lemma DifferenceComputes(a: Word, b: Word)
    ensures Congruent(Wrap(a - b) + b, a)
  {
  }

  lemma HalvingComputes(a: Word, d: nat)
    requires d > 0
    ensures IsQuotient(Div(a, d), a % d, a, d)
  {
    DivIsQuotient(a, d);
  }

  lemma NegateComputes(x: Word)
    ensures ComputesSign(Minus, x, Negated(x))
  {
  }

  lemma ComplementComputes(x: Word)
    ensures ComputesSign(Tilde, x, Wrap(-1 - x))
  {
    Pow2Of32();
    hide Pow2, BitOf;
    assert Wrap(-1 - x) == Pow2(32) - 1 - x;
    forall i | 0 <= i < 32 ensures BitOf(Wrap(-1 - x), i) != BitOf(x, i) { ComplementBits(x, 32, i); }
  }

  /** Where the operator stands it is found, in its tier, unless a sum is to be left to the registers. */
  lemma OperatorFound(ts: seq<Token>, p: nat, tier: nat)
    requires tier <= 5
    ensures OpAt(ts, p, tier) != 0 <==>
            && p < |ts| && Strength(ts[p]) == tier
            && (ts[p] == Plus || ts[p] == Minus ==> At(ts, p + 1) != Register16)
  {
  }

  /** What is reported about operands: in late passes, division by zero and overlong shifts. */
  predicate Complains(op: BinaryOp, b: Word, late: bool) {
    late && match op
            case Slash | SlashSlash | Percent | PercentPercent => b == 0
            case ShiftLeft | ShiftRight => b > 31
            case _ => false
  }

  lemma ComplaintExactly(ts: seq<Token>, p: nat, tier: nat, b: Word, late: bool)
    requires OpAt(ts, p, tier) != 0
    ensures p < |ts| && IsBinary(ts[p])
    ensures Complaint(OpAt(ts, p, tier), b, late) == if Complains(ts[p], b, late) then 1 else 0
  {
  }

  // ----- the result as a function -----

  ghost function ResultOf(op: BinaryOp, a: Word, b: Word): (v: Word)
    ensures Computes(op, a, b, v)
  {
    ResultExists(op, a, b);
    var v :| Computes(op, a, b, v);
    v
  }

  lemma ResultExists(op: BinaryOp, a: Word, b: Word)
    ensures exists v: Word :: Computes(op, a, b, v)
  {
    hide Computes, Apply;
    OperatorFound([op], 0, Strength(op));
    ApplyComputes([op], 0, Strength(op), a, b);
  }

  ghost function SignResult(op: SignOp, x: Word): (v: Word)
    ensures ComputesSign(op, x, v)
  {
    NegateComputes(x);
    ComplementComputes(x);
    assert op == Plus ==> ComputesSign(op, x, x);
    var v :| ComputesSign(op, x, v);
    v
  }
}
