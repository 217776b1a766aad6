/** value_div and value_mod of the evaluator against division rounded towards zero. */
module ValueDivision {
  import opened Words
  import opened Grammar
  import opened LongArithmetic

  lemma SignedWraps(a: Word)
    ensures Wrap(Signed(a)) == a
    ensures exists k :: Signed(a) == a + k * TWO_TO_THE_32
  {
    var k := if IsNegative(a) then -1 else 0;
    assert Signed(a) == a + k * TWO_TO_THE_32;
    WrapMultiple(a, k);
  }

  /** Wrapping factors first makes no difference to a product. */
  lemma WrapProduct(x: int, y: int, a: Word, b: Word)
    requires Wrap(x) == a && Wrap(y) == b
    ensures Wrap(x * y) == Wrap(a * b)
  {
    var k, l := x / TWO_TO_THE_32, y / TWO_TO_THE_32;
    var u, v := k * TWO_TO_THE_32, l * TWO_TO_THE_32;
    assert x == a + u && y == b + v;
    assert (a + u) * (b + v) == a * b + a * v + u * b + u * v;
    assert a * v == a * l * TWO_TO_THE_32 && u * b == k * b * TWO_TO_THE_32;
    assert u * v == k * v * TWO_TO_THE_32;
    WrapMultiple(a * b, a * l + k * b + k * v);
  }

  lemma WrapDifference(x: int, p: int, a: Word, m: int)
    requires Wrap(x) == a && Wrap(p) == Wrap(m)
    ensures Wrap(x - p) == Wrap(a - m)
  {
    WrapSum(x, p);
    WrapSum(x, 0 - Wrap(p));
    WrapSum(a, m);
  }

  lemma QuotientWraps(a: Word, b: Word)
    requires b != 0
    ensures SignedDiv(a, b) == Wrap(TruncDiv(Signed(a), Signed(b)))
  {
    NegatedIsAbs(a);
    NegatedIsAbs(b);
    var x, y := Abs(Signed(a)), Abs(Signed(b));
    hide IsQuotient, TruncDiv, TruncMod, Abs;
    DivBound(x, y);
    DivIsQuotient(x, y);
    SignsBack(x / y, x % y, a, b);
  }

  /**
   * The operators // and %% compute the rounded quotient and its remainder,
   * for all operands with a nonzero divisor, like __I4D does.
   */
  lemma SignedDivIsTruncated(a: Word, b: Word)
    requires b != 0
    ensures SignedDiv(a, b) == Wrap(TruncDiv(Signed(a), Signed(b)))
    ensures SignedMod(a, b) == Wrap(TruncMod(Signed(a), Signed(b)))
  {
    QuotientWraps(a, b);
    var x, y := Signed(a), Signed(b);
    TruncDivRoundsToZero(x, y);
    SignedWraps(a);
    SignedWraps(b);
    var q, r, d := TruncDiv(x, y), TruncMod(x, y), SignedDiv(a, b);
    hide *;
    WrapProduct(q, y, d, b);
    WrapDifference(x, q * y, a, d * b);
    ModIs(a, b);
  }

  lemma ModIs(a: Word, b: Word)
    requires b != 0
    ensures SignedMod(a, b) == Wrap(a - SignedDiv(a, b) * b)
  {
  }
}
