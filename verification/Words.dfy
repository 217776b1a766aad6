/** 32-bit values with wrap-around, as the assembler computes them. */
module Words {

  const TWO_TO_THE_32 := 0x1_0000_0000

  type Word = x: int | 0 <= x < TWO_TO_THE_32

  function Wrap(x: int): (w: Word) {
    x % TWO_TO_THE_32
  }

  function Pow2(k: nat): (p: nat)
    ensures p > 0
  {
    if k == 0 then 1 else 2 * Pow2(k - 1)
  }

  predicate IsNegative(a: Word) {
    a >= 0x8000_0000
  }

  /** The signed reading of a value. */
  function Signed(a: Word): (x: int) {
    if IsNegative(a) then a - TWO_TO_THE_32 else a
  }

  function Negated(a: Word): Word {
    Wrap(0 - a)
  }

  lemma NegatedValue(a: Word)
    ensures Negated(a) == if a == 0 then 0 else TWO_TO_THE_32 - a
  {
  }

  lemma MulGrows(x: int, b: nat)
    requires b >= 1
    ensures x >= 0 ==> x * b >= x
    ensures x <= 0 ==> x * b <= x
  {
    if x >= 0 { assert x * (b - 1) >= 0; } else { assert (0 - x) * (b - 1) >= 0; }
  }

  lemma DivBound(a: nat, b: nat)
    requires b != 0
    ensures 0 <= a / b <= a && 0 <= a % b <= a
  {
    var q, r := a / b, a % b;
    assert a == q * b + r;
    MulGrows(q, b);
    MulGrows(q + 1, b);
    assert (q + 1) * b == q * b + b;
  }

  function Div(a: Word, b: nat): Word
    requires b != 0
  {
    DivBound(a, b);
    a / b
  }

  function Mod(a: Word, b: nat): Word
    requires b != 0
  {
    DivBound(a, b);
    a % b
  }

  /** Bitwise operations, bit by bit from the lowest of n bits. */
  function Bitwise(op: (bool, bool) -> bool, a: nat, b: nat, n: nat): nat {
    if n == 0 then 0
    else 2 * Bitwise(op, a / 2, b / 2, n - 1) + if op(a % 2 == 1, b % 2 == 1) then 1 else 0
  }

  function BitAnd(a: Word, b: Word): Word {
    Wrap(Bitwise((x, y) => x && y, a, b, 32))
  }

  function BitXor(a: Word, b: Word): Word {
    Wrap(Bitwise((x, y) => x != y, a, b, 32))
  }

  function BitOr(a: Word, b: Word): Word {
    Wrap(Bitwise((x, y) => x || y, a, b, 32))
  }

  /** Wrapping an operand first makes no difference to a sum. */
  lemma WrapSum(a: int, b: int)
    ensures Wrap(a + Wrap(b)) == Wrap(a + b)
    ensures Wrap(Wrap(a) + b) == Wrap(a + b)
    ensures Wrap(a - Wrap(b)) == Wrap(a - b)
  {
    var k, l := a / TWO_TO_THE_32, b / TWO_TO_THE_32;
    assert a == k * TWO_TO_THE_32 + Wrap(a) && b == l * TWO_TO_THE_32 + Wrap(b);
    WrapMultiple(a + Wrap(b), l);
    WrapMultiple(Wrap(a) + b, k);
    WrapMultiple(a - Wrap(b), -l);
  }

  lemma WrapMultiple(x: int, k: int)
    ensures Wrap(x + k * TWO_TO_THE_32) == Wrap(x)
  {
  }
}
