/**
 * 32-bit division and multiplication on 16-bit registers: __U4D, __I4D and
 * __U4M, instruction by instruction.
 */
module LongArithmetic {
  import opened Words

  const TWO_TO_THE_16 := 0x1_0000

  type Reg = x: int | 0 <= x < TWO_TO_THE_16

  /** The 32-bit value of a register pair. */
  function Pair(hi: Reg, lo: Reg): Word {
    hi * TWO_TO_THE_16 + lo
  }

  // ----- instructions: result and carry flag -----

  function Bit(carry: bool): int {
    if carry then 1 else 0
  }

  /** add (carry in false) and adc. */
  function Add(x: Reg, y: Reg, carry: bool): (Reg, bool) {
    var s := x + y + Bit(carry);
    if s < TWO_TO_THE_16 then (s, false) else (s - TWO_TO_THE_16, true)
  }

  /** sub (carry in false) and sbb. */
  function Sub(x: Reg, y: Reg, carry: bool): (Reg, bool) {
    var d := x - y - Bit(carry);
    if d < 0 then (d + TWO_TO_THE_16, true) else (d, false)
  }

  /** rcr by 1; shr by 1 when the carry in is false. */
  function Rcr(x: Reg, carry: bool): (Reg, bool) {
    (x / 2 + (if carry then 0x8000 else 0), x % 2 == 1)
  }

  /** neg. */
  function Neg(x: Reg): (Reg, bool) {
    Sub(0, x, false)
  }

  /** add lo, lo2; adc hi, hi2 */
  lemma AddPair(hi: Reg, lo: Reg, hi2: Reg, lo2: Reg)
    ensures var (l, c) := Add(lo, lo2, false);
            var (h, c2) := Add(hi, hi2, c);
            Pair(h, l) + (if c2 then TWO_TO_THE_32 else 0) == Pair(hi, lo) + Pair(hi2, lo2)
  {
  }

  /** sub lo, lo2; sbb hi, hi2 */
  lemma SubPair(hi: Reg, lo: Reg, hi2: Reg, lo2: Reg)
    ensures var (l, c) := Sub(lo, lo2, false);
            var (h, c2) := Sub(hi, hi2, c);
            Pair(h, l) - (if c2 then TWO_TO_THE_32 else 0) == Pair(hi, lo) - Pair(hi2, lo2)
  {
  }

  /** rcr hi, 1; rcr lo, 1 */
  lemma RcrPair(hi: Reg, lo: Reg, carry: bool)
    ensures var (h, c) := Rcr(hi, carry);
            var (l, c2) := Rcr(lo, c);
            2 * Pair(h, l) + Bit(c2) == Pair(hi, lo) + (if carry then TWO_TO_THE_32 else 0)
  {
  }

  lemma PairOrder(hi: Reg, lo: Reg, hi2: Reg, lo2: Reg)
    ensures Pair(hi, lo) < Pair(hi2, lo2) <==> hi < hi2 || (hi == hi2 && lo < lo2)
  {
  }

  lemma MulNonNegative(x: nat, y: nat)
    ensures x * y >= 0
  {
  }

  lemma MulMonotone(x: int, z: int, y: int)
    requires y > 0
    ensures x >= z ==> x * y >= z * y
    ensures x < z ==> x * y + y <= z * y
  {
    if x >= z {
      MulNonNegative(x - z, y);
      assert (x - z) * y == x * y - z * y;
    } else {
      MulNonNegative(z - x - 1, y);
      assert (z - x - 1) * y == z * y - x * y - y;
    }
  }

  /** The div instruction: dx:ax by y, which faults unless dx < y. */
  method DivInstruction(dx: Reg, ax: Reg, y: Reg) returns (ax': Reg, dx': Reg)
    requires dx < y
    ensures IsQuotient(ax', dx', Pair(dx, ax), y)
  {
    var a := Pair(dx, ax);
    var q, r := a / y, a % y;
    assert a == q * y + r;
    MulMonotone(q, TWO_TO_THE_16, y);
    MulMonotone(q, 0, y);
    ax', dx' := q, r;
  }

  ghost predicate IsQuotient(q: int, r: int, a: int, b: int) {
    a == q * b + r && 0 <= r < b
  }

  /** Quotient and remainder are determined by that. */
  lemma QuotientUnique(q: int, r: int, q': int, r': int, a: int, b: int)
    requires IsQuotient(q, r, a, b) && IsQuotient(q', r', a, b)
    ensures q == q' && r == r'
  {
    MulMonotone(q, q', b);
    MulMonotone(q', q, b);
  }

  // ----- __U4D -----

  // The labels .10, .11, .12 and .14 of the subtraction loop.
  datatype Label = L10 | L11 | L12 | L14

  /** The divisor shifted left k times. */
  ghost function Scaled(d: nat, k: nat): nat {
    d * Pow2(k)
  }

  lemma Halve(d: nat, k: nat)
    ensures Scaled(d, k + 1) == 2 * Scaled(d, k)
    ensures Scaled(d, k) >= d && Scaled(d, 0) == d
  {
    assert d * (2 * Pow2(k)) == 2 * (d * Pow2(k));
    MulGrows(d, Pow2(k));
  }

  /** Quotient bits stay within the register. */
  lemma QuotientFits(s: nat, r: int, a: Word, d: int)
    requires IsQuotient(s, r, a, d) && d >= TWO_TO_THE_16
    ensures s < TWO_TO_THE_16 && 0 <= r < d
  {
    MulMonotone(s, TWO_TO_THE_16, d);
    assert TWO_TO_THE_16 * d >= TWO_TO_THE_16 * TWO_TO_THE_16;
  }

  // The registers and the carry flag; bp counts below 32 and may end at -1.
  datatype Cpu = Cpu(ax: Reg, dx: Reg, bx: Reg, cx: Reg, si: Reg, bp: int, carry: bool, pc: Label)
  {
    function Dividend(): Word { Pair(dx, ax) }
    function Divisor(): Word { Pair(cx, bx) }
  }

  /**
   * The invariant of the loop for a / d. At .10 the carry is the next quotient
   * bit; at .11 it may hold the top bit of the divisor; at .12 the dividend
   * went below zero and has wrapped around.
   */
  ghost predicate Dividing(c: Cpu, a: Word, d: Word) {
    match c.pc
    case L10 =>
      && c.bp >= 0 && c.Divisor() == Scaled(d, c.bp)
      && IsQuotient(2 * c.si + Bit(c.carry), c.Dividend(), a, c.Divisor())
    case L11 =>
      var e := c.Divisor() + (if c.carry then TWO_TO_THE_32 else 0);
      && c.bp >= 0 && e == Scaled(d, c.bp + 1)
      && IsQuotient(c.si, c.Dividend(), a, e)
    case L12 =>
      && c.bp >= 0 && c.Divisor() == Scaled(d, c.bp)
      && IsQuotient(2 * c.si, c.Dividend() - TWO_TO_THE_32 + c.Divisor(), a, c.Divisor())
    case L14 => IsQuotient(c.si, c.Dividend(), a, d)
  }

  lemma IntoHalves(s: int, r: int, a: int, e: int, half: int)
    requires IsQuotient(s, r, a, e) && e == 2 * half
    ensures r >= half ==> IsQuotient(2 * s + 1, r - half, a, half)
    ensures r < half ==> IsQuotient(2 * s, r, a, half)
  {
    assert s * (2 * half) == 2 * s * half;
    assert (2 * s + 1) * half == 2 * s * half + half;
  }

  /** .10: shift the carry into the quotient, next lower divisor. */
  method At10(c: Cpu, ghost a: Word, ghost d: Word) returns (c': Cpu)
    requires c.pc == L10 && Dividing(c, a, d) && d >= TWO_TO_THE_16
    ensures Dividing(c', a, d) && c'.bp < c.bp
  {
    Halve(d, c.bp);
    QuotientFits(2 * c.si + Bit(c.carry), c.Dividend(), a, c.Divisor());
    hide IsQuotient, Scaled;
    var s := Add(c.si, c.si, c.carry);
    c' := c.(si := s.0, carry := s.1, bp := c.bp - 1, pc := if c.bp == 0 then L14 else L11);
  }

  /** rcr cx, 1; rcr bx, 1; sub ax, bx; sbb dx, cx: the borrow tells whether half the divisor fits. */
  method SubHalf(ax: Reg, dx: Reg, bx: Reg, cx: Reg, carry: bool, ghost e: int)
    returns (ax': Reg, dx': Reg, bx': Reg, cx': Reg, borrow: bool)
    requires e == Pair(cx, bx) + (if carry then TWO_TO_THE_32 else 0) && e % 2 == 0
    ensures 2 * Pair(cx', bx') == e
    ensures Pair(dx', ax') - (if borrow then TWO_TO_THE_32 else 0) == Pair(dx, ax) - Pair(cx', bx')
  {
    RcrPair(cx, bx, carry);
    var h := Rcr(cx, carry);
    var l := Rcr(bx, h.1);
    bx', cx' := l.0, h.0;
    SubPair(dx, ax, cx', bx');
    var x := Sub(ax, bx', false);
    var y := Sub(dx, cx', x.1);
    ax', dx', borrow := x.0, y.0, y.1;
  }

  lemma PairIsWord(hi: Reg, lo: Reg)
    ensures 0 <= Pair(hi, lo) < TWO_TO_THE_32
  {
  }

  /** .11: halve the divisor and subtract it. */
  method At11(c: Cpu, ghost a: Word, ghost d: Word) returns (c': Cpu)
    requires c.pc == L11 && Dividing(c, a, d) && d >= TWO_TO_THE_16
    ensures Dividing(c', a, d) && c'.bp == c.bp && (c'.pc == L10 || c'.pc == L12)
  {
    hide IsQuotient, Scaled, Pair;
    ghost var e, half := c.Divisor() + (if c.carry then TWO_TO_THE_32 else 0), Scaled(d, c.bp);
    Halve(d, c.bp);
    QuotientFits(c.si, c.Dividend(), a, e);
    var ax, dx, bx, cx, borrow := SubHalf(c.ax, c.dx, c.bx, c.cx, c.carry, e);
    PairIsWord(dx, ax);
    IntoHalves(c.si, c.Dividend(), a, e, half);
    c' := Cpu(ax, dx, bx, cx, c.si, c.bp, !borrow, if borrow then L12 else L10);
  }

  /** Adding the halved divisor to a dividend below zero: the carry tells which side of zero it is on. */
  method AddHalf(ax: Reg, dx: Reg, bx: Reg, cx: Reg, ghost r: int)
    returns (ax': Reg, dx': Reg, bx': Reg, cx': Reg, carry: bool)
    requires r == Pair(dx, ax) - TWO_TO_THE_32 + Pair(cx, bx) && 0 <= r < Pair(cx, bx)
    requires bx % 2 == 0
    ensures 2 * Pair(cx', bx') == Pair(cx, bx)
    ensures Pair(dx', ax') - (if carry then 0 else TWO_TO_THE_32) == r - Pair(cx', bx')
    ensures carry <==> r >= Pair(cx', bx')
  {
    RcrPair(cx, bx, false);
    var h := Rcr(cx, false);
    var l := Rcr(bx, h.1);
    bx', cx' := l.0, h.0;
    AddPair(dx, ax, cx', bx');
    var x := Add(ax, bx', false);
    var y := Add(dx, cx', x.1);
    ax', dx', carry := x.0, y.0, y.1;
  }

  lemma EvenPair(hi: Reg, lo: Reg, half: int)
    requires Pair(hi, lo) == 2 * half
    ensures lo % 2 == 0
  {
  }

  /** .12, another round: a zero quotient bit, then add the halved divisor. */
  method At12(c: Cpu, ghost a: Word, ghost d: Word) returns (c': Cpu)
    requires c.pc == L12 && Dividing(c, a, d) && d >= TWO_TO_THE_16 && c.bp > 0
    ensures Dividing(c', a, d) && c'.bp < c.bp && (c'.pc == L10 || c'.pc == L12)
  {
    hide IsQuotient, Scaled, Pair;
    ghost var r, half := c.Dividend() - TWO_TO_THE_32 + c.Divisor(), Scaled(d, c.bp - 1);
    Halve(d, c.bp - 1);
    Halve(d, c.bp);
    QuotientFits(2 * c.si, r, a, c.Divisor());
    var s := Add(c.si, c.si, false);
    EvenPair(c.cx, c.bx, half);
    var ax, dx, bx, cx, carry := AddHalf(c.ax, c.dx, c.bx, c.cx, r);
    IntoHalves(2 * c.si, r, a, c.Divisor(), half);
    c' := Cpu(ax, dx, bx, cx, s.0, c.bp - 1, carry, if carry then L10 else L12);
  }

  /** .12 and .13, the last round: a zero quotient bit, and the divisor is added back. */
  method At13(c: Cpu, ghost a: Word, ghost d: Word) returns (c': Cpu)
    requires c.pc == L12 && Dividing(c, a, d) && d >= TWO_TO_THE_16 && c.bp == 0
    ensures Dividing(c', a, d) && c'.pc == L14 && c'.bp < c.bp
  {
    QuotientFits(2 * c.si, c.Dividend() - TWO_TO_THE_32 + c.Divisor(), a, c.Divisor());
    hide IsQuotient, Scaled;
    var s := Add(c.si, c.si, false);
    AddPair(c.dx, c.ax, c.cx, c.bx);
    var x := Add(c.ax, c.bx, false);
    var y := Add(c.dx, c.cx, x.1);
    c' := c.(ax := x.0, dx := y.0, si := s.0, bp := -1, carry := y.1, pc := L14);
    assert c.Divisor() == d;
    assert c'.si == 2 * c.si && c'.Dividend() == c.Dividend() - TWO_TO_THE_32 + c.Divisor();
  }

  lemma DividingEnds(c: Cpu, a: Word, d: Word)
    requires Dividing(c, a, d)
    ensures if c.pc == L14 then IsQuotient(c.si, c.Dividend(), a, d) else c.bp >= 0
  {
  }

  /**
   * The loop of __U4D for a divisor above 0xffff, non-restoring: a difference
   * that went below zero is not undone but made up for by adding the halved
   * divisor, and added back only at the very end.
   */
  method SubtractLoop(start: Cpu, ghost a: Word, ghost d: Word) returns (c: Cpu)
    requires Dividing(start, a, d) && d >= TWO_TO_THE_16
    ensures IsQuotient(c.si, c.Dividend(), a, d)
  {
    hide *;
    c := start;
    DividingEnds(c, a, d);
    while c.pc != L14
      invariant Dividing(c, a, d)
      invariant c.pc != L14 ==> c.bp >= 0
      decreases c.bp, if c.pc == L11 then 1 else 0
    {
      match c.pc {
        case L10 => c := At10(c, a, d);
        case L11 => c := At11(c, a, d);
        case L12 => if c.bp > 0 { c := At12(c, a, d); } else { c := At13(c, a, d); }
      }
      DividingEnds(c, a, d);
    }
    DividingEnds(c, a, d);
  }

  /** .8 and .9: double the divisor until it passes the dividend or loses its top bit. */
  method DoubleLoop(ax: Reg, dx: Reg, bx: Reg, cx: Reg) returns (c: Cpu)
    requires cx > 0 && Pair(cx, bx) <= Pair(dx, ax)
    ensures Dividing(c, Pair(dx, ax), Pair(cx, bx))
  {
    ghost var a, d := Pair(dx, ax), Pair(cx, bx);
    Halve(d, 0);
    hide Scaled;
    c := Cpu(ax, dx, bx, cx, 0, 0, false, L10);
    while true
      invariant c.ax == ax && c.dx == dx && c.si == 0 && c.bp >= 0
      invariant c.Divisor() == Scaled(d, c.bp) && d <= c.Divisor() <= a
      decreases a - c.Divisor()
    {
      Halve(d, c.bp);
      AddPair(c.cx, c.bx, c.cx, c.bx);
      var l := Add(c.bx, c.bx, false);
      var h := Add(c.cx, c.cx, l.1);
      PairOrder(h.0, l.0, dx, ax);
      PairOrder(dx, ax, h.0, l.0);
      if h.1 {
        return c.(bx := l.0, cx := h.0, carry := true, pc := L11);
      }
      c := c.(bx := l.0, cx := h.0, bp := c.bp + 1);
      if !(h.0 < dx || (h.0 == dx && l.0 <= ax)) {
        return c.(carry := false, pc := L10);
      }
    }
  }

  /**
   * __U4D: dx:ax divided by cx:bx, quotient in dx:ax and remainder in cx:bx.
   */
  method U4D(ax: Reg, dx: Reg, bx: Reg, cx: Reg) returns (ax': Reg, dx': Reg, bx': Reg, cx': Reg)
    requires Pair(cx, bx) != 0
    ensures IsQuotient(Pair(dx', ax'), Pair(cx', bx'), Pair(dx, ax), Pair(cx, bx))
  {
    ax', dx', bx', cx' := ax, dx, bx, cx;
    if cx == 0 {
      if bx == 1 {
        bx' := 0;
        return;
      }
      if bx <= dx {
        cx', dx' := DivInstruction(0, dx, bx);
      }
      var remainder: Reg;
      ax', remainder := DivInstruction(dx', ax, bx);
      TwoDigits(cx', dx', ax', remainder, dx, ax, bx);
      bx', dx', cx' := remainder, cx', 0;
    } else if cx < dx {
      var c := DoubleLoop(ax, dx, bx, cx);
      c := SubtractLoop(c, Pair(dx, ax), Pair(cx, bx));
      ax', dx', bx', cx' := c.si, 0, c.ax, c.dx;
    } else if cx == dx && bx <= ax {
      ax', dx', bx', cx' := 1, 0, ax - bx, 0;
    } else {
      ax', dx', bx', cx' := 0, 0, ax, dx;
    }
  }

  /** Long division by one 16-bit digit, high digit first. */
  lemma TwoDigits(qh: Reg, rh: Reg, ql: Reg, rl: Reg, dx: Reg, ax: Reg, y: Reg)
    requires IsQuotient(qh, rh, dx, y) && IsQuotient(ql, rl, Pair(rh, ax), y)
    ensures IsQuotient(Pair(qh, ql), rl, Pair(dx, ax), y)
  {
    assert (qh * TWO_TO_THE_16 + ql) * y == qh * y * TWO_TO_THE_16 + ql * y;
  }

  // ----- signed division -----

  function Abs(x: int): nat {
    if x < 0 then -x else x
  }

  /** Division rounded towards zero. */
  function TruncDiv(a: int, b: int): int
    requires b != 0
  {
    if (a < 0) == (b < 0) then Abs(a) / Abs(b) else -(Abs(a) / Abs(b))
  }

  function TruncMod(a: int, b: int): int
    requires b != 0
  {
    if a < 0 then -(Abs(a) % Abs(b)) else Abs(a) % Abs(b)
  }

  /** What rounding towards zero means: the remainder is small and never of the other sign than a. */
  lemma TruncDivRoundsToZero(a: int, b: int)
    requires b != 0
    ensures a == TruncDiv(a, b) * b + TruncMod(a, b)
    ensures Abs(TruncMod(a, b)) < Abs(b)
    ensures a >= 0 ==> TruncMod(a, b) >= 0
    ensures a <= 0 ==> TruncMod(a, b) <= 0
  {
    var q, r := Abs(a) / Abs(b), Abs(a) % Abs(b);
    DivIsQuotient(Abs(a), Abs(b));
    FromMagnitudes(a, b, q, r);
    hide TruncDiv, TruncMod;
    assert (0 - q) * b == q * (0 - b) == 0 - q * b;
    if a == 0 { DivBound(0, Abs(b)); }
  }

  /** neg hi; neg lo; sbb hi, 0 */
  method NegPair(hi: Reg, lo: Reg) returns (hi': Reg, lo': Reg)
    ensures Pair(hi', lo') == Negated(Pair(hi, lo))
  {
    var h := Neg(hi);
    var l := Neg(lo);
    var h' := Sub(h.0, 0, l.1);
    hi', lo' := h'.0, l.0;
    NegatedValue(Pair(hi, lo));
  }

  lemma NegatedIsAbs(a: Word)
    ensures Abs(Signed(a)) == if IsNegative(a) then Negated(a) else a
  {
    NegatedValue(a);
  }

  /** Quotient and remainder of the magnitudes, with the signs put back. */
  lemma SignsBack(q: Word, r: Word, a: Word, b: Word)
    requires b != 0 && IsQuotient(q, r, Abs(Signed(a)), Abs(Signed(b)))
    ensures Wrap(TruncDiv(Signed(a), Signed(b))) == if IsNegative(a) == IsNegative(b) then q else Negated(q)
    ensures Wrap(TruncMod(Signed(a), Signed(b))) == if IsNegative(a) then Negated(r) else r
  {
    FromMagnitudes(Signed(a), Signed(b), q, r);
    NegatedValue(q);
    NegatedValue(r);
    hide TruncDiv, TruncMod, IsQuotient;
    WrapMultiple(0 - q, 1);
    WrapMultiple(0 - r, 1);
  }

  lemma DivIsQuotient(x: nat, y: nat)
    requires y != 0
    ensures IsQuotient(x / y, x % y, x, y)
  {
    assert x == x / y * y + x % y;
  }

  lemma FromMagnitudes(a: int, b: int, q: int, r: int)
    requires b != 0 && IsQuotient(q, r, Abs(a), Abs(b))
    ensures TruncDiv(a, b) == if (a < 0) == (b < 0) then q else 0 - q
    ensures TruncMod(a, b) == if a < 0 then 0 - r else r
  {
    hide IsQuotient, Scaled;
    DivIsQuotient(Abs(a), Abs(b));
    QuotientUnique(q, r, Abs(a) / Abs(b), Abs(a) % Abs(b), Abs(a), Abs(b));
  }

  /**
   * __I4D: signed division, rounded towards zero; only -2^31 / -1 wraps.
   */
  method I4D(ax: Reg, dx: Reg, bx: Reg, cx: Reg) returns (ax': Reg, dx': Reg, bx': Reg, cx': Reg)
    requires Pair(cx, bx) != 0
    ensures Pair(dx', ax') == Wrap(TruncDiv(Signed(Pair(dx, ax)), Signed(Pair(cx, bx))))
    ensures Pair(cx', bx') == Wrap(TruncMod(Signed(Pair(dx, ax)), Signed(Pair(cx, bx))))
  {
    ghost var a, b := Pair(dx, ax), Pair(cx, bx);
    NegatedIsAbs(a);
    NegatedIsAbs(b);
    ax', dx', bx', cx' := ax, dx, bx, cx;
    if dx < 0x8000 {
      if cx < 0x8000 {
        ax', dx', bx', cx' := U4D(ax, dx, bx, cx);
        SignsBack(Pair(dx', ax'), Pair(cx', bx'), a, b);
      } else {
        cx', bx' := NegPair(cx, bx);
        ax', dx', bx', cx' := U4D(ax, dx, bx', cx');
        SignsBack(Pair(dx', ax'), Pair(cx', bx'), a, b);
        dx', ax' := NegPair(dx', ax');
      }
    } else {
      dx', ax' := NegPair(dx, ax);
      if cx >= 0x8000 {
        cx', bx' := NegPair(cx, bx);
        ax', dx', bx', cx' := U4D(ax', dx', bx', cx');
        SignsBack(Pair(dx', ax'), Pair(cx', bx'), a, b);
        cx', bx' := NegPair(cx', bx');
      } else {
        ax', dx', bx', cx' := U4D(ax', dx', bx, cx);
        SignsBack(Pair(dx', ax'), Pair(cx', bx'), a, b);
        cx', bx' := NegPair(cx', bx');
        dx', ax' := NegPair(dx', ax');
      }
    }
  }

  // ----- __U4M -----

  lemma MulFits(x: Reg, y: Reg)
    ensures 0 <= x * y < TWO_TO_THE_32
  {
    MulMonotone(x, 0, if y == 0 then 1 else y);
    if y > 0 { MulMonotone(x, TWO_TO_THE_16, y); }
  }

  /** The mul instruction: dx:ax becomes x * y. */
  function MulInstruction(x: Reg, y: Reg): (r: (Reg, Reg))
    ensures Pair(r.1, r.0) == x * y && r.0 == x * y % TWO_TO_THE_16
  {
    MulFits(x, y);
    (x * y % TWO_TO_THE_16, x * y / TWO_TO_THE_16)
  }

  /** The carries of the cross sum p + q + hi, collected above its low 16 bits. */
  lemma CrossSum(p: nat, q: nat, hi: Reg) returns (k: int)
    ensures var sum := Add(p % TWO_TO_THE_16, q % TWO_TO_THE_16, false).0;
            p + q + hi == k * TWO_TO_THE_16 + Add(hi, sum, false).0
  {
    var a, b := p / TWO_TO_THE_16, q / TWO_TO_THE_16;
    var s := Add(p % TWO_TO_THE_16, q % TWO_TO_THE_16, false);
    var t := Add(hi, s.0, false);
    k := a + b + Bit(s.1) + Bit(t.1);
    assert p == a * TWO_TO_THE_16 + p % TWO_TO_THE_16;
    assert q == b * TWO_TO_THE_16 + q % TWO_TO_THE_16;
  }

  /** Schoolbook multiplication: the high product and the carries of the cross sum fall away. */
  lemma CrossProducts(al: Reg, ah: Reg, bl: Reg, bh: Reg, hi: Reg, lo: Reg, top: Reg, k: int)
    requires Pair(hi, lo) == bl * al
    requires ah * bl + bh * al + hi == k * TWO_TO_THE_16 + top
    ensures Pair(top, lo) == Wrap(Pair(ah, al) * Pair(bh, bl))
  {
    Expand(al, ah, bl, bh);
    WrapMultiple(Pair(top, lo), ah * bh + k);
  }

  lemma Expand(al: int, ah: int, bl: int, bh: int)
    ensures (ah * TWO_TO_THE_16 + al) * (bh * TWO_TO_THE_16 + bl)
         == ah * bh * TWO_TO_THE_32 + (ah * bl + bh * al) * TWO_TO_THE_16 + bl * al
  {
    var x, y := ah * TWO_TO_THE_16, bh * TWO_TO_THE_16;
    assert (x + al) * (y + bl) == x * y + x * bl + al * y + al * bl;
    assert x * y == ah * bh * TWO_TO_THE_32 && x * bl == ah * bl * TWO_TO_THE_16 && al * y == bh * al * TWO_TO_THE_16;
  }

  /** __U4M: the low 32 bits of dx:ax times cx:bx; the product of the high halves is never needed. */
  method U4M(ax: Reg, dx: Reg, bx: Reg, cx: Reg) returns (ax': Reg, dx': Reg)
    ensures Pair(dx', ax') == Wrap(Pair(dx, ax) * Pair(cx, bx))
  {
    var cross1: Reg, cross2: Reg := 0, 0;
    hide MulInstruction;
    if dx != 0 { cross1 := MulInstruction(dx, bx).0; }
    if cx != 0 { cross2 := MulInstruction(cx, ax).0; }
    var sum := Add(cross1, cross2, false).0;
    var low := MulInstruction(bx, ax);
    ax', dx' := low.0, Add(low.1, sum, false).0;
    MulFits(dx, bx);
    MulFits(cx, ax);
    var k := CrossSum(dx * bx, cx * ax, low.1);
    CrossProducts(ax, dx, bx, cx, low.1, low.0, dx', k);
  }
}
