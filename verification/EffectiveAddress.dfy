/**
 * match_addressing: the ModR/M byte and displacement for [...] operands, and
 * the 16-bit decoding they are meant for (Intel 64 and IA-32 Architectures
 * Software Developer's Manual, Volume 2, section 2.1.5, Table 2-1).
 */
module EffectiveAddress {

  import opened Common

  type RegNo = x: int | 0 <= x < 8

  const BX: RegNo := 3
  const BP: RegNo := 5
  const SI: RegNo := 6
  const DI: RegNo := 7

  // What stands between the brackets, in order: 16-bit registers, and
  // expressions reduced to 16 bits (0 for an expression with an undefined label).
  datatype Term = Register(reg: RegNo) | Displacement(value: Word16, undefined: bool)

  // What else the encoding depends on: -O0 or -O1, pass 0, and whether this
  // instruction is on record as wide from pass 0.
  datatype Mode = Mode(lowOpt: bool, firstPass: bool, recordedWide: bool)

  // instruction_addressing, instruction_offset and instruction_offset_width.
  datatype Match = NoMatch | Matched(addressing: Byte, offset: Word16, width: int)

  function Mod16(x: int): Word16 {
    x % 0x1_0000
  }

  // ----- the terms -----

  function Last(terms: seq<Term>): Term
    requires terms != []
  {
    terms[|terms| - 1]
  }

  function Init(terms: seq<Term>): seq<Term>
    requires terms != []
  {
    terms[..|terms| - 1]
  }

  /** How often register r is added. */
  ghost function Times(terms: seq<Term>, r: RegNo): nat {
    if terms == [] then 0 else Times(Init(terms), r) + if Last(terms) == Register(r) then 1 else 0
  }

  /** BX, BP, SI and DI only, at most one of the first two and one of the last two. */
  ghost predicate Legal(terms: seq<Term>) {
    && Times(terms, 0) == Times(terms, 1) == Times(terms, 2) == Times(terms, 4) == 0
    && Times(terms, BX) + Times(terms, BP) <= 1
    && Times(terms, SI) + Times(terms, DI) <= 1
  }

  /** What the operand means: the sum of all its registers and displacements. */
  ghost function Sum(terms: seq<Term>, regs: RegNo -> Word16): int {
    if terms == [] then 0
    else Sum(Init(terms), regs) +
         match Last(terms) case Register(r) => regs(r) case Displacement(v, _) => v
  }

  ghost function Displacements(terms: seq<Term>): int {
    if terms == [] then 0
    else Displacements(Init(terms)) + if Last(terms).Displacement? then Last(terms).value else 0
  }

  ghost predicate AnyUndefined(terms: seq<Term>) {
    terms != [] && (AnyUndefined(Init(terms)) || (Last(terms).Displacement? && Last(terms).undefined))
  }

  lemma {:induction false} PrefixIsLegal(terms: seq<Term>, i: nat)
    requires i <= |terms| && Legal(terms)
    ensures Legal(terms[..i])
    decreases |terms|
  {
    if i < |terms| {
      assert Init(terms)[..i] == terms[..i];
      PrefixIsLegal(Init(terms), i);
    } else {
      assert terms[..i] == terms;
    }
  }

  // ----- the matcher -----

  /** reg_add_to_addressing, for a state from 4 to 8 and a register from BX on. */
  function AddRegister(state: nat, reg: RegNo): nat
    requires 4 <= state <= 8 && 3 <= reg
  {
    [0, 1, 9, 9, 7,
     9, 9, 9, 9, 9,
     2, 3, 9, 9, 6,
     9, 9, 2, 0, 4,
     9, 9, 3, 1, 5][state - 19 + 5 * reg]
  }

  /** The addressing state that stands for the registers of legal terms; 8 for none. */
  ghost function StateOf(terms: seq<Term>): nat {
    var bx, bp, si, di := Times(terms, BX), Times(terms, BP), Times(terms, SI), Times(terms, DI);
    if bx > 0 then if si > 0 then 0 else if di > 0 then 1 else 7
    else if bp > 0 then if si > 0 then 2 else if di > 0 then 3 else 6
    else if si > 0 then 4 else if di > 0 then 5 else 8
  }

  /** The choice between no, 8-bit and 16-bit displacement. */
  function Choose(state: nat, offset: Word16, anyUndefined: bool, mode: Mode): Match
    requires state <= 8
  {
    if state == 8 then Matched(0x06, offset, 2)
    else if mode.lowOpt && mode.firstPass && anyUndefined then Matched(state + 0x80, offset, 3)
    else if mode.lowOpt && !mode.firstPass && mode.recordedWide then Matched(state + 0x80, offset, 2)
    else if offset == 0 && state != 6 then Matched(state, offset, 0)
    else if (offset + 0x80) / 0x100 % 0x100 != 0 then Matched(state + 0x80, offset, 2)
    else Matched(state + 0x40, offset, 1)
  }

  ghost function Encoded(terms: seq<Term>, mode: Mode): Match
    requires Legal(terms)
  {
    Choose(StateOf(terms), if AnyUndefined(terms) then 0 else Mod16(Displacements(terms)), AnyUndefined(terms), mode)
  }

  /** One more term, read from left to right: the table refuses exactly what makes the terms illegal. */
  lemma TableIsRight(terms: seq<Term>, reg: RegNo)
    requires terms != [] && Legal(Init(terms)) && Last(terms) == Register(reg)
    ensures var state := StateOf(Init(terms));
            if reg < 3 || state < 4 then !Legal(terms)
            else if AddRegister(state, reg) > 8 then !Legal(terms)
            else Legal(terms) && StateOf(terms) == AddRegister(state, reg)
  {
  }

  /** A displacement changes nothing about the registers. */
  lemma DisplacementKeeps(terms: seq<Term>)
    requires terms != [] && Last(terms).Displacement?
    ensures Legal(terms) == Legal(Init(terms)) && StateOf(terms) == StateOf(Init(terms))
  {
  }

  lemma NoTerms()
    ensures Legal([]) && StateOf([]) == 8
  {
  }

  /**
   * match_addressing after the opening bracket. Terms in any order and number
   * are accepted exactly when their registers are legal.
   */
  method MatchAddressing(terms: seq<Term>, mode: Mode) returns (m: Match)
    ensures m.Matched? <==> terms != [] && Legal(terms)
    ensures m.Matched? ==> m == Encoded(terms, mode)
  {
    hide Legal, StateOf, AddRegister;
    if terms == [] { return NoMatch; }
    NoTerms();
    var state: nat, offset: Word16, anyUndefined := 8, 0, false;
    var i := 0;
    while i < |terms|
      invariant i <= |terms| && Legal(terms[..i]) && state == StateOf(terms[..i])
      invariant offset == Mod16(Displacements(terms[..i])) && anyUndefined == AnyUndefined(terms[..i])
    {
      var t, upTo := terms[i], terms[..i + 1];
      assert Init(upTo) == terms[..i] && Last(upTo) == t;
      if t.Register? {
        TableIsRight(upTo, t.reg);
        if Legal(terms) { PrefixIsLegal(terms, i + 1); }
        if t.reg < 3 || state < 4 { return NoMatch; }
        state := AddRegister(state, t.reg);
        if state > 8 { return NoMatch; }
      } else {
        DisplacementKeeps(upTo);
        offset := Mod16(offset + t.value);
        anyUndefined := anyUndefined || t.undefined;
      }
      i := i + 1;
    }
    assert terms[..i] == terms;
    m := Choose(state, if anyUndefined then 0 else offset, anyUndefined, mode);
  }

  // ----- the decoder -----

  /** The displacement bytes that follow the ModR/M byte. */
  function Emitted(m: Match): seq<Byte>
    requires m.Matched?
  {
    if m.width == 0 then []
    else if m.width == 1 then [m.offset % 0x100]
    else [m.offset % 0x100, m.offset / 0x100]
  }

  /** The register field goes between the two addressing fields. */
  function ModRM(m: Match, reg: RegNo): Byte
    requires m.Matched? && m.addressing < 0xc0 && m.addressing % 0x40 < 8
  {
    m.addressing / 0x40 * 0x40 + reg * 8 + m.addressing % 8
  }

  function BaseRegisters(rm: RegNo, regs: RegNo -> Word16): int {
    match rm
    case 0 => regs(BX) + regs(SI)
    case 1 => regs(BX) + regs(DI)
    case 2 => regs(BP) + regs(SI)
    case 3 => regs(BP) + regs(DI)
    case 4 => regs(SI)
    case 5 => regs(DI)
    case 6 => regs(BP)
    case 7 => regs(BX)
  }

  datatype Decoded = Memory(address: Word16, length: nat) | NotMemory

  /** Table 2-1: the 16-bit effective address, and how many displacement bytes belong to it. */
  function Decode(modrm: Byte, code: seq<Byte>, regs: RegNo -> Word16): Decoded {
    var mode, rm := modrm / 0x40, modrm % 8;
    if mode == 0 && rm == 6 then
      if |code| < 2 then NotMemory else Memory(code[0] as int + 0x100 * code[1] as int, 2)
    else if mode == 0 then Memory(Mod16(BaseRegisters(rm, regs)), 0)
    else if mode == 1 then
      if |code| < 1 then NotMemory
      else Memory(Mod16(BaseRegisters(rm, regs) + if code[0] < 0x80 then code[0] as int else code[0] as int - 0x100), 1)
    else if mode == 2 then
      if |code| < 2 then NotMemory
      else Memory(Mod16(BaseRegisters(rm, regs) + code[0] as int + 0x100 * code[1] as int), 2)
    else NotMemory
  }

  /** The registers of legal terms add up to the base registers of their state. */
  lemma {:induction false} StateSums(terms: seq<Term>, regs: RegNo -> Word16)
    requires Legal(terms)
    ensures Sum(terms, regs) - Displacements(terms) ==
            if StateOf(terms) == 8 then 0 else BaseRegisters(StateOf(terms), regs)
  {
    if terms != [] {
      assert Init(terms) == terms[..|terms| - 1];
      PrefixIsLegal(terms, |terms| - 1);
      StateSums(Init(terms), regs);
      if Last(terms).Register? { TableIsRight(terms, Last(terms).reg); }
    }
  }

  // ----- one displacement width at a time -----

  /** The two addressing fields of the byte come back out of it. */
  lemma ModRMFields(mode: nat, rm: RegNo, reg: RegNo)
    requires mode <= 2
    ensures var b := (mode * 0x40 + rm) / 0x40 * 0x40 + reg * 8 + (mode * 0x40 + rm) % 8;
            0 <= b < 0xc0 && b / 0x40 == mode && b % 8 == rm
  {
    var b := mode * 0x40 + reg * 8 + rm;
    assert b == (mode * 8 + reg) * 8 + rm;
  }

  lemma Mod16Sum(a: int, b: int)
    ensures Mod16(a + Mod16(b)) == Mod16(a + b)
  {
    var k := b / 0x1_0000;
    assert a + b == a + Mod16(b) + k * 0x1_0000;
  }

  /** An offset the encoder calls short is its own low byte, read as signed. */
  lemma ShortOffset(base: int, offset: Word16)
    requires (offset + 0x80) / 0x100 % 0x100 == 0
    ensures var low := offset % 0x100;
            Mod16(base + if low < 0x80 then low else low - 0x100) == Mod16(base + offset)
  {
    if offset < 0x80 {
      assert offset % 0x100 == offset;
    } else {
      assert offset >= 0xff80;
      assert offset % 0x100 == offset - 0xff00 >= 0x80;
      assert base + (offset % 0x100 - 0x100) == base + offset - 0x1_0000;
      assert base + offset == base + (offset % 0x100 - 0x100) + 1 * 0x1_0000;
    }
  }

  /** Whatever width is chosen, the decoder finds the base registers of the state plus the offset. */
  lemma ChosenDecodes(state: nat, offset: Word16, mode: Mode, reg: RegNo, more: seq<Byte>, regs: RegNo -> Word16)
    requires state <= 8
    ensures var m := Choose(state, offset, false, mode);
            && m.Matched? && m.addressing < 0xc0 && m.addressing % 0x40 < 8
            && Decode(ModRM(m, reg), Emitted(m) + more, regs)
               == Memory(Mod16((if state == 8 then 0 else BaseRegisters(state, regs)) + offset), |Emitted(m)|)
  {
    hide BaseRegisters;
    var m := Choose(state, offset, false, mode);
    assert m.Matched? && m.addressing < 0xc0 && m.addressing % 0x40 < 8;
    var bits, rm := m.addressing / 0x40, m.addressing % 8;
    assert m.addressing == bits * 0x40 + rm;
    ModRMFields(bits, rm, reg);
    var code := Emitted(m) + more;
    if m.width == 1 {
      assert code[0] == offset % 0x100;
      ShortOffset(BaseRegisters(rm, regs), offset);
    } else if m.width == 2 {
      assert code[0] == offset % 0x100 && code[1] == offset / 0x100;
    }
  }

  /**
   * Every accepted operand without undefined labels decodes, with any register
   * field and whatever follows, to the sum of its terms modulo 2^16, and the
   * decoder takes exactly the bytes that were emitted.
   */
  lemma DecodesToSum(terms: seq<Term>, mode: Mode, reg: RegNo, more: seq<Byte>, regs: RegNo -> Word16)
    requires Legal(terms) && !AnyUndefined(terms)
    ensures var m := Encoded(terms, mode);
            && m.Matched? && m.addressing < 0xc0 && m.addressing % 0x40 < 8
            && Decode(ModRM(m, reg), Emitted(m) + more, regs) == Memory(Mod16(Sum(terms, regs)), |Emitted(m)|)
  {
    hide Decode, Choose, BaseRegisters, ModRM, Emitted, Sum, Displacements, Legal, AnyUndefined;
    StateSums(terms, regs);
    var state := StateOf(terms);
    ChosenDecodes(state, Mod16(Displacements(terms)), mode, reg, more, regs);
    Mod16Sum(if state == 8 then 0 else BaseRegisters(state, regs), Displacements(terms));
  }

  /** The instruction is on record as wide. */
  predicate Forced(mode: Mode) {
    mode.lowOpt && !mode.firstPass && mode.recordedWide
  }

  /**
   * Unless the instruction is on record as wide, no other displacement for the
   * same registers is shorter: whatever decodes to the same address through
   * the same r/m field takes at least as many bytes.
   */
  lemma NothingShorter(state: nat, offset: Word16, mode: Mode, modrm: Byte, code: seq<Byte>, regs: RegNo -> Word16)
    requires state < 8 && !Forced(mode) && modrm % 8 == state
    requires var d := Decode(modrm, code, regs);
             d.Memory? && d.address == Mod16(BaseRegisters(state, regs) + offset)
    ensures Decode(modrm, code, regs).length >= |Emitted(Choose(state, offset, false, mode))|
  {
    hide BaseRegisters;
    var base, bits := BaseRegisters(state, regs), modrm / 0x40;
    if bits == 0 && state != 6 {
      assert base == base + offset - offset;
      assert offset == 0 by {
        var k := (base + offset) / 0x1_0000 - base / 0x1_0000;
        assert offset == k * 0x1_0000;
      }
    } else if bits == 1 {
      var d := if code[0] < 0x80 then code[0] as int else code[0] as int - 0x100;
      assert offset == d || offset == d + 0x1_0000 by {
        var k := (base + offset) / 0x1_0000 - (base + d) / 0x1_0000;
        assert offset - d == k * 0x1_0000;
      }
    }
  }

  // ----- -O0 and -O1: the width is chosen in pass 0 -----

  /** The same operand in another pass: the same registers, but other values. */
  ghost predicate SameShape(a: seq<Term>, b: seq<Term>) {
    |a| == |b| && forall i :: 0 <= i < |a| ==> (a[i].Displacement? && b[i].Displacement?) || a[i] == b[i]
  }

  lemma {:induction false} SameRegisters(a: seq<Term>, b: seq<Term>, r: RegNo)
    requires SameShape(a, b)
    ensures Times(a, r) == Times(b, r)
    decreases |a|
  {
    if a != [] { SameRegisters(Init(a), Init(b), r); }
  }

  lemma SameState(a: seq<Term>, b: seq<Term>)
    requires SameShape(a, b)
    ensures Legal(a) <==> Legal(b)
    ensures StateOf(a) == StateOf(b)
  {
    forall r: RegNo ensures Times(a, r) == Times(b, r) { SameRegisters(a, b, r); }
    hide Times;
    assert Times(a, 0) == Times(b, 0) && Times(a, 1) == Times(b, 1);
    assert Times(a, 2) == Times(b, 2) && Times(a, 4) == Times(b, 4);
    assert Times(a, BX) == Times(b, BX) && Times(a, BP) == Times(b, BP);
    assert Times(a, SI) == Times(b, SI) && Times(a, DI) == Times(b, DI);
  }

  /** What an operand that had no undefined labels in pass 0 keeps. */
  ghost predicate SameOffset(a: seq<Term>, b: seq<Term>) {
    !AnyUndefined(b) && Mod16(Displacements(a)) == Mod16(Displacements(b))
  }

  /** How an operand is encoded in pass 0 at -O0 and -O1. */
  ghost function First(terms: seq<Term>): Match
    requires Legal(terms)
  {
    Encoded(terms, Mode(true, true, false))
  }

  /** How it is encoded in a later pass. */
  ghost function Later(terms: seq<Term>, recordedWide: bool): Match
    requires Legal(terms)
  {
    Encoded(terms, Mode(true, false, recordedWide))
  }

  /**
   * Width 3 asks for the instruction to be recorded. If just that is answered
   * in a later pass, the operand takes as many bytes there as in pass 0.
   */
  lemma SameSize(a: seq<Term>, b: seq<Term>)
    requires Legal(a) && SameShape(a, b) && (!AnyUndefined(a) ==> SameOffset(a, b))
    ensures Legal(b) && First(a).Matched? && Later(b, First(a).width == 3).Matched?
    ensures |Emitted(Later(b, First(a).width == 3))| == |Emitted(First(a))|
  {
    hide Legal, StateOf, AnyUndefined, Displacements;
    SameState(a, b);
  }

  /** Undefined labels ask for two bytes in pass 0; whatever else is the case, the width is that of -O9. */
  lemma WidthInPass0(terms: seq<Term>, mode: Mode)
    requires Legal(terms) && mode.lowOpt && mode.firstPass
    ensures Encoded(terms, mode).Matched?
    ensures Encoded(terms, mode).width == 3 <==> AnyUndefined(terms) && StateOf(terms) != 8
    ensures Encoded(terms, mode).width == 3 ==> |Emitted(Encoded(terms, mode))| == 2
    ensures Encoded(terms, mode).width != 3 ==> Encoded(terms, mode) == Encoded(terms, mode.(lowOpt := false))
  {
    hide Legal, AnyUndefined, Displacements, Times;
  }
}
