/**
 * Jumps: how match and its encoder choose and emit them, and an independent
 * account of what the emitted bytes make an 8086 do.
 */
module JumpCode {
  import opened Common
  import opened Words
  import opened Grammar

  // The NEAR, SHORT and absent qualifiers of a jump.
  datatype Distance = Any | Short | Near

  // Instructions and data with one operand. Condition codes are the low digit
  // of the 7x opcodes; LoopOr is loop, loope, loopne or jcxz by opcode.
  datatype Instr =
    | Jmp(distance: Distance, operand: seq<Token>)
    | Jcc(cc: Condition, distance: Distance, operand: seq<Token>)
    | LoopOr(opcode: LoopCode, operand: seq<Token>)
    | Call(operand: seq<Token>)
    | Db(operand: seq<Token>)
    | Dw(operand: seq<Token>)

  type Condition = x: int | 0 <= x < 16
  type LoopCode = x: int | 0xe0 <= x < 0xe4 witness 0xe0

  // An evaluated operand; `complaint` stands for any message on the way.
  datatype Operand = NoOperand | Operand(value: Word, undefined: bool, complaint: bool)

  // The bytes of one instruction, whether a short jump does not reach, and
  // whether there was a message.
  datatype Encoding = Encoding(code: seq<Byte>, tooFar: bool, error: bool)

  function Low(x: Word): Byte { x % 256 }
  function High(x: Word): Byte { x / 256 % 256 }

  predicate FitsByte(displacement: Word) {
    Wrap(displacement + 0x80) < 0x100
  }

  /** The lenient range check of near jumps. */
  predicate TooLong(displacement: Word) {
    Wrap(displacement + 0x1_0000) >= 0x2_0000
  }

  /** The displacement of a 2-byte jump; an undefined target counts as the jump itself. */
  function ShortDisplacement(o: Operand, address: Word): Word
    requires o.Operand?
  {
    Wrap((if o.undefined then address else o.value) - (address + 2))
  }

  function NearForm(opcode: Byte, o: Operand, address: Word, late: bool): Encoding
    requires o.Operand?
  {
    var d := Wrap(o.value - (address + 3));
    Encoding([opcode, Low(d), High(d)], false, o.complaint || (late && TooLong(d)))
  }

  function ShortForm(opcode: Byte, o: Operand, address: Word, late: bool): Encoding
    requires o.Operand?
  {
    var d := ShortDisplacement(o, address);
    Encoding([opcode, Low(d)], late && !FitsByte(d), o.complaint)
  }

  /** The 5-byte form: the negated condition skips a near jump. */
  function InvertedForm(cc: Condition, o: Operand, address: Word, late: bool): Encoding
    requires o.Operand?
  {
    var d := Wrap(ShortDisplacement(o, address) - 3);
    var negated := if cc % 2 == 0 then cc + 1 else cc - 1;
    Encoding([0x70 + negated, 3, 0xe9, Low(d), High(d)], false, o.complaint || (late && TooLong(d)))
  }

  /** One instruction at the given address. */
  function Encode(i: Instr, o: Operand, address: Word, late: bool): Encoding {
    if o.NoOperand? then Encoding([], false, true)
    else
      match i
      case Jmp(distance, _) =>
        if distance == Near || (distance == Any && !FitsByte(ShortDisplacement(o, address))) then
          NearForm(0xe9, o, address, late)
        else
          ShortForm(0xeb, o, address, late)
      case Jcc(cc, distance, _) =>
        if distance == Near then Encoding([], false, true)
        else if distance == Any && !FitsByte(ShortDisplacement(o, address)) && !o.undefined then
          InvertedForm(cc, o, address, late)
        else
          ShortForm(0x70 + cc, o, address, late)
      case LoopOr(opcode, _) => ShortForm(opcode, o, address, late)
      case Call(_) => NearForm(0xe8, o, address, late)
      case Db(_) => Encoding([Low(o.value)], false, o.complaint)
      case Dw(_) => Encoding([Low(o.value), High(o.value)], false, o.complaint)
  }

  // ----- the 8086 -----

  function SignExtended(b: Byte): int {
    if b >= 0x80 then b - 0x100 else b
  }

  function Ip(x: int): int {
    x % 0x1_0000
  }

  function WordOf(low: Byte, high: Byte): int {
    high as int * 256 + low as int
  }

  /** Flags make exactly one of two opposite conditions hold. */
  ghost predicate Consistent(flags: Condition -> bool) {
    forall c: Condition :: c % 2 == 0 ==> flags(c + 1) == !flags(c)
  }

  /**
   * Where execution goes first outside `code`, which starts at ip, when it is
   * entered at offset pos: the target of the first jump taken, or the end.
   * `again` decides loop, loope, loopne and jcxz. -1 for bytes that are no jump.
   */
  function Run(code: seq<Byte>, ip: Word, pos: nat, flags: Condition -> bool, again: bool): (target: int)
    requires pos <= |code|
    decreases |code| - pos
  {
    if pos == |code| then Ip(ip + pos)
    else if (code[pos] == 0xe9 || code[pos] == 0xe8) && pos + 3 <= |code| then
      Ip(ip + pos + 3 + WordOf(code[pos + 1], code[pos + 2]))
    else if pos + 2 > |code| then -1
    else
      var target := Ip(ip + pos + 2 + SignExtended(code[pos + 1]));
      if code[pos] == 0xeb then target
      else if 0x70 <= code[pos] < 0x80 then
        if flags(code[pos] - 0x70) then target else Run(code, ip, pos + 2, flags, again)
      else if 0xe0 <= code[pos] < 0xe4 then
        if again then target else Run(code, ip, pos + 2, flags, again)
      else -1
  }

  /** The code does what the instruction says, for operand value v. */
  ghost predicate Does(i: Instr, v: Word, address: Word, code: seq<Byte>) {
    match i
    case Jmp(_, _) =>
      forall flags: Condition -> bool, again :: Run(code, address, 0, flags, again) == Ip(v)
    case Jcc(cc, _, _) =>
      forall flags: Condition -> bool, again :: Consistent(flags) ==>
        Run(code, address, 0, flags, again) == if flags(cc) then Ip(v) else Ip(address + |code|)
    case LoopOr(opcode, _) =>
      && |code| == 2 && code[0] == opcode
      && forall flags: Condition -> bool, again ::
           Run(code, address, 0, flags, again) == if again then Ip(v) else Ip(address + |code|)
    case Call(_) =>
      && |code| == 3 && code[0] == 0xe8
      && forall flags: Condition -> bool, again :: Run(code, address, 0, flags, again) == Ip(v)
    case Db(_) => code == [v % 256]
    case Dw(_) => |code| == 2 && WordOf(code[0], code[1]) == v % 0x1_0000
  }

  lemma IpOfSum(x: int, k: int)
    ensures Ip(x + k * 0x1_0000) == Ip(x)
  {
  }

  /** A 16-bit displacement reaches its target modulo 2^16, whatever the distance. */
  lemma NearLands(from: int, v: Word, d: Word)
    requires d == Wrap(v - from)
    ensures Ip(from + WordOf(Low(d), High(d))) == Ip(v)
  {
    var k, m := (v - from) / TWO_TO_THE_32, d / 0x1_0000;
    assert v - from == k * TWO_TO_THE_32 + d;
    assert d == WordOf(Low(d), High(d)) + m * 0x1_0000;
    IpOfSum(v, 0 - k * 0x1_0000 - m);
  }

  /** An 8-bit displacement that fits reaches its target. */
  lemma ShortLands(from: int, v: Word, d: Word)
    requires d == Wrap(v - from) && FitsByte(d)
    ensures Ip(from + SignExtended(Low(d))) == Ip(v)
  {
    var k := (v - from) / TWO_TO_THE_32;
    assert v - from == k * TWO_TO_THE_32 + d;
    var wrapped := if d < 0x80 then 0 else 1;
    assert SignExtended(Low(d)) == d - wrapped * TWO_TO_THE_32;
    IpOfSum(v, 0 - k * 0x1_0000 - wrapped * 0x1_0000);
  }

  lemma NearFormRuns(opcode: Byte, o: Operand, address: Word, flags: Condition -> bool, again: bool)
    requires o.Operand? && (opcode == 0xe9 || opcode == 0xe8)
    ensures Run(NearForm(opcode, o, address, true).code, address, 0, flags, again) == Ip(o.value)
  {
    NearLands(address + 3, o.value, Wrap(o.value - (address + 3)));
  }

  lemma ShortFormRuns(opcode: Byte, o: Operand, address: Word, flags: Condition -> bool, again: bool)
    requires o.Operand? && !o.undefined && FitsByte(ShortDisplacement(o, address))
    requires opcode == 0xeb || 0x70 <= opcode < 0x80 || 0xe0 <= opcode < 0xe4
    ensures var code := ShortForm(opcode, o, address, true).code;
            var jumps := opcode == 0xeb || (if opcode < 0x80 then flags(opcode - 0x70) else again);
            Run(code, address, 0, flags, again) == if jumps then Ip(o.value) else Ip(address + |code|)
  {
    ShortLands(address + 2, o.value, ShortDisplacement(o, address));
    var code := ShortForm(opcode, o, address, true).code;
    assert Run(code, address, 2, flags, again) == Ip(address + 2);
  }

  /** A conditional jump over a near jump. */
  lemma SkipRuns(c: Condition, low: Byte, high: Byte, ip: Word, flags: Condition -> bool, again: bool)
    ensures Run([0x70 + c, 3, 0xe9, low, high], ip, 0, flags, again) ==
            if flags(c) then Ip(ip + 5) else Ip(ip + 5 + WordOf(low, high))
  {
    hide Ip, WordOf;
    var code: seq<Byte> := [0x70 + c, 3, 0xe9, low, high];
    assert Run(code, ip, 2, flags, again) == Ip(ip + 2 + 3 + WordOf(low, high));
  }

  lemma InvertedFormRuns(cc: Condition, o: Operand, address: Word, flags: Condition -> bool, again: bool)
    requires o.Operand? && !o.undefined && Consistent(flags)
    ensures var code := InvertedForm(cc, o, address, true).code;
            Run(code, address, 0, flags, again) == if flags(cc) then Ip(o.value) else Ip(address + |code|)
  {
    hide Run, Ip, WordOf, Low, High;
    var d: int := ShortDisplacement(o, address);
    WrapSum(o.value - (address + 2), -3);
    NearLands(address + 5, o.value, Wrap(d - 3));
    var negated := if cc % 2 == 0 then cc + 1 else cc - 1;
    SkipRuns(negated, Low(Wrap(d - 3)), High(Wrap(d - 3)), address, flags, again);
  }

  lemma WordSplits(v: Word)
    ensures WordOf(Low(v), High(v)) == v % 0x1_0000 && Low(v) == v % 256
  {
  }

  /**
   * Every encoding of a defined operand decodes at its own address to its
   * target, except a short jump reported as too far.
   */
  lemma EncodeDoes(i: Instr, o: Operand, address: Word)
    requires o.Operand? && !o.undefined
    ensures var e := Encode(i, o, address, true);
            !e.error && !e.tooFar ==> Does(i, o.value, address, e.code)
  {
    hide Run, WordOf, Low, High, FitsByte, TooLong;
    WordSplits(o.value);
    var e := Encode(i, o, address, true);
    if !e.error && !e.tooFar {
      match i
      case Jmp(_, _) => forall flags: Condition -> bool, again { JmpRuns(i, o, address, flags, again); }
      case Jcc(_, _, _) =>
        forall flags: Condition -> bool, again | Consistent(flags) { JccRuns(i, o, address, flags, again); }
      case LoopOr(opcode, _) =>
        forall flags: Condition -> bool, again { ShortFormRuns(opcode, o, address, flags, again); }
      case Call(_) => forall flags: Condition -> bool, again { NearFormRuns(0xe8, o, address, flags, again); }
      case _ =>
    }
  }

  lemma JmpRuns(i: Instr, o: Operand, address: Word, flags: Condition -> bool, again: bool)
    requires i.Jmp? && o.Operand? && !o.undefined && !Encode(i, o, address, true).tooFar
    ensures Run(Encode(i, o, address, true).code, address, 0, flags, again) == Ip(o.value)
  {
    hide Run;
    if FitsByte(ShortDisplacement(o, address)) { ShortFormRuns(0xeb, o, address, flags, again); }
    NearFormRuns(0xe9, o, address, flags, again);
  }

  lemma JccRuns(i: Instr, o: Operand, address: Word, flags: Condition -> bool, again: bool)
    requires i.Jcc? && o.Operand? && !o.undefined && Consistent(flags)
    requires var e := Encode(i, o, address, true); !e.tooFar && !e.error
    ensures var code := Encode(i, o, address, true).code;
            Run(code, address, 0, flags, again) == if flags(i.cc) then Ip(o.value) else Ip(address + |code|)
  {
    hide Run;
    if FitsByte(ShortDisplacement(o, address)) { ShortFormRuns(0x70 + i.cc, o, address, flags, again); }
    InvertedFormRuns(i.cc, o, address, flags, again);
  }

  /** The test behind tooFar is the signed distance -128..127; the lenient one is +-64 KiB. */
  lemma RangeChecks(displacement: Word)
    ensures FitsByte(displacement) <==> -0x80 <= Signed(displacement) < 0x80
    ensures TooLong(displacement) <==> !(-0x1_0000 <= Signed(displacement) < 0x1_0000)
  {
  }

  /** A 2-byte jump that always reaches v is a short one, with the displacement to v modulo 2^16. */
  lemma TwoBytesReach(code: seq<Byte>, v: Word, address: Word, cc: Condition, always: bool) returns (d: int)
    requires |code| == 2
    requires forall flags: Condition -> bool, again :: Consistent(flags) && (always || flags(cc)) ==>
               Run(code, address, 0, flags, again) == Ip(v)
    ensures -0x80 <= d < 0x80 && Ip(address + 2 + d) == Ip(v)
  {
    var flags: Condition -> bool := c => c % 2 == cc % 2;
    assert Consistent(flags) && flags(cc);
    assert Run(code, address, 2, flags, true) == Ip(address + 2);
    assert Run(code, address, 0, flags, true) == Ip(v) >= 0;
    d := SignExtended(code[1]);
    if Ip(address + 2 + d) != Ip(v) { d := 0; }
  }

  /**
   * Without a qualifier a jump is as short as possible: if any 2 bytes would
   * do, unless by going around the end of the segment, 2 bytes are emitted.
   */
  lemma JumpIsShortest(i: Instr, o: Operand, address: Word, late: bool, code: seq<Byte>)
    requires (i.Jmp? || i.Jcc?) && i.distance == Any && o.Operand? && !o.undefined
    requires |code| == 2 && Does(i, o.value, address, code)
    requires -0xff00 <= o.value - (address + 2) <= 0xff00
    ensures |Encode(i, o, address, late).code| == 2
  {
    var d := TwoBytesReach(code, o.value, address, if i.Jcc? then i.cc else 0, i.Jmp?);
    NearbyIsEqual(o.value - (address + 2), d, address + 2);
  }

  lemma NearbyIsEqual(x: int, d: int, from: int)
    requires -0xff00 <= x <= 0xff00 && -0x80 <= d < 0x80 && Ip(from + d) == Ip(from + x)
    ensures x == d && FitsByte(Wrap(x))
  {
    var k := (from + x) / 0x1_0000 - (from + d) / 0x1_0000;
    assert x - d == k * 0x1_0000;
  }

  // ----- which form is used, and what is reported -----

  /** How far v is from an address, as a signed number. */
  function Offset(v: Word, from: int): int {
    Signed(Wrap(v - from))
  }

  /** What one displacement byte can express. */
  predicate Near8(v: Word, from: int) {
    -0x80 <= Offset(v, from) < 0x80
  }

  /** What is accepted for two displacement bytes, which is lenient: 64 KiB in both directions. */
  predicate Near16(v: Word, from: int) {
    -0x1_0000 <= Offset(v, from) < 0x1_0000
  }

  /** Jumps that have only the 2-byte form. */
  predicate ShortOnly(i: Instr) {
    i.LoopOr? || ((i.Jmp? || i.Jcc?) && i.distance == Short)
  }

  /**
   * The number of bytes. An unqualified jump takes 2 if that reaches its
   * target, and else 3, or 5 with a condition. In early passes the target may
   * not be known, and then it is taken to be near.
   */
  function Length(i: Instr, v: Word, address: Word, undefined: bool): nat {
    match i
    case Db(_) => 1
    case Dw(_) => 2
    case Call(_) => 3
    case LoopOr(_, _) => 2
    case Jmp(distance, _) =>
      if distance == Short || (distance == Any && (undefined || Near8(v, address + 2))) then 2 else 3
    case Jcc(_, distance, _) =>
      if distance == Near then 0
      else if distance == Short || undefined || Near8(v, address + 2) then 2
      else 5
  }

  /** The operand can be encoded: a short jump reaches its target, and any other is not too long. */
  predicate CanEncode(i: Instr, v: Word, address: Word) {
    match i
    case Db(_) => true
    case Dw(_) => true
    case Call(_) => Near16(v, address + 3)
    case LoopOr(_, _) => Near8(v, address + 2)
    case Jmp(distance, _) =>
      if distance == Short then Near8(v, address + 2)
      else (distance == Any && Near8(v, address + 2)) || Near16(v, address + 3)
    case Jcc(_, distance, _) =>
      distance != Near && (Near8(v, address + 2) || (distance == Any && Near16(v, address + 5)))
  }

  lemma FitsIsNear8(o: Operand, address: Word)
    requires o.Operand?
    ensures FitsByte(ShortDisplacement(o, address)) <==> o.undefined || Near8(o.value, address + 2)
  {
    RangeChecks(ShortDisplacement(o, address));
    hide Wrap;
    if o.undefined { assert Wrap(address - (address + 2)) == 0xffff_fffe by { TwoBack(); } }
  }

  lemma TwoBack()
    ensures Wrap(-2) == 0xffff_fffe
  {
  }

  lemma LongIsNear16(v: Word, from: int, d: Word)
    requires d == Wrap(v - from)
    ensures TooLong(d) <==> !Near16(v, from)
  {
    RangeChecks(d);
  }

  /** Every encoding has the expected length, in every pass. */
  lemma LengthIsRight(i: Instr, o: Operand, address: Word, late: bool)
    requires o.Operand?
    ensures |Encode(i, o, address, late).code| == Length(i, o.value, address, o.undefined)
  {
    hide FitsByte, TooLong, Near8, ShortDisplacement;
    FitsIsNear8(o, address);
  }

  /**
   * What is reported, exactly: a missing operand or a message on the way, a
   * conditional jump that is to be near, and in late passes a near jump of more
   * than 64 KiB, measured from the end of the instruction.
   */
  lemma ErrorExactly(i: Instr, o: Operand, address: Word, late: bool)
    ensures var e := Encode(i, o, address, late);
            e.error <==>
            || o.NoOperand? || o.complaint || (i.Jcc? && i.distance == Near)
            || (late && (i.Call? || (i.Jmp? && |e.code| == 3) || (i.Jcc? && |e.code| == 5))
                && !Near16(o.value, address + |e.code|))
  {
    if o.Operand? {
      hide FitsByte, TooLong, Near16, Wrap;
      LongIsNear16(o.value, address + 3, Wrap(o.value - (address + 3)));
      LongIsNear16(o.value, address + 5, Wrap(o.value - (address + 5)));
      WrapSum(-3, o.value - (address + 2));
    }
  }

  /** A short jump that is out of range, exactly. */
  lemma TooFarExactly(i: Instr, o: Operand, address: Word, late: bool)
    ensures Encode(i, o, address, late).tooFar <==>
            late && o.Operand? && !o.undefined && ShortOnly(i) && !Near8(o.value, address + 2)
  {
    if o.Operand? {
      hide FitsByte, TooLong, Near8, ShortDisplacement;
      FitsIsNear8(o, address);
    }
  }

  /** For a complete operand, an instruction is encoded without a report exactly if it is in range. */
  lemma ReportedExactly(i: Instr, o: Operand, address: Word)
    requires o.Operand? && !o.undefined && !o.complaint
    ensures var e := Encode(i, o, address, true);
            !e.error && !e.tooFar <==> CanEncode(i, o.value, address)
  {
    hide Encode, Near16, Near8;
    ErrorExactly(i, o, address, true);
    TooFarExactly(i, o, address, true);
    LengthIsRight(i, o, address, true);
  }

  /** The first byte is the opcode that was asked for. */
  lemma OpcodeIsRight(i: Instr, o: Operand, address: Word, late: bool)
    requires o.Operand? && !(i.Jcc? && i.distance == Near)
    ensures var code := Encode(i, o, address, late).code;
            match i
            case Jmp(_, _) => code[0] == if |code| == 2 then 0xeb else 0xe9
            case Jcc(cc, _, _) => code[0] == 0x70 + if |code| == 2 then cc else if cc % 2 == 0 then cc + 1 else cc - 1
            case LoopOr(opcode, _) => code[0] == opcode
            case Call(_) => code[0] == 0xe8
            case Db(_) => code == [o.value % 256]
            case Dw(_) => code == [o.value % 256, o.value / 256 % 256]
  {
    hide FitsByte, TooLong;
  }
}
