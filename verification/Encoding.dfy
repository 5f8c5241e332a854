/** asm64.py: the instruction encoders, and a decoder written from sections 2.1
    and 2.2 of volume 2 of the Intel SDM. Bytes are 8-bit words. */
module Encoding {
  import opened Wrappers
  import opened X86Lines
  import opened IntFacts
  import opened ByteCast

  type Bytes = seq<bv8>

  datatype Reg8 = AL | CL | DL | BL

  /** The ALU group of opcode 81, in /digit order. */
  datatype Group1 = GAdd | GOr | GAdc | GSbb | GAnd | GSub | GXor | GCmp
  /** The register-register ALU opcodes the assembler knows. */
  datatype Pair = PAdd | POr | PAnd | PSub | PXor | PCmp
  datatype Rotate = GRol | GRor | GShl | GShr | GSar

  datatype Instr =
    | MovImm(r: HReg, imm: bv64)
    | MovRR(d: HReg, s: HReg)
    | Load(d: HReg, base: HReg, disp: int)
    | Store(base: HReg, s: HReg, disp: int)
    | Store8(base: HReg, s8: Reg8, disp: int)
    | Load8(d8: Reg8, base: HReg, disp: int)
    | CmpMem8(base: HReg, imm8: bv8, disp: int)
    | Inc(r: HReg)
    | Dec(r: HReg)
    | Movzx8(d: HReg, s8: Reg8)
    | AluImm(g: Group1, r: HReg, imm32: int)
    | AluRR(p: Pair, d: HReg, s: HReg)
    | ShiftImm(sh: Rotate, r: HReg, count: bv8)
    | Cmp8Imm(r8: Reg8, imm8: bv8)
    | TestAl(imm8: bv8)
    | InAl(port: bv8)
    | JmpRel(rel: int)
    | JccRel(cc: bv4, rel: int)
    | CallRel(rel: int)
    | CallMem(base: HReg, disp: int)
    | CallReg(r: HReg)
    | Ret
    | Push(r: HReg)
    | Pop(r: HReg)
    | Nop
    | Hlt

  function Num(r: HReg): bv8 {
    match r
    case RAX => 0 case RCX => 1 case RDX => 2 case RBX => 3 case RSP => 4 case RBP => 5 case RSI => 6 case RDI => 7
    case R8 => 8 case R9 => 9 case R10 => 10 case R11 => 11 case R12 => 12 case R13 => 13 case R14 => 14 case R15 => 15
  }

  function OfNum(n: bv8): HReg {
    if n == 0 then RAX else if n == 1 then RCX else if n == 2 then RDX else if n == 3 then RBX
    else if n == 4 then RSP else if n == 5 then RBP else if n == 6 then RSI else if n == 7 then RDI
    else if n == 8 then R8 else if n == 9 then R9 else if n == 10 then R10 else if n == 11 then R11
    else if n == 12 then R12 else if n == 13 then R13 else if n == 14 then R14 else R15
  }

  function Num8(r: Reg8): bv8 { match r case AL => 0 case CL => 1 case DL => 2 case BL => 3 }
  function LowReg8(n: bv8): Option<Reg8> {
    if n == 0 then Some(AL) else if n == 1 then Some(CL)
      else if n == 2 then Some(DL) else if n == 3 then Some(BL) else None
  }

  function Digit(g: Group1): bv8 {
    match g
    case GAdd => 0 case GOr => 1 case GAdc => 2 case GSbb => 3
    case GAnd => 4 case GSub => 5 case GXor => 6 case GCmp => 7
  }
  function OfDigit(n: bv8): Group1 {
    if n == 0 then GAdd else if n == 1 then GOr else if n == 2 then GAdc else if n == 3 then GSbb
    else if n == 4 then GAnd else if n == 5 then GSub else if n == 6 then GXor else GCmp
  }

  function PairOpcode(p: Pair): bv8 {
    match p case PAdd => 0x01 case POr => 0x09 case PAnd => 0x21 case PSub => 0x29 case PXor => 0x31 case PCmp => 0x39
  }
  function OfPairOpcode(n: bv8): Option<Pair> {
    if n == 0x01 then Some(PAdd) else if n == 0x09 then Some(POr) else if n == 0x21 then Some(PAnd)
    else if n == 0x29 then Some(PSub) else if n == 0x31 then Some(PXor) else if n == 0x39 then Some(PCmp) else None
  }

  function RotateDigit(s: Rotate): bv8 {
    match s case GRol => 0 case GRor => 1 case GShl => 4 case GShr => 5 case GSar => 7
  }
  function OfRotateDigit(n: bv8): Option<Rotate> {
    if n == 0 then Some(GRol) else if n == 1 then Some(GRor) else if n == 4 then Some(GShl)
    else if n == 5 then Some(GShr) else if n == 7 then Some(GSar) else None
  }

  // ---- little-endian immediates ----

  function Le4(n: int): (b: Bytes)
    ensures |b| == 4
  { [ByteOf(n), ByteOf(n / 0x100), ByteOf(n / 0x1_0000), ByteOf(n / 0x100_0000)] }

  /** Two's complement reading of four bytes. */
  function ReadI32(b: Bytes): int
    requires |b| >= 4
  {
    var u := (b[0] as int) + 0x100 * (b[1] as int) + 0x1_0000 * (b[2] as int) + 0x100_0000 * (b[3] as int);
    if u >= 0x8000_0000 then u - 0x1_0000_0000 else u
  }

  function Le8(v: bv64): Bytes {
    [(v & 0xFF) as bv8, ((v >> 8) & 0xFF) as bv8, ((v >> 16) & 0xFF) as bv8, ((v >> 24) & 0xFF) as bv8,
     ((v >> 32) & 0xFF) as bv8, ((v >> 40) & 0xFF) as bv8, ((v >> 48) & 0xFF) as bv8, ((v >> 56) & 0xFF) as bv8]
  }

  function ReadU64(b: Bytes): bv64
    requires |b| >= 8
  {
    (b[0] as bv64) | ((b[1] as bv64) << 8) | ((b[2] as bv64) << 16) | ((b[3] as bv64) << 24)
    | ((b[4] as bv64) << 32) | ((b[5] as bv64) << 40) | ((b[6] as bv64) << 48) | ((b[7] as bv64) << 56)
  }

  // ---- encoders ----

  function Rex(w: bv8, r: bv8, x: bv8, b: bv8): bv8 { 0x40 | (w << 3) | (r << 2) | (x << 1) | b }

  /** REX.W with the extension bits of a ModRM reg field and r/m field. */
  function RexW(reg: HReg, rm: HReg): bv8 { Rex(1, Num(reg) >> 3, 0, Num(rm) >> 3) }
  function RexWB(rm: HReg): bv8 { Rex(1, 0, 0, Num(rm) >> 3) }

  /** The optional REX.B prefix of the byte and stack forms. */
  function PrefixB(rm: HReg): Bytes { if Num(rm) >> 3 != 0 then [Rex(0, 0, 0, 1)] else [] }

  function ModDirect(reg: bv8, rm: HReg): bv8 { 0xC0 | ((reg & 7) << 3) | (Num(rm) & 7) }

  /** ModRM bytes for [base + disp]; None where the source raises because the
      base needs a SIB byte. */
  function ModMem(reg: bv8, base: HReg, disp: int): Option<Bytes> {
    var b := Num(base);
    if b & 7 == 4 then None
    else if disp == 0 && b & 7 == 5 then Some([0x40 | ((reg & 7) << 3) | (b & 7), 0])
    else if disp != 0 then Some([0x40 | ((reg & 7) << 3) | (b & 7), ByteOf(disp)])
    else Some([((reg & 7) << 3) | (b & 7)])
  }

  function Join(front: Bytes, modrm: Option<Bytes>, back: Bytes): (r: Option<Bytes>)
    ensures r.Some? ==> |r.value| >= |front|
  {
    if modrm == None then None else Some(front + modrm.value + back)
  }

  predicate FitsI32(n: int) { -0x8000_0000 <= n < 0x8000_0000 }

  /** The bytes one emitter appends, branches as they stand after linking;
      None where the source raises. */
  function Encode(i: Instr): (r: Option<Bytes>)
    ensures r.Some? ==> r.value != []
  {
    match i
    case MovImm(r, imm) => Some([RexWB(r), 0xB8 + (Num(r) & 7)] + Le8(imm))
    case MovRR(d, s) => Some([RexW(s, d), 0x89, ModDirect(Num(s), d)])
    case Load(d, base, disp) => Join([RexW(d, base), 0x8B], ModMem(Num(d), base, disp), [])
    case Store(base, s, disp) => Join([RexW(s, base), 0x89], ModMem(Num(s), base, disp), [])
    case Store8(base, s8, disp) => Join(PrefixB(base) + [0x88], ModMem(Num8(s8), base, disp), [])
    case Load8(d8, base, disp) => Join(PrefixB(base) + [0x8A], ModMem(Num8(d8), base, disp), [])
    case CmpMem8(base, imm8, disp) => Join(PrefixB(base) + [0x80], ModMem(7, base, disp), [imm8])
    case Inc(r) => Some([RexWB(r), 0xFF, 0xC0 | (Num(r) & 7)])
    case Dec(r) => Some([RexWB(r), 0xFF, 0xC8 | (Num(r) & 7)])
    case Movzx8(d, s8) => Some([Rex(1, Num(d) >> 3, 0, 0), 0x0F, 0xB6, 0xC0 | ((Num(d) & 7) << 3) | Num8(s8)])
    case AluImm(g, r, n) => if FitsI32(n) then Some([RexWB(r), 0x81, ModDirect(Digit(g), r)] + Le4(n)) else None
    case AluRR(p, d, s) => Some([RexW(s, d), PairOpcode(p), ModDirect(Num(s), d)])
    case ShiftImm(sh, r, count) => Some([RexWB(r), 0xC1, ModDirect(RotateDigit(sh), r), count])
    case Cmp8Imm(r8, imm8) => if r8 == AL then Some([0x3C, imm8]) else Some([0x80, 0xF8 | Num8(r8), imm8])
    case TestAl(imm8) => Some([0xA8, imm8])
    case InAl(port) => Some([0xE4, port])
    case JmpRel(rel) => if FitsI32(rel) then Some([0xE9] + Le4(rel)) else None
    case JccRel(cc, rel) => if FitsI32(rel) then Some([0x0F, 0x80 + (cc as bv8)] + Le4(rel)) else None
    case CallRel(rel) => if FitsI32(rel) then Some([0xE8] + Le4(rel)) else None
    case CallMem(base, disp) => Join(PrefixB(base) + [0xFF], ModMem(2, base, disp), [])
    case CallReg(r) => Some(PrefixB(r) + [0xFF, 0xD0 | (Num(r) & 7)])
    case Ret => Some([0xC3])
    case Push(r) => Some(PrefixB(r) + [0x50 + (Num(r) & 7)])
    case Pop(r) => Some(PrefixB(r) + [0x58 + (Num(r) & 7)])
    case Nop => Some([0x90])
    case Hlt => Some([0xF4])
  }

  // ---- the decoder ----

  datatype RmField = Direct(n: bv8) | Mem(base: bv8, disp: int)
  datatype Modrm = Modrm(reg: bv8, rm: RmField, len: nat)

  function SignedByte(b: bv8): int { if b >= 0x80 then (b as int) - 256 else b as int }

  /** Section 2.1.5 and 2.2.1.2: ModRM with REX.R and REX.B, without SIB,
      RIP-relative or 32-bit displacements. */
  function ReadModrm(rexR: bv8, rexB: bv8, s: Bytes): Option<Modrm> {
    if s == [] then None
    else
      var md, reg, rm := s[0] >> 6, ((s[0] >> 3) & 7) | (rexR << 3), s[0] & 7;
      if md == 3 then Some(Modrm(reg, Direct(rm | (rexB << 3)), 1))
      else if rm == 4 then None
      else if md == 0 then if rm == 5 then None else Some(Modrm(reg, Mem(rm | (rexB << 3), 0), 1))
      else if md == 1 && |s| >= 2 then Some(Modrm(reg, Mem(rm | (rexB << 3), SignedByte(s[1])), 2))
      else None
  }

  datatype Decoded = Decoded(i: Instr, len: nat)

  /** Opcodes that take a register or memory operand. */
  function DecodeModrm(w: bool, rexR: bv8, rexB: bv8, op: bv8, s: Bytes): Option<Decoded> {
    match ReadModrm(rexR, rexB, s)
    case None => None
    case Some(Modrm(reg, Direct(n), _)) =>
      var digit := reg & 7;
      if op == 0x89 && w then Some(Decoded(MovRR(OfNum(n), OfNum(reg)), 2))
      else if OfPairOpcode(op).Some? && w then Some(Decoded(AluRR(OfPairOpcode(op).value, OfNum(n), OfNum(reg)), 2))
      else if op == 0x81 && w && |s| >= 5 then Some(Decoded(AluImm(OfDigit(digit), OfNum(n), ReadI32(s[1..5])), 6))
      else if op == 0xC1 && w && |s| >= 2 && OfRotateDigit(digit).Some? then
        Some(Decoded(ShiftImm(OfRotateDigit(digit).value, OfNum(n), s[1]), 3))
      else if op == 0x80 && !w && digit == 7 && |s| >= 2 && LowReg8(n).Some? then
        Some(Decoded(Cmp8Imm(LowReg8(n).value, s[1]), 3))
      else if op == 0xFF && w && digit == 0 then Some(Decoded(Inc(OfNum(n)), 2))
      else if op == 0xFF && w && digit == 1 then Some(Decoded(Dec(OfNum(n)), 2))
      else if op == 0xFF && !w && digit == 2 then Some(Decoded(CallReg(OfNum(n)), 2))
      else None
    case Some(Modrm(reg, Mem(base, disp), len)) =>
      var digit := reg & 7;
      if op == 0x8B && w then Some(Decoded(Load(OfNum(reg), OfNum(base), disp), 1 + len))
      else if op == 0x89 && w then Some(Decoded(Store(OfNum(base), OfNum(reg), disp), 1 + len))
      else if op == 0x88 && !w && LowReg8(reg).Some? then
        Some(Decoded(Store8(OfNum(base), LowReg8(reg).value, disp), 1 + len))
      else if op == 0x8A && !w && LowReg8(reg).Some? then
        Some(Decoded(Load8(LowReg8(reg).value, OfNum(base), disp), 1 + len))
      else if op == 0x80 && !w && digit == 7 && |s| > len then
        Some(Decoded(CmpMem8(OfNum(base), s[len], disp), 2 + len))
      else if op == 0xFF && !w && digit == 2 then Some(Decoded(CallMem(OfNum(base), disp), 1 + len))
      else None
  }

  /** Opcode and operands after an optional REX prefix with bits W, R and B. */
  function DecodeOpcode(w: bool, rexR: bv8, rexB: bv8, s: Bytes): Option<Decoded> {
    if s == [] then None
    else
      var op, rest := s[0], s[1..];
      if op & 0xF8 == 0xB8 && w && |rest| >= 8 then
        Some(Decoded(MovImm(OfNum((op & 7) | (rexB << 3)), ReadU64(rest)), 9))
      else if op & 0xF8 == 0x50 && !w then Some(Decoded(Push(OfNum((op & 7) | (rexB << 3))), 1))
      else if op & 0xF8 == 0x58 && !w then Some(Decoded(Pop(OfNum((op & 7) | (rexB << 3))), 1))
      else if op == 0x0F then
        if rest == [] then None
        else if rest[0] == 0xB6 && w && |rest| >= 2 && rest[1] >> 6 == 3
          && LowReg8((rest[1] & 7) | (rexB << 3)).Some? then
          Some(Decoded(Movzx8(OfNum(((rest[1] >> 3) & 7) | (rexR << 3)), LowReg8((rest[1] & 7) | (rexB << 3)).value),
            3))
        else if rest[0] & 0xF0 == 0x80 && !w && |rest| >= 5 then
          Some(Decoded(JccRel((rest[0] & 0x0F) as bv4, ReadI32(rest[1..5])), 6))
        else None
      else if op == 0xE9 && !w && |rest| >= 4 then Some(Decoded(JmpRel(ReadI32(rest)), 5))
      else if op == 0xE8 && !w && |rest| >= 4 then Some(Decoded(CallRel(ReadI32(rest)), 5))
      else if op == 0x3C && !w && |rest| >= 1 then Some(Decoded(Cmp8Imm(AL, rest[0]), 2))
      else if op == 0xA8 && !w && |rest| >= 1 then Some(Decoded(TestAl(rest[0]), 2))
      else if op == 0xE4 && !w && |rest| >= 1 then Some(Decoded(InAl(rest[0]), 2))
      else if op == 0xC3 && !w then Some(Decoded(Ret, 1))
      else if op == 0x90 && !w then Some(Decoded(Nop, 1))
      else if op == 0xF4 && !w then Some(Decoded(Hlt, 1))
      else DecodeModrm(w, rexR, rexB, op, rest)
  }

  /** One instruction from the front of a byte string. */
  function Decode(s: Bytes): Option<Decoded> {
    if s == [] then None
    else if s[0] & 0xF0 == 0x40 then
      match DecodeOpcode(s[0] & 8 != 0, (s[0] >> 2) & 1, s[0] & 1, s[1..])
      case None => None
      case Some(d) => Some(Decoded(d.i, d.len + 1))
    else DecodeOpcode(false, 0, 0, s)
  }

  // ---- round trip ----

  /** Instructions whose displacement, if any, is a signed byte. */
  predicate InRange(i: Instr) {
    match i
    case Load(_, _, disp) => -128 <= disp <= 127
    case Store(_, _, disp) => -128 <= disp <= 127
    case Store8(_, _, disp) => -128 <= disp <= 127
    case Load8(_, _, disp) => -128 <= disp <= 127
    case CmpMem8(_, _, disp) => -128 <= disp <= 127
    case CallMem(_, disp) => -128 <= disp <= 127
    case _ => true
  }

  lemma WrapI32(n: int)
    requires FitsI32(n)
    ensures n % 0x1_0000_0000 == if n < 0 then n + 0x1_0000_0000 else n
  {
  }

  lemma LittleEndianRoundTrip(n: int, rest: Bytes)
    requires FitsI32(n)
    ensures ReadI32(Le4(n) + rest) == n
  {
    Digits4(n); WrapI32(n);
    ByteValue(n); ByteValue(n / 0x100); ByteValue(n / 0x1_0000); ByteValue(n / 0x100_0000);
    hide ByteOf;
  }

  /** The numbers that fit are those four bytes can hold. */
  lemma FitsExactly(n: int)
    ensures FitsI32(n) <==> exists b: Bytes :: |b| == 4 && ReadI32(b) == n
  {
    if FitsI32(n) {
      LittleEndianRoundTrip(n, []);
      assert Le4(n) + [] == Le4(n);
    }
    forall b: Bytes | |b| == 4 ensures FitsI32(ReadI32(b)) { FourBytes(b); }
    hide Le4, ReadI32, FitsI32;
  }

  lemma FourBytes(b: Bytes)
    requires |b| == 4
    ensures FitsI32(ReadI32(b))
  {
  }

  lemma SignedByteOf(disp: int)
    ensures -128 <= SignedByte(ByteOf(disp)) <= 127 && (SignedByte(ByteOf(disp)) - disp) % 256 == 0
  {
    ByteValue(disp);
    ByteSign(ByteOf(disp));
    hide ByteOf;
  }

  lemma ByteSign(b: bv8)
    ensures b >= 0x80 <==> b as int >= 128
  {
  }

  lemma WordRoundTrip(v: bv64, rest: Bytes)
    ensures ReadU64(Le8(v) + rest) == v
  {
  }

  lemma RegisterNumbers(r: HReg)
    ensures Num(r) < 16 && OfNum((Num(r) & 7) | ((Num(r) >> 3) << 3)) == r && OfNum(Num(r)) == r
    ensures (Num(r) & 7) | ((Num(r) >> 3) << 3) == Num(r) && (Num(r) >> 3 == 0 || Num(r) >> 3 == 1)
  {
  }

  /** ModRM for [base + disp] read back. */
  lemma ModMemRoundTrip(reg: bv8, base: HReg, disp: int, tail: Bytes)
    requires reg < 16 && ModMem(reg, base, disp).Some?
    ensures var m := ModMem(reg, base, disp).value;
      ReadModrm(reg >> 3, Num(base) >> 3, m + tail) == Some(Modrm(reg, Mem(Num(base), SignedByte(ByteOf(disp))), |m|))
  {
    RegisterNumbers(base);
    hide Num, OfNum, SignedByte, ByteOf;
    SignedByteZero();
  }

  lemma SignedByteZero()
    ensures SignedByte(ByteOf(0)) == 0 && SignedByte(0) == 0
  {
  }

  lemma ModDirectRoundTrip(reg: bv8, rm: HReg, rexR: bv8, tail: Bytes)
    requires reg < 16 && rexR == reg >> 3
    ensures ReadModrm(rexR, Num(rm) >> 3, [ModDirect(reg, rm)] + tail) == Some(Modrm(reg, Direct(Num(rm)), 1))
  {
    RegisterNumbers(rm);
    hide Num, OfNum;
  }

  lemma RexBits(w: bv8, r: bv8, b: bv8)
    requires w < 2 && r < 2 && b < 2
    ensures var x := Rex(w, r, 0, b);
      x & 0xF0 == 0x40 && (x & 8 != 0 <==> w == 1) && (x >> 2) & 1 == r && x & 1 == b
  {
  }

  /** A REX-prefixed instruction decodes by its prefix bits. */
  lemma DecodeRex(w: bv8, r: bv8, b: bv8, s: Bytes)
    requires w < 2 && r < 2 && b < 2
    ensures Decode([Rex(w, r, 0, b)] + s) ==
      match DecodeOpcode(w == 1, r, b, s) case None => None case Some(d) => Some(Decoded(d.i, d.len + 1))
  {
    RexBits(w, r, b);
    assert ([Rex(w, r, 0, b)] + s)[1..] == s;
    hide Rex, DecodeOpcode;
  }

  /** The forms with an optional REX.B decode as if the prefix were there. */
  lemma DecodePrefixB(rm: HReg, op: bv8, s: Bytes)
    requires op & 0xF0 != 0x40
    ensures var d := DecodeOpcode(false, 0, Num(rm) >> 3, [op] + s);
      Decode(PrefixB(rm) + [op] + s)
        == match d case None => None case Some(d) => Some(Decoded(d.i, d.len + |PrefixB(rm)|))
  {
    hide Num, OfNum, Rex, DecodeOpcode;
    RegisterNumbers(rm);
    if Num(rm) >> 3 != 0 {
      DecodeRex(0, 0, 1, [op] + s);
      assert PrefixB(rm) + [op] + s == [Rex(0, 0, 0, 1)] + ([op] + s);
    } else {
      assert PrefixB(rm) + [op] + s == [op] + s;
    }
  }

  ghost predicate RoundTrips(i: Instr, rest: Bytes) {
    Encode(i).Some? ==> Decode(Encode(i).value + rest) == Some(Decoded(i, |Encode(i).value|))
  }

  lemma PlainRoundTrip(i: Instr, rest: Bytes)
    requires i.Ret? || i.Nop? || i.Hlt? || i.TestAl? || i.InAl? || (i.Cmp8Imm? && i.r8 == AL)
    ensures RoundTrips(i, rest)
  {
  }

  lemma BranchRoundTrip(i: Instr, rest: Bytes)
    requires i.JmpRel? || i.CallRel?
    ensures RoundTrips(i, rest)
  {
    if FitsI32(i.rel) {
      hide ReadI32, Le4;
      LittleEndianRoundTrip(i.rel, rest);
      assert (Encode(i).value + rest)[1..] == Le4(i.rel) + rest;
    }
  }

  /** Register-register and register-immediate forms under REX.W. */
  lemma RegisterRoundTrip(i: Instr, rest: Bytes)
    requires i.MovRR? || i.AluRR?
    ensures RoundTrips(i, rest)
  {
    hide Num, OfNum, Rex, ModDirect, ReadModrm, Decode, PairOpcode, OfPairOpcode;
    var op := if i.MovRR? then 0x89 else PairOpcode(i.p);
    var tail := [ModDirect(Num(i.s), i.d)] + rest;
    RegisterNumbers(i.s); RegisterNumbers(i.d);
    DecodeRex(1, Num(i.s) >> 3, Num(i.d) >> 3, [op] + tail);
    ModDirectRoundTrip(Num(i.s), i.d, Num(i.s) >> 3, rest);
    assert Encode(i).value + rest == [RexW(i.s, i.d)] + ([op] + tail);
    assert ([op] + tail)[1..] == tail;
    PairOpcodes(if i.AluRR? then i.p else PAdd);
  }

  lemma PairOpcodes(p: Pair)
    ensures OfPairOpcode(PairOpcode(p)) == Some(p) && PairOpcode(p) & 0xC0 == 0 && PairOpcode(p) != 0x0F
    ensures OfPairOpcode(0x89) == None
  {
  }

  predicate ModrmOpcode(op: bv8) {
    op == 0x81 || op == 0xC1 || op == 0xFF || op == 0x80 || op == 0x88 || op == 0x89 || op == 0x8A || op == 0x8B
  }

  lemma OpcodeToModrm(w: bool, r: bv8, b: bv8, op: bv8, s: Bytes)
    requires ModrmOpcode(op)
    ensures DecodeOpcode(w, r, b, [op] + s) == DecodeModrm(w, r, b, op, s)
    ensures op & 0xF0 != 0x40 && OfPairOpcode(op) == None
  {
    assert ([op] + s)[1..] == s;
    hide DecodeModrm;
  }

  /** The digit forms: opcode, ModRM with an opcode extension, immediate. */
  lemma DigitRoundTrip(i: Instr, rest: Bytes)
    requires i.AluImm? || i.ShiftImm?
    ensures RoundTrips(i, rest)
  {
    hide Num, OfNum, Rex, ModDirect, ReadModrm, Decode, DecodeOpcode, Digit, OfDigit, RotateDigit, OfRotateDigit, Le4,
      ReadI32;
    if i.AluImm? && !FitsI32(i.imm32) { return; }
    var op := if i.AluImm? then 0x81 else 0xC1;
    var digit := if i.AluImm? then Digit(i.g) else RotateDigit(i.sh);
    var tail := (if i.AluImm? then Le4(i.imm32) else [i.count]) + rest;
    var s := [ModDirect(digit, i.r)] + tail;
    RegisterNumbers(i.r);
    Digits(if i.AluImm? then i.g else GAdd, if i.ShiftImm? then i.sh else GShl);
    DecodeRex(1, 0, Num(i.r) >> 3, [op] + s);
    OpcodeToModrm(true, 0, Num(i.r) >> 3, op, s);
    ModDirectRoundTrip(digit, i.r, 0, tail);
    assert Encode(i).value + rest == [RexWB(i.r)] + ([op] + s);
    if i.AluImm? {
      LittleEndianRoundTrip(i.imm32, []);
      assert s[1..5] == Le4(i.imm32) == Le4(i.imm32) + [];
    }
  }

  lemma Digits(g: Group1, s: Rotate)
    ensures Digit(g) < 8 && Digit(g) & 7 == Digit(g) && OfDigit(Digit(g)) == g
    ensures RotateDigit(s) < 8 && RotateDigit(s) & 7 == RotateDigit(s) && OfRotateDigit(RotateDigit(s)) == Some(s)
  {
  }

  lemma IncDecRoundTrip(i: Instr, rest: Bytes)
    requires i.Inc? || i.Dec?
    ensures RoundTrips(i, rest)
  {
    hide Num, OfNum, Rex, ModDirect, ReadModrm, Decode, DecodeOpcode;
    var digit: bv8 := if i.Inc? then 0 else 1;
    var s := [ModDirect(digit, i.r)] + rest;
    RegisterNumbers(i.r);
    DecodeRex(1, 0, Num(i.r) >> 3, [0xFF] + s);
    OpcodeToModrm(true, 0, Num(i.r) >> 3, 0xFF, s);
    ModDirectRoundTrip(digit, i.r, 0, rest);
    ModDirectBytes(Num(i.r), i.r);
    assert Encode(i).value + rest == [RexWB(i.r)] + ([0xFF] + s);
  }

  lemma ModDirectBytes(n: bv8, r: HReg)
    requires n == Num(r)
    ensures ModDirect(0, r) == 0xC0 | (n & 7) && ModDirect(1, r) == 0xC8 | (n & 7) && ModDirect(2, r) == 0xD0 | (n & 7)
    ensures ModDirect(7, r) == 0xF8 | (n & 7)
  {
    hide Num;
  }

  lemma CallRegRoundTrip(i: Instr, rest: Bytes)
    requires i.CallReg?
    ensures RoundTrips(i, rest)
  {
    hide Num, OfNum, Rex, ModDirect, ReadModrm, Decode, DecodeOpcode, PrefixB;
    var s := [ModDirect(2, i.r)] + rest;
    RegisterNumbers(i.r);
    DecodePrefixB(i.r, 0xFF, s);
    OpcodeToModrm(false, 0, Num(i.r) >> 3, 0xFF, s);
    ModDirectRoundTrip(2, i.r, 0, rest);
    ModDirectBytes(Num(i.r), i.r);
    assert Encode(i).value + rest == PrefixB(i.r) + [0xFF] + s;
  }

  lemma LowRegisters(r: Reg8)
    ensures Num8(r) < 4 && LowReg8(Num8(r)) == Some(r) && Num8(r) & 7 == Num8(r)
    ensures 0x80 & 0xF0 != (0x40 as bv8)
  {
  }

  lemma Cmp8RoundTrip(i: Instr, rest: Bytes)
    requires i.Cmp8Imm? && i.r8 != AL
    ensures RoundTrips(i, rest)
  {
    hide Num8, LowReg8, DecodeOpcode;
    var m: bv8 := 0xF8 | Num8(i.r8);
    var s := [m, i.imm8] + rest;
    LowRegisters(i.r8);
    Cmp8Modrm(i.r8, m);
    OpcodeToModrm(false, 0, 0, 0x80, s);
    assert Encode(i).value + rest == [0x80] + s;
  }

  lemma Cmp8Modrm(r: Reg8, m: bv8)
    requires m == 0xF8 | Num8(r)
    ensures m >> 6 == 3 && ((m >> 3) & 7) | (0 << 3) == 7 && (m & 7) | (0 << 3) == Num8(r)
  {
  }

  /** The displacement a reader sees for the one the emitter was given. */
  function Seen(disp: int): int { SignedByte(ByteOf(disp)) }

  lemma SeenExactly(disp: int)
    ensures Seen(disp) == disp <==> -128 <= disp <= 127
  {
    SignedByteOf(disp);
    hide SignedByte, ByteOf;
  }

  /** An instruction as it reads back: its displacement wrapped to one byte. */
  function AsRead(i: Instr): Instr {
    match i
    case Load(d, base, disp) => Load(d, base, Seen(disp))
    case Store(base, s, disp) => Store(base, s, Seen(disp))
    case Store8(base, s8, disp) => Store8(base, s8, Seen(disp))
    case Load8(d8, base, disp) => Load8(d8, base, Seen(disp))
    case CmpMem8(base, imm8, disp) => CmpMem8(base, imm8, Seen(disp))
    case CallMem(base, disp) => CallMem(base, Seen(disp))
    case _ => i
  }

  ghost predicate ReadsAs(i: Instr, rest: Bytes) {
    Encode(i).Some? ==> Decode(Encode(i).value + rest) == Some(Decoded(AsRead(i), |Encode(i).value|))
  }

  lemma WordMemoryReadBack(r: HReg, base: HReg, disp: int, op: bv8, rest: Bytes)
    requires ModMem(Num(r), base, disp).Some? && ModrmOpcode(op)
    ensures var m := ModMem(Num(r), base, disp).value;
      && ReadModrm(Num(r) >> 3, Num(base) >> 3, m + rest) == Some(Modrm(Num(r), Mem(Num(base), Seen(disp)), |m|))
      && Decode([RexW(r, base)] + ([op] + (m + rest))) ==
        match DecodeModrm(true, Num(r) >> 3, Num(base) >> 3, op, m + rest)
        case None => None case Some(d) => Some(Decoded(d.i, d.len + 1))
  {
    var m := ModMem(Num(r), base, disp).value;
    RegisterNumbers(r); RegisterNumbers(base);
    DecodeRex(1, Num(r) >> 3, Num(base) >> 3, [op] + (m + rest));
    OpcodeToModrm(true, Num(r) >> 3, Num(base) >> 3, op, m + rest);
    ModMemRoundTrip(Num(r), base, disp, rest);
    hide SignedByte, ByteOf, Num, OfNum, Rex, ModMem, ReadModrm, Decode, DecodeOpcode, DecodeModrm;
  }

  lemma LoadRoundTrip(i: Instr, rest: Bytes)
    requires i.Load?
    ensures ReadsAs(i, rest)
  {
    hide Seen, Num, OfNum, RexW, ModMem, ReadModrm, Decode;
    if ModMem(Num(i.d), i.base, i.disp) == None { return; }
    var m := ModMem(Num(i.d), i.base, i.disp).value;
    RegisterNumbers(i.d); RegisterNumbers(i.base);
    WordMemoryReadBack(i.d, i.base, i.disp, 0x8B, rest);
    assert Encode(i).value + rest == [RexW(i.d, i.base)] + ([0x8B] + (m + rest));
  }

  lemma StoreRoundTrip(i: Instr, rest: Bytes)
    requires i.Store?
    ensures ReadsAs(i, rest)
  {
    hide Seen, Num, OfNum, RexW, ModMem, ReadModrm, Decode;
    if ModMem(Num(i.s), i.base, i.disp) == None { return; }
    var m := ModMem(Num(i.s), i.base, i.disp).value;
    RegisterNumbers(i.s); RegisterNumbers(i.base);
    WordMemoryReadBack(i.s, i.base, i.disp, 0x89, rest);
    assert Encode(i).value + rest == [RexW(i.s, i.base)] + ([0x89] + (m + rest));
  }

  lemma MemoryReadBack(reg: bv8, base: HReg, disp: int, op: bv8, tail: Bytes)
    requires reg < 8 && ModMem(reg, base, disp).Some? && ModrmOpcode(op)
    ensures var m := ModMem(reg, base, disp).value;
      && ReadModrm(0, Num(base) >> 3, m + tail) == Some(Modrm(reg, Mem(Num(base), Seen(disp)), |m|))
      && Decode(PrefixB(base) + [op] + (m + tail)) ==
        match DecodeModrm(false, 0, Num(base) >> 3, op, m + tail)
        case None => None case Some(d) => Some(Decoded(d.i, d.len + |PrefixB(base)|))
  {
    var m := ModMem(reg, base, disp).value;
    RegisterNumbers(base);
    assert reg >> 3 == 0;
    OpcodeToModrm(false, 0, Num(base) >> 3, op, m + tail);
    DecodePrefixB(base, op, m + tail);
    ModMemRoundTrip(reg, base, disp, tail);
    hide Num, OfNum, ModMem, ReadModrm, Decode, DecodeOpcode, DecodeModrm, PrefixB;
  }

  lemma ByteMemoryRoundTrip(i: Instr, rest: Bytes)
    requires i.Store8? || i.Load8?
    ensures ReadsAs(i, rest)
  {
    hide Num, OfNum, Num8, LowReg8, Rex, ModMem, ReadModrm, Decode, DecodeOpcode, PrefixB;
    var r8, op: bv8 := if i.Store8? then i.s8 else i.d8, if i.Store8? then 0x88 else 0x8A;
    if ModMem(Num8(r8), i.base, i.disp) == None { return; }
    var m := ModMem(Num8(r8), i.base, i.disp).value;
    LowRegisters(r8); RegisterNumbers(i.base);
    MemoryReadBack(Num8(r8), i.base, i.disp, op, rest);
    assert Encode(i).value + rest == PrefixB(i.base) + [op] + (m + rest);
  }

  lemma DigitMemoryRoundTrip(i: Instr, rest: Bytes)
    requires i.CmpMem8? || i.CallMem?
    ensures ReadsAs(i, rest)
  {
    hide Seen, Num, OfNum, Rex, ModMem, ReadModrm, Decode, DecodeOpcode, PrefixB;
    var digit: bv8, op: bv8 := if i.CmpMem8? then 7 else 2, if i.CmpMem8? then 0x80 else 0xFF;
    if ModMem(digit, i.base, i.disp) == None { return; }
    var m := ModMem(digit, i.base, i.disp).value;
    var tail := (if i.CmpMem8? then [i.imm8] else []) + rest;
    RegisterNumbers(i.base);
    MemoryReadBack(digit, i.base, i.disp, op, tail);
    assert Encode(i).value + rest == PrefixB(i.base) + [op] + (m + tail);
  }

  lemma LowBits(op: bv8, n: bv8)
    requires op & 7 == 0 && n < 8
    ensures (op + n) & 0xF8 == op & 0xF8 && (op + n) & 7 == n && (op + n) & 0xF0 == op & 0xF0
  {
  }

  lemma MovImmRoundTrip(i: Instr, rest: Bytes)
    requires i.MovImm?
    ensures RoundTrips(i, rest)
  {
    var n := Num(i.r) & 7;
    RegisterNumbers(i.r);
    LowBits(0xB8, n);
    DecodeRex(1, 0, Num(i.r) >> 3, [0xB8 + n] + (Le8(i.imm) + rest));
    WordRoundTrip(i.imm, rest);
    assert ([0xB8 + n] + (Le8(i.imm) + rest))[1..] == Le8(i.imm) + rest;
    assert Encode(i).value + rest == [RexWB(i.r)] + ([0xB8 + n] + (Le8(i.imm) + rest));
    hide Num, OfNum, Rex, Decode, ReadU64, DecodeModrm;
  }

  lemma StackRoundTrip(i: Instr, rest: Bytes)
    requires i.Push? || i.Pop?
    ensures RoundTrips(i, rest)
  {
    hide Num, OfNum, Rex, Decode, DecodeModrm, PrefixB;
    var op: bv8 := if i.Push? then 0x50 else 0x58;
    var n := Num(i.r) & 7;
    RegisterNumbers(i.r);
    LowBits(op, n);
    DecodePrefixB(i.r, op + n, rest);
    assert Encode(i).value + rest == PrefixB(i.r) + [op + n] + rest;
  }

  lemma MovzxRoundTrip(i: Instr, rest: Bytes)
    requires i.Movzx8?
    ensures RoundTrips(i, rest)
  {
    hide Num, OfNum, Num8, LowReg8, Rex, Decode, DecodeModrm;
    var m: bv8 := 0xC0 | ((Num(i.d) & 7) << 3) | Num8(i.s8);
    RegisterNumbers(i.d); LowRegisters(i.s8);
    MovzxModrm(i.d, i.s8, m);
    DecodeRex(1, Num(i.d) >> 3, 0, [0x0F, 0xB6, m] + rest);
    assert Encode(i).value + rest == [Rex(1, Num(i.d) >> 3, 0, 0)] + ([0x0F, 0xB6, m] + rest);
  }

  lemma MovzxModrm(d: HReg, s8: Reg8, m: bv8)
    requires m == 0xC0 | ((Num(d) & 7) << 3) | Num8(s8)
    ensures m >> 6 == 3 && (m >> 3) & 7 == Num(d) & 7 && (m & 7) | (0 << 3) == Num8(s8)
  {
    LowRegisters(s8); RegisterNumbers(d);
    hide Num, Num8;
  }

  lemma JccRoundTrip(i: Instr, rest: Bytes)
    requires i.JccRel?
    ensures RoundTrips(i, rest)
  {
    hide Le4, ReadI32, DecodeModrm;
    if !FitsI32(i.rel) { return; }
    LittleEndianRoundTrip(i.rel, []);
    var op: bv8 := 0x80 + (i.cc as bv8);
    var tail := [op] + (Le4(i.rel) + rest);
    JccOpcode(i.cc);
    assert Encode(i).value + rest == [0x0F] + tail;
    assert ([0x0F] + tail)[1..] == tail;
    assert tail[1..5] == Le4(i.rel) == Le4(i.rel) + [];
  }

  lemma JccOpcode(cc: bv4)
    ensures var op := 0x80 + (cc as bv8); op & 0xF0 == 0x80 && (op & 0x0F) as bv4 == cc && op != 0xB6
  {
  }

  lemma ReadsBack(i: Instr, rest: Bytes)
    ensures ReadsAs(i, rest)
  {
    hide Encode, Decode;
    match i {
      case MovImm(_, _) => MovImmRoundTrip(i, rest);
      case MovRR(_, _) => RegisterRoundTrip(i, rest);
      case AluRR(_, _, _) => RegisterRoundTrip(i, rest);
      case Load(_, _, _) => LoadRoundTrip(i, rest);
      case Store(_, _, _) => StoreRoundTrip(i, rest);
      case Store8(_, _, _) => ByteMemoryRoundTrip(i, rest);
      case Load8(_, _, _) => ByteMemoryRoundTrip(i, rest);
      case CmpMem8(_, _, _) => DigitMemoryRoundTrip(i, rest);
      case CallMem(_, _) => DigitMemoryRoundTrip(i, rest);
      case Inc(_) => IncDecRoundTrip(i, rest);
      case Dec(_) => IncDecRoundTrip(i, rest);
      case Movzx8(_, _) => MovzxRoundTrip(i, rest);
      case AluImm(_, _, _) => DigitRoundTrip(i, rest);
      case ShiftImm(_, _, _) => DigitRoundTrip(i, rest);
      case Cmp8Imm(r8, _) => if r8 == AL { PlainRoundTrip(i, rest); } else { Cmp8RoundTrip(i, rest); }
      case JmpRel(_) => BranchRoundTrip(i, rest);
      case CallRel(_) => BranchRoundTrip(i, rest);
      case JccRel(_, _) => JccRoundTrip(i, rest);
      case CallReg(_) => CallRegRoundTrip(i, rest);
      case Push(_) => StackRoundTrip(i, rest);
      case Pop(_) => StackRoundTrip(i, rest);
      case _ => PlainRoundTrip(i, rest);
    }
  }

  // ---- whole instruction lists ----

  function EncodeAll(code: seq<Instr>): Option<Bytes> {
    if code == [] then Some([])
    else if Encode(code[0]) == None || EncodeAll(code[1..]) == None then None
    else Some(Encode(code[0]).value + EncodeAll(code[1..]).value)
  }

  lemma {:induction false} EncodeSnoc(code: seq<Instr>, i: Instr)
    ensures EncodeAll(code + [i]) ==
      if EncodeAll(code).Some? && Encode(i).Some? then Some(EncodeAll(code).value + Encode(i).value) else None
  {
    hide Encode;
    if code == [] {
      assert code + [i] == [i] && [i][1..] == [];
      if Encode(i).Some? { assert Encode(i).value + [] == Encode(i).value == [] + Encode(i).value; }
    } else {
      assert (code + [i])[1..] == code[1..] + [i];
      EncodeSnoc(code[1..], i);
      if EncodeAll(code).Some? && Encode(i).Some? {
        assert Encode(code[0]).value + (EncodeAll(code[1..]).value + Encode(i).value)
          == EncodeAll(code).value + Encode(i).value;
      }
    }
  }

  /** Decode instructions until the bytes run out. */
  function DecodeAll(s: Bytes): Option<seq<Instr>>
    decreases |s|
  {
    if s == [] then Some([])
    else
      match Decode(s)
      case None => None
      case Some(d) =>
        if 0 < d.len <= |s| && DecodeAll(s[d.len..]).Some? then Some([d.i] + DecodeAll(s[d.len..]).value) else None
  }

  function AllAsRead(code: seq<Instr>): seq<Instr> { seq(|code|, k requires 0 <= k < |code| => AsRead(code[k])) }

  /** The emitters form an unambiguous code: any emitted list reads back
      instruction for instruction, displacements wrapped to a byte. */
  lemma {:induction false} ListReadsBack(code: seq<Instr>)
    requires EncodeAll(code).Some?
    ensures DecodeAll(EncodeAll(code).value) == Some(AllAsRead(code))
  {
    hide Encode, Decode, AsRead;
    if code == [] {
      assert AllAsRead(code) == [];
    } else {
      var rest := EncodeAll(code[1..]).value;
      ReadsBack(code[0], rest);
      ListReadsBack(code[1..]);
      var front := Encode(code[0]).value;
      assert EncodeAll(code).value == front + rest;
      assert (front + rest)[|front|..] == rest;
      assert AllAsRead(code) == [AsRead(code[0])] + AllAsRead(code[1..]);
    }
  }

  lemma AsReadExactly(i: Instr)
    ensures AsRead(i) == i <==> InRange(i)
  {
    hide Seen;
    match i {
      case Load(_, _, disp) => SeenExactly(disp);
      case Store(_, _, disp) => SeenExactly(disp);
      case Store8(_, _, disp) => SeenExactly(disp);
      case Load8(_, _, disp) => SeenExactly(disp);
      case CmpMem8(_, _, disp) => SeenExactly(disp);
      case CallMem(_, disp) => SeenExactly(disp);
      case _ =>
    }
  }

  /** The list itself is recovered exactly when every displacement fits. */
  lemma CodeIsUnambiguous(code: seq<Instr>)
    requires EncodeAll(code).Some?
    ensures DecodeAll(EncodeAll(code).value) == Some(code) <==> forall i :: i in code ==> InRange(i)
  {
    ListReadsBack(code);
    forall k | 0 <= k < |code| ensures AllAsRead(code)[k] == code[k] <==> InRange(code[k]) { AsReadExactly(code[k]); }
    hide Encode, Decode, AsRead, InRange, EncodeAll, DecodeAll;
    if forall i :: i in code ==> InRange(i) {
      assert AllAsRead(code) == code;
    }
  }
}
