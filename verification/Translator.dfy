/** a64_to_x64.py: register mapping, data movement and the integer and branch
    forms of `translate`, in the source's order of tests. */
module Translator {
  import opened Wrappers
  import opened ArmFields
  import opened ArmModel
  import opened IntFacts
  import opened X86Lines

  const SCRATCH := Opnd.Reg(RBP)

  /** Host location of arm64 register n: thirteen in registers, the rest in
      the register file at r15 + 8 n. */
  function Loc(n: XReg): Opnd {
    if n.n == 0 then Opnd.Reg(RAX) else if n.n == 1 then Opnd.Reg(RBX) else if n.n == 2 then Opnd.Reg(RCX)
    else if n.n == 3 then Opnd.Reg(RDX) else if n.n == 4 then Opnd.Reg(RSI) else if n.n == 5 then Opnd.Reg(RDI)
    else if n.n == 6 then Opnd.Reg(R8) else if n.n == 7 then Opnd.Reg(R9) else if n.n == 8 then Opnd.Reg(R10)
    else if n.n == 9 then Opnd.Reg(R11) else if n.n == 10 then Opnd.Reg(R12) else if n.n == 11 then Opnd.Reg(R13)
    else if n.n == 12 then Opnd.Reg(R14)
    else Slot(8 * n.n)
  }

  function Move(dst: Opnd, src: Opnd): seq<Line> {
    if dst == src then []
    else if dst.Slot? && src.Slot? then [Mov(SCRATCH, src), Mov(dst, SCRATCH)]
    else [Mov(dst, src)]
  }

  /** The signed value of the `width` bits of a word from bit `lo` up. */
  function Sextract(value: nat, lo: nat, width: nat): int
    requires width > 0
  {
    var v := (value / Pow2(lo)) % Pow2(width);
    if v >= Pow2(width - 1) then v - Pow2(width) else v
  }

  datatype Translation =
    | Code(lines: seq<Line>)  // the emitted lines
    | Unsupported             // the source raises Unsupported
    | NotModelled             // a form this model leaves out

  /** Forms tested before ordinary control flow: system registers, cache and
      TLB maintenance, exceptions, barriers, pointer authentication. */
  predicate SystemForm(w: Word) {
    || w & 0xFFF00000 == 0xD5100000 || w & 0xFFF00000 == 0xD5300000
    || w & 0xFFF80000 == 0xD5080000
    || w == 0xD69F03E0
    || w & 0xFFE0001F == 0xD4000001 || w & 0xFFE0001F == 0xD4000002 || w & 0xFFE0001F == 0xD4000003
    || w & 0xFFFFF0FF == 0xD503309F || w & 0xFFFFF0FF == 0xD50330BF || w & 0xFFFFF0FF == 0xD50330DF
    || w & 0xFFFFF01F == 0xD503201F
    || (w & 0xFFE00000 == 0xDAC00000 && (w >> 16) & 0x1F == 1)
    || w == 0xD65F0BFF || w == 0xD65F0FFF || w & 0xFE1FF800 == 0xD61F0800
  }

  /** Calls, returns and register branches. */
  predicate CallForm(w: Word) {
    w & 0xFC000000 == 0x94000000 || w == 0xD65F03C0 || w & 0xFFFFFC1F == 0xD61F0000
  }

  predicate AdrForm(w: Word) { w & 0x9F000000 == 0x10000000 || w & 0x9F000000 == 0x90000000 }

  /** Loads, stores, extended registers and carry arithmetic, all tested
      between the register forms and MOVN. */
  predicate MemoryForm(w: Word) {
    var integer := (w >> 26) & 1 == 0;
    || (w & 0x3B000000 == 0x39000000 && integer)
    || (w & 0x3B200000 == 0x38000000 && integer)
    || (w & 0x3B200C00 == 0x38200800 && integer)
    || w & 0xFFC00000 == 0xA9800000 || w & 0xFFC00000 == 0xA9000000
    || w & 0xFFC00000 == 0xA9400000 || w & 0xFFC00000 == 0xA8C00000
    || w & 0x1FE00000 == 0x0B200000
    || w & 0x1FE0FC00 == 0x1A000000
  }

  /** Acquire/release, multiply, divide, variable shift, select and bit
      counting, tested between MOVN and the logical immediates. */
  predicate LateForm(w: Word) {
    || w & 0x3FFFFC00 == 0x08DFFC00 || w & 0x3FFFFC00 == 0x089FFC00
    || w & 0x7FE00000 == 0x1B000000
    || w & 0x7FE0FC00 == 0x1AC00800 || w & 0x7FE0FC00 == 0x1AC00C00
    || w & 0x7FE0F000 == 0x1AC02000
    || w & 0x1FE00000 == 0x1A800000
    || w & 0x7FFFFC00 == 0x5AC01000 || w & 0x7FFFFC00 == 0x5AC00000 || w & 0x7FFFFC00 == 0x5AC00C00
  }

  predicate IsB(w: Word) { w & 0xFC000000 == 0x14000000 }
  predicate IsBcond(w: Word) { w & 0xFF000010 == 0x54000000 }
  predicate IsCbz(w: Word) { w & 0x7F000000 == 0x34000000 || w & 0x7F000000 == 0x35000000 }
  predicate IsTbz(w: Word) { w & 0x7F000000 == 0x36000000 || w & 0x7F000000 == 0x37000000 }

  function LogicalOp(opc: bv2): AluOp { if opc == 1 then Or else if opc == 2 then Xor else And }
  function AddSubOp(opc: bv2): AluOp { if opc & 2 != 0 then Sub else Add }
  function ShiftName(kind: bv2): ShiftOp {
    if kind == 0 then Shl else if kind == 1 then Shr else if kind == 2 then Sar else Ror
  }

  /** The j-suffix for an arm64 condition; None is the unconditional "mp". */
  function CondName(c: bv4): Option<Cond> {
    if c == 0 then Some(E) else if c == 1 then Some(NE) else if c == 2 then Some(B) else if c == 3 then Some(AE)
    else if c == 4 then Some(Cond.S)
      else if c == 5 then Some(NS) else if c == 6 then Some(O) else if c == 7 then Some(NO)
    else if c == 8 then Some(A) else if c == 9 then Some(BE) else if c == 10 then Some(GE) else if c == 11 then Some(L)
    else if c == 12 then Some(G) else if c == 13 then Some(LE) else None
  }

  function CondField(w: Word): bv4 { (w & 0xF) as bv4 }
  predicate BranchIfSet(w: Word) { w & 0x01000000 != 0 }
  function TestedBit(w: Word): (k: bv8)
    ensures k < 64
  { (((w >> 26) & 0x20) | ((w >> 19) & 0x1F)) as bv8 }

  function Branch26(w: Word, pc: int): int { pc + 4 * Sextract(w as nat, 0, 26) }
  function Branch19(w: Word, pc: int): int { pc + 4 * Sextract(w as nat, 5, 19) }
  function Branch14(w: Word, pc: int): int { pc + 4 * Sextract(w as nat, 5, 14) }

  /** Logical-immediate and add/sub-immediate bodies: copy Rn, then operate. */
  function ImmediateOp(op: AluOp, rd: XReg, rn: XReg, imm: bv64): seq<Line> {
    (if rd == rn then [] else Move(Loc(rd), Loc(rn))) + [Alu(op, Loc(rd), Imm(imm))]
  }

  predicate IsShifted(w: Word) { ShiftKind(w) != 0 || Imm6(w) != 0 }

  function RegisterForm(w: Word): seq<Line> {
    var logical := IsLogicalReg(w);
    var opc := Opc(w);
    var op := if logical then LogicalOp(opc) else AddSubOp(opc);
    var rd, rn, rm := Rd(w), Rn(w), Rm(w);
    var dst, src := Loc(rd), Loc(rm);
    var copy := if rd != rn then Move(dst, Loc(rn)) else [];
    if IsShifted(w) then
      [Mov(SCRATCH, src), Shift(ShiftName(ShiftKind(w)), SCRATCH, Imm6(w))] + copy + [Alu(op, dst, SCRATCH)]
    else if logical && opc == 1 && rn == X31 then Move(dst, src)
    else if rd == X31 && opc & 1 != 0 then
      if Loc(rn).Slot? && src.Slot? then [Mov(SCRATCH, Loc(rn)), Cmp(SCRATCH, src)]
      else [Cmp(Loc(rn), src)]
    else if dst.Slot? && src.Slot? then copy + [Mov(SCRATCH, src), Alu(op, dst, SCRATCH)]
    else copy + [Alu(op, dst, src)]
  }

  /** One arm64 word at address pc. */
  function Translate(w: Word, pc: int): Translation {
    if SystemForm(w) then NotModelled
    else if IsB(w) then Code([Jmp(Branch26(w, pc))])
    else if CallForm(w) then NotModelled
    else if IsBcond(w) then
      var target := Branch19(w, pc);
      match CondName(CondField(w))
      case Some(cc) => Code([Jcc(cc, target)])
      case None => Code([Jmp(target)])
    else if IsCbz(w) then
      var loc := Loc(Rd(w));
      var jump := Jcc(if BranchIfSet(w) then NE else E, Branch19(w, pc));
      if loc.Slot? then Code([Mov(SCRATCH, loc), Cmp(SCRATCH, Imm(0)), jump])
      else Code([Cmp(loc, Imm(0)), jump])
    else if IsTbz(w) then
      var loc := Loc(Rd(w));
      var jump := Jcc(if BranchIfSet(w) then B else AE, Branch14(w, pc));
      if loc.Slot? then Code([Mov(SCRATCH, loc), Bt(SCRATCH, TestedBit(w)), jump])
      else Code([Bt(loc, TestedBit(w)), jump])
    else if IsAddImm(w) then Code(ImmediateOp(Add, Rd(w), Rn(w), Imm12(w)))
    else if IsSubImm(w) then Code(ImmediateOp(Sub, Rd(w), Rn(w), Imm12(w)))
    else if IsSubsImm(w) then Code([Cmp(Loc(Rn(w)), Imm(((w >> 10) & 0xFFF) as bv64))])
    else if IsMovz(w) then Code([Mov(Loc(Rd(w)), Imm(WideImm(w)))])
    else if IsMovk(w) then
      Code([Alu(And, Loc(Rd(w)), Imm(WideKeep(w))), Alu(Or, Loc(Rd(w)), Imm(WideImm(w)))])
    else if AdrForm(w) then NotModelled
    else if IsAddSubReg(w) || IsLogicalReg(w) then Code(RegisterForm(w))
    else if MemoryForm(w) then NotModelled
    else if IsMovn(w) then
      var val := !WideImm(w);
      var dst := Loc(Rd(w));
      if dst.Slot? then Code([Mov(SCRATCH, Imm(val)), Mov(dst, SCRATCH)]) else Code([Mov(dst, Imm(val))])
    else if LateForm(w) then NotModelled
    else if IsLogicalImm(w) then
      if ImmMask(w) == None then Unsupported
      else if Rd(w) == X31 && Opc(w) == 3 then Code([Test(Loc(Rn(w)), Imm(ImmMask(w).value))])
      else Code(ImmediateOp(LogicalOp(Opc(w)), Rd(w), Rn(w), ImmMask(w).value))
    else if w & 0x1F800000 == 0x13000000 || w == 0 then NotModelled
    else Unsupported
  }
}
