/** arm_model.py: the repository's independent interpreter for the integer
    forms, at 64 bits. Register values are 64-bit words, so the source's
    unbounded arithmetic followed by a 64-bit mask is bit-vector arithmetic. */
module ArmModel {
  import opened Wrappers
  import opened ArmFields
  import opened Bitmask

  type Regs = map<XReg, bv64>

  /** Absent registers read as zero, and so does register 31. */
  function Get(r: Regs, n: XReg): bv64 {
    if n == X31 then 0 else if n in r then r[n] else 0
  }

  function Put(r: Regs, n: XReg, v: bv64): Regs {
    if n == X31 then r else r[n := v]
  }

  /** The shifted second operand. Kind 2 shifts logically, as the source does:
      its values are never negative. */
  function Shifted(kind: bv2, imm6: bv8, v: bv64): bv64
    requires imm6 < 64
  {
    if imm6 == 0 then v
    else if kind == 0 then v << imm6
    else if kind == 3 then (v >> imm6) | (v << (64 - imm6))
    else v >> imm6
  }

  function Logical(opc: bv2, a: bv64, b: bv64): bv64 {
    if opc == 1 then a | b else if opc == 2 then a ^ b else a & b
  }

  function AddSub(opc: bv2, a: bv64, b: bv64): bv64 {
    if opc & 2 != 0 then a - b else a + b
  }

  predicate IsMovz(w: Word) { w & 0x7F800000 == 0x52800000 }
  predicate IsMovk(w: Word) { w & 0x7F800000 == 0x72800000 }
  predicate IsMovn(w: Word) { w & 0x7F800000 == 0x12800000 }
  predicate IsAddImm(w: Word) { w & 0x7F800000 == 0x11000000 }
  predicate IsSubImm(w: Word) { w & 0x7F800000 == 0x51000000 }
  predicate IsAddsImm(w: Word) { w & 0x7F800000 == 0x31000000 }
  predicate IsSubsImm(w: Word) { w & 0x7F800000 == 0x71000000 }
  predicate IsLogicalImm(w: Word) { w & 0x1F800000 == 0x12000000 }
  predicate IsAddSubReg(w: Word) { w & 0x1F000000 == 0x0B000000 }
  predicate IsLogicalReg(w: Word) { w & 0x1F000000 == 0x0A000000 }

  function ImmMask(w: Word): Option<bv64> {
    Bitmask.Bitmask(((w >> 22) & 1) as bv8, ((w >> 10) & 0x3F) as bv8, ((w >> 16) & 0x3F) as bv8)
  }

  /** One 64-bit instruction; None where the source raises Unmodelled. */
  function Step(w: Word, r: Regs): Option<Regs>
    requires Is64(w)
  {
    if IsMovz(w) then Some(Put(r, Rd(w), WideImm(w)))
    else if IsMovk(w) then
      Some(Put(r, Rd(w), (Get(r, Rd(w)) & WideKeep(w)) | WideImm(w)))
    else if IsMovn(w) then Some(Put(r, Rd(w), !WideImm(w)))
    else if IsAddImm(w) || IsSubImm(w) || IsAddsImm(w) || IsSubsImm(w) then
      if w & 0x20000000 != 0 && Rd(w) == X31 then Some(r)
      else if w & 0x40000000 != 0 then Some(Put(r, Rd(w), Get(r, Rn(w)) - Imm12(w)))
      else Some(Put(r, Rd(w), Get(r, Rn(w)) + Imm12(w)))
    else if IsLogicalImm(w) then
      if ImmMask(w) == None then None
      else if Opc(w) == 3 && Rd(w) == X31 then Some(r)
      else Some(Put(r, Rd(w), Logical(Opc(w), Get(r, Rn(w)), ImmMask(w).value)))
    else if IsAddSubReg(w) then
      var b := Shifted(ShiftKind(w), Imm6(w), Get(r, Rm(w)));
      if Opc(w) & 1 != 0 && Rd(w) == X31 then Some(r)
      else Some(Put(r, Rd(w), AddSub(Opc(w), Get(r, Rn(w)), b)))
    else if IsLogicalReg(w) then
      var b := Shifted(ShiftKind(w), Imm6(w), Get(r, Rm(w)));
      if Opc(w) == 3 && Rd(w) == X31 then Some(r)
      else Some(Put(r, Rd(w), Logical(Opc(w), Get(r, Rn(w)), b)))
    else None
  }
}
