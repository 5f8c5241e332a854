/** Field extraction from a 32-bit arm64 instruction word, shared by the
    translator and by its oracle: both write the same masks and shifts. */
module ArmFields {
  type Word = bv32

  /** A five-bit register field. */
  datatype XReg = X(n: nat)
  const X31 := X(31)

  predicate Is64(w: Word) { w & 0x80000000 != 0 }

  function Rd(w: Word): (r: XReg) ensures r.n < 32 { X((w & 0x1F) as bv5 as nat) }
  function Rn(w: Word): (r: XReg) ensures r.n < 32 { X(((w >> 5) & 0x1F) as bv5 as nat) }
  function Rm(w: Word): (r: XReg) ensures r.n < 32 { X(((w >> 16) & 0x1F) as bv5 as nat) }

  /** The 12-bit add/sub immediate, moved up by 12 when bit 22 is set. */
  function Imm12(w: Word): bv64 {
    var imm := ((w >> 10) & 0xFFF) as bv64;
    if (w >> 22) & 1 == 1 then imm << 12 else imm
  }

  function Imm16(w: Word): bv64 { ((w >> 5) & 0xFFFF) as bv64 }
  /** Bit position of the move-wide halfword, 16 * hw. */
  function HwShift(w: Word): bv8 { (((w >> 21) & 3) as bv8) << 4 }
  /** Move-wide: the halfword in place, and the mask of the bits it leaves alone. */
  function WideImm(w: Word): bv64 { Imm16(w) << HwShift(w) }
  function WideKeep(w: Word): bv64 { !(0xFFFF << HwShift(w)) }
  function Opc(w: Word): bv2 { ((w >> 29) & 3) as bv2 }
  function ShiftKind(w: Word): bv2 { ((w >> 22) & 3) as bv2 }
  function Imm6(w: Word): bv8 { ((w >> 10) & 0x3F) as bv8 }
}
