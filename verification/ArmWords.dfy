/** The word encoders the stub generators and patchers share, each with the
    instruction its word decodes to. */
module ArmWords {
  import opened Wrappers
  import opened ArmMachine

  lemma Low5(a: nat, r: nat)
    requires r < 32
    ensures (a * 0x20 + r) % 32 == r && (a * 0x20 + r) / 32 == a
  {
  }

  /** Two register fields under a third one. */
  lemma Low10(a: nat, rn: nat, rt: nat)
    requires rn < 32 && rt < 32
    ensures (a * 0x400 + rn * 0x20 + rt) % 32 == rt
    ensures (a * 0x400 + rn * 0x20 + rt) / 32 % 32 == rn
    ensures (a * 0x400 + rn * 0x20 + rt) / 0x400 == a
  {
  }

  // ---- wide moves ----

  function Movz64(rd: nat, imm16: nat, hw: nat): (w: nat)
    requires hw < 4
    ensures w < TWO_32
  {
    0xD280_0000 + hw * 0x20_0000 + imm16 % TWO_16 * 0x20 + rd % 32
  }

  function Movk64(rd: nat, imm16: nat, hw: nat): (w: nat)
    requires hw < 4
    ensures w < TWO_32
  {
    0xF280_0000 + hw * 0x20_0000 + imm16 % TWO_16 * 0x20 + rd % 32
  }

  function Movz32(rd: nat, imm16: nat, hw: nat): (w: nat)
    requires hw < 2
    ensures w < TWO_32
  {
    0x5280_0000 + hw * 0x20_0000 + imm16 % TWO_16 * 0x20 + rd % 32
  }

  function Movk32(rd: nat, imm16: nat, hw: nat): (w: nat)
    requires hw < 2
    ensures w < TWO_32
  {
    0x7280_0000 + hw * 0x20_0000 + imm16 % TWO_16 * 0x20 + rd % 32
  }

  lemma Movz64Decodes(rd: nat, imm16: nat, hw: nat)
    requires rd < 31 && hw < 4
    ensures Decode(Movz64(rd, imm16, hw)) == Movz(true, rd, imm16 % TWO_16, hw)
  {
    var imm := imm16 % TWO_16;
    Low5(imm, rd);
    Parts(Movz64(rd, imm16, hw), 0x694 + hw, imm * 0x20 + rd);
    hide Decode;
  }

  lemma Movk64Decodes(rd: nat, imm16: nat, hw: nat)
    requires rd < 31 && hw < 4
    ensures Decode(Movk64(rd, imm16, hw)) == Movk(true, rd, imm16 % TWO_16, hw)
  {
    var imm := imm16 % TWO_16;
    Low5(imm, rd);
    Parts(Movk64(rd, imm16, hw), 0x794 + hw, imm * 0x20 + rd);
    hide Decode;
  }

  lemma Movz32Decodes(rd: nat, imm16: nat, hw: nat)
    requires rd < 31 && hw < 2
    ensures Decode(Movz32(rd, imm16, hw)) == Movz(false, rd, imm16 % TWO_16, hw)
  {
    var imm := imm16 % TWO_16;
    Low5(imm, rd);
    Parts(Movz32(rd, imm16, hw), 0x294 + hw, imm * 0x20 + rd);
    hide Decode;
  }

  lemma Movk32Decodes(rd: nat, imm16: nat, hw: nat)
    requires rd < 31 && hw < 2
    ensures Decode(Movk32(rd, imm16, hw)) == Movk(false, rd, imm16 % TWO_16, hw)
  {
    var imm := imm16 % TWO_16;
    Low5(imm, rd);
    Parts(Movk32(rd, imm16, hw), 0x394 + hw, imm * 0x20 + rd);
    hide Decode;
  }

  // ---- loads and stores ----

  function StrWord(rt: nat, rn: nat, off: nat): (w: nat)
    requires off % 4 == 0 && off < 16384
    ensures w < TWO_32
  {
    0xB900_0000 + off / 4 * 0x400 + rn % 32 * 0x20 + rt % 32
  }

  function StrHalf(rt: nat, rn: nat, off: nat): (w: nat)
    requires off % 2 == 0 && off < 8192
    ensures w < TWO_32
  {
    0x7900_0000 + off / 2 * 0x400 + rn % 32 * 0x20 + rt % 32
  }

  function LdrWord(rt: nat, rn: nat, off: nat): (w: nat)
    requires off % 4 == 0 && off < 16384
    ensures w < TWO_32
  {
    0xB940_0000 + off / 4 * 0x400 + rn % 32 * 0x20 + rt % 32
  }

  /** A scaled offset, its top bit in the opcode part of the word. */
  lemma OffsetParts(w: nat, top: nat, imm: nat, rn: nat, rt: nat)
    requires imm < 0x1000 && rn < 32 && rt < 32 && w == 0x20_0000 * top + imm * 0x400 + rn * 0x20 + rt
    ensures imm < 0x800 ==> Decode(w) == Form(top, imm * 0x400 + rn * 0x20 + rt)
    ensures imm >= 0x800 ==> Decode(w) == Form(top + 1, (imm - 0x800) * 0x400 + rn * 0x20 + rt)
  {
    if imm < 0x800 {
      Parts(w, top, imm * 0x400 + rn * 0x20 + rt);
    } else {
      Parts(w, top + 1, (imm - 0x800) * 0x400 + rn * 0x20 + rt);
      Low10(imm - 0x800, rn, rt);
    }
    Low10(imm, rn, rt);
    hide Decode, Form;
  }

  lemma StrWordDecodes(rt: nat, rn: nat, off: nat)
    requires rt < 31 && rn < 31 && off % 4 == 0 && off < 16384
    ensures Decode(StrWord(rt, rn, off)) == StrW(rt, rn, off)
  {
    var imm := off / 4;
    OffsetParts(StrWord(rt, rn, off), 0x5C8, imm, rn, rt);
    Low10(imm, rn, rt);
    if imm >= 0x800 { Low10(imm - 0x800, rn, rt); }
    hide Decode;
  }

  lemma StrHalfDecodes(rt: nat, rn: nat, off: nat)
    requires rt < 31 && rn < 31 && off % 2 == 0 && off < 8192
    ensures Decode(StrHalf(rt, rn, off)) == StrhW(rt, rn, off)
  {
    var imm := off / 2;
    OffsetParts(StrHalf(rt, rn, off), 0x3C8, imm, rn, rt);
    Low10(imm, rn, rt);
    if imm >= 0x800 { Low10(imm - 0x800, rn, rt); }
    hide Decode;
  }

  lemma LdrWordDecodes(rt: nat, rn: nat, off: nat)
    requires rt < 31 && rn < 31 && off % 4 == 0 && off < 16384
    ensures Decode(LdrWord(rt, rn, off)) == LdrW(rt, rn, off)
  {
    var imm := off / 4;
    OffsetParts(LdrWord(rt, rn, off), 0x5CA, imm, rn, rt);
    Low10(imm, rn, rt);
    if imm >= 0x800 { Low10(imm - 0x800, rn, rt); }
    hide Decode;
  }

  function LdrWordPost(rt: nat, rn: nat, imm9: int): (w: nat)
    ensures w < TWO_32
  {
    0xB840_0400 + imm9 % 0x200 * 0x1000 + rn % 32 * 0x20 + rt % 32
  }

  function StrWordPost(rt: nat, rn: nat, imm9: int): (w: nat)
    ensures w < TWO_32
  {
    0xB800_0400 + imm9 % 0x200 * 0x1000 + rn % 32 * 0x20 + rt % 32
  }

  function LdrBytePost(rt: nat, rn: nat, imm9: int): (w: nat)
    ensures w < TWO_32
  {
    0x3840_0400 + imm9 % 0x200 * 0x1000 + rn % 32 * 0x20 + rt % 32
  }

  lemma PostParts(w: nat, top: nat, imm: nat, rn: nat, rt: nat)
    requires imm < 0x200 && rn < 32 && rt < 32 && w == 0x20_0000 * top + 0x400 + imm * 0x1000 + rn * 0x20 + rt
    ensures Decode(w) == Form(top, (4 * imm + 1) * 0x400 + rn * 0x20 + rt)
    ensures ((4 * imm + 1) * 0x400 + rn * 0x20 + rt) / 0x1000 == imm
  {
    Parts(w, top, (4 * imm + 1) * 0x400 + rn * 0x20 + rt);
    hide Decode, Form;
  }

  lemma PostsDecode(rt: nat, rn: nat, imm9: int)
    requires rt < 31 && rn < 31 && -0x100 <= imm9 < 0x100
    ensures Decode(LdrWordPost(rt, rn, imm9)) == LdrWPost(rt, rn, imm9)
    ensures Decode(StrWordPost(rt, rn, imm9)) == StrWPost(rt, rn, imm9)
    ensures Decode(LdrBytePost(rt, rn, imm9)) == LdrbPost(rt, rn, imm9)
  {
    hide Decode, Form;
    var imm := imm9 % 0x200;
    var low := (4 * imm + 1) * 0x400 + rn * 0x20 + rt;
    assert Signed(imm, 0x100) == imm9;
    PostParts(LdrWordPost(rt, rn, imm9), 0x5C2, imm, rn, rt);
    PostParts(StrWordPost(rt, rn, imm9), 0x5C0, imm, rn, rt);
    PostParts(LdrBytePost(rt, rn, imm9), 0x1C2, imm, rn, rt);
    Low10(4 * imm + 1, rn, rt);
    PostForms(low, imm9);
  }

  lemma PostForms(low: nat, imm9: int)
    requires low / 0x400 % 4 == 1 && Signed(low / 0x1000, 0x100) == imm9
    ensures Form(0x5C2, low) == LdrWPost(low % 32, low / 32 % 32, imm9)
    ensures Form(0x5C0, low) == StrWPost(low % 32, low / 32 % 32, imm9)
    ensures Form(0x1C2, low) == LdrbPost(low % 32, low / 32 % 32, imm9)
  {
  }

  // ---- arithmetic and branches ----

  function SubsImm32(rd: nat, rn: nat, imm12: nat): (w: nat)
    ensures w < TWO_32
  {
    0x7100_0000 + imm12 % 0x1000 * 0x400 + rn % 32 * 0x20 + rd % 32
  }

  lemma SubsDecodes(rd: nat, rn: nat, imm12: nat)
    requires rd < 31 && rn < 31 && imm12 < 0x1000
    ensures Decode(SubsImm32(rd, rn, imm12)) == SubsW(rd, rn, imm12)
  {
    OffsetParts(SubsImm32(rd, rn, imm12), 0x388, imm12, rn, rd);
    Low10(imm12, rn, rd);
    if imm12 >= 0x800 { Low10(imm12 - 0x800, rn, rd); }
    hide Decode;
  }

  /** (delta // 4) & (size - 1): the field a distance is stored in. */
  function Field(delta: int, size: nat): (f: nat)
    requires size == 0x4000 || size == 0x8_0000 || size == 0x400_0000
    ensures f < size
  {
    if size == 0x4000 then delta / 4 % 0x4000
      else if size == 0x8_0000 then delta / 4 % 0x8_0000 else delta / 4 % 0x400_0000
  }

  /** A word-aligned distance within reach of a field of the given half range. */
  predicate Reaches(pc: nat, target: int, half: int) { (target - pc) % 4 == 0 && -half <= (target - pc) / 4 < half }

  /** The distances within reach are those a field of that half range stands for. */
  lemma ReachesExactly(pc: nat, target: int, half: nat)
    requires half > 0
    ensures Reaches(pc, target, half) <==>
      exists field: nat :: field < 2 * half && target - pc == 4 * Signed(field, half)
  {
    if Reaches(pc, target, half) {
      var d := (target - pc) / 4;
      var field := if d < 0 then d + 2 * half else d;
      assert target - pc == 4 * Signed(field, half);
    }
  }

  lemma SignedDelta(pc: nat, target: int, half: nat)
    requires half == 0x2000 || half == 0x4_0000 || half == 0x200_0000
    requires Reaches(pc, target, half)
    ensures half == 0x2000 ==> 4 * Signed(Field(target - pc, 0x4000), half) == target - pc
    ensures half == 0x4_0000 ==> 4 * Signed(Field(target - pc, 0x8_0000), half) == target - pc
    ensures half == 0x200_0000 ==> 4 * Signed(Field(target - pc, 0x400_0000), half) == target - pc
  {
  }

  /** A nineteen-bit distance, its top three bits in the opcode part. */
  lemma DeltaParts(w: nat, top: nat, imm: nat, rt: nat)
    requires imm < 0x8_0000 && rt < 32 && w == 0x20_0000 * top + imm * 0x20 + rt
    ensures exists high: nat, low: nat ::
      high < 8 && Decode(w) == Form(top + high, low) && Imm19(high, low) == Signed(imm, 0x4_0000) && low % 32 == rt
  {
    var high, low := imm / 0x1_0000, imm % 0x1_0000 * 0x20 + rt;
    Parts(w, top + high, low);
    Low5(imm % 0x1_0000, rt);
    hide Decode, Form;
    assert Imm19(high, low) == Signed(imm, 0x4_0000);
  }

  function BNe(pc: nat, target: nat): (w: nat)
    ensures w < TWO_32
  {
    0x5400_0001 + Field(target - pc, 0x8_0000) * 0x20
  }

  function CbzWord(rt: nat, pc: nat, target: nat): (w: nat)
    ensures w < TWO_32
  {
    0x3400_0000 + Field(target - pc, 0x8_0000) * 0x20 + rt % 32
  }

  lemma BNeDecodes(pc: nat, target: nat)
    requires Reaches(pc, target, 0x4_0000)
    ensures Decode(BNe(pc, target)) == Bne(target - pc)
  {
    var imm := Field(target - pc, 0x8_0000);
    SignedDelta(pc, target, 0x4_0000);
    DeltaParts(BNe(pc, target), 0x2A0, imm, 1);
    hide Decode, Imm19;
  }

  lemma CbzWordDecodes(rt: nat, pc: nat, target: nat)
    requires rt < 31 && Reaches(pc, target, 0x4_0000)
    ensures Decode(CbzWord(rt, pc, target)) == Cbz(false, rt, target - pc)
  {
    var imm := Field(target - pc, 0x8_0000);
    SignedDelta(pc, target, 0x4_0000);
    DeltaParts(CbzWord(rt, pc, target), 0x1A0, imm, rt);
    hide Decode, Imm19;
  }

  function TbnzWord(rt: nat, bit: nat, pc: nat, target: nat): (w: nat)
    ensures w < TWO_32
  {
    0x3700_0000 + bit % 32 * 0x8_0000 + Field(target - pc, 0x4000) * 0x20 + rt % 32
  }

  lemma TbnzWordDecodes(rt: nat, bit: nat, pc: nat, target: nat)
    requires rt < 31 && bit < 32 && Reaches(pc, target, 0x2000)
    ensures Decode(TbnzWord(rt, bit, pc, target)) == TbnzW(rt, bit, target - pc)
  {
    var imm := Field(target - pc, 0x4000);
    var field := bit % 4 * 0x4000 + imm;
    var low := field * 0x20 + rt;
    SignedDelta(pc, target, 0x2000);
    assert TbnzWord(rt, bit, pc, target) == 0x20_0000 * (0x1B8 + bit / 4) + low;
    Parts(TbnzWord(rt, bit, pc, target), 0x1B8 + bit / 4, low);
    Low5(field, rt);
    TbnzForm(bit / 4, bit % 4, imm, rt);
    hide Decode, Form, TbnzWord, Field;
  }

  lemma TbnzForm(high: nat, mid: nat, imm: nat, rt: nat)
    requires high < 8 && mid < 4 && imm < 0x4000 && rt < 32
    ensures Form(0x1B8 + high, (mid * 0x4000 + imm) * 0x20 + rt) == TbnzW(rt, 4 * high + mid, 4 * Signed(imm, 0x2000))
  {
    var field := mid * 0x4000 + imm;
    Low5(field, rt);
    TopTwo(mid, imm, rt);
    hide Signed;
  }

  lemma TopTwo(mid: nat, imm: nat, rt: nat)
    requires imm < 0x4000 && rt < 32
    ensures ((mid * 0x4000 + imm) * 0x20 + rt) / 0x8_0000 == mid && (mid * 0x4000 + imm) % 0x4000 == imm
  {
  }

  function BUnchecked(pc: nat, target: nat): (w: nat)
    ensures w < TWO_32
  {
    0x1400_0000 + Field(target - pc, 0x400_0000)
  }

  lemma BUncheckedDecodes(pc: nat, target: nat)
    requires Reaches(pc, target, 0x200_0000)
    ensures Decode(BUnchecked(pc, target)) == B(target - pc)
  {
    var imm := Field(target - pc, 0x400_0000);
    SignedDelta(pc, target, 0x200_0000);
    Parts(BUnchecked(pc, target), 0xA0 + imm / 0x20_0000, imm % 0x20_0000);
    hide Decode;
  }

  /** CBZ Xt, or None where the source raises. */
  function EncodeCbz(rt: nat, pc: nat, target: nat): (w: Option<nat>)
    ensures w.Some? ==> w.value < TWO_32
  {
    if !Reaches(pc, target, 0x4_0000) then None
    else Some(0xB400_0000 + Field(target - pc, 0x8_0000) * 0x20 + rt % 32)
  }

  /** B or BL, or None where the source raises. */
  function EncodeB(pc: nat, target: int, link: bool): (w: Option<nat>)
    ensures w.Some? ==> w.value < TWO_32
  {
    if !Reaches(pc, target, 0x200_0000) then None
    else Some((if link then 0x9400_0000 else 0x1400_0000) + Field(target - pc, 0x400_0000))
  }

  /** The callee of a BL, or None for any other word. */
  function BlTarget(word: nat, pc: nat): Option<int> {
    if word / 0x400_0000 != 0x25 then None
    else
      var off := word % 0x400_0000;
      Some(pc + (if off >= 0x200_0000 then off - 0x400_0000 else off) * 4)
  }

  /** Encoding succeeds exactly within reach, and the word branches to the target. */
  lemma CbzDecodes(rt: nat, pc: nat, target: nat)
    requires rt < 32
    ensures EncodeCbz(rt, pc, target).Some? <==> Reaches(pc, target, 0x4_0000)
    ensures EncodeCbz(rt, pc, target).Some? ==> Decode(EncodeCbz(rt, pc, target).value) == Cbz(true, rt, target - pc)
  {
    if Reaches(pc, target, 0x4_0000) {
      var imm := Field(target - pc, 0x8_0000);
      SignedDelta(pc, target, 0x4_0000);
      DeltaParts(EncodeCbz(rt, pc, target).value, 0x5A0, imm, rt);
      hide Decode, Imm19;
    }
  }

  lemma BDecodes(pc: nat, target: int, link: bool)
    ensures EncodeB(pc, target, link).Some? <==> Reaches(pc, target, 0x200_0000)
    ensures EncodeB(pc, target, link).Some? ==>
      Decode(EncodeB(pc, target, link).value) == if link then Bl(target - pc) else B(target - pc)
    ensures EncodeB(pc, target, link).Some? && link ==> BlTarget(EncodeB(pc, target, link).value, pc) == Some(target)
  {
    if Reaches(pc, target, 0x200_0000) {
      var imm := Field(target - pc, 0x400_0000);
      SignedDelta(pc, target, 0x200_0000);
      Parts(EncodeB(pc, target, link).value, (if link then 0x4A0 else 0xA0) + imm / 0x20_0000, imm % 0x20_0000);
      hide Decode;
    }
  }

  /** The other way: a BL word is the encoding of the branch to its target. */
  lemma BlEncodes(word: nat, pc: nat)
    requires word < TWO_32 && BlTarget(word, pc).Some?
    ensures EncodeB(pc, BlTarget(word, pc).value, true) == Some(word)
    ensures Decode(word) == Bl(BlTarget(word, pc).value - pc)
  {
    var target := BlTarget(word, pc).value;
    assert Reaches(pc, target, 0x200_0000) && EncodeB(pc, target, true) == Some(word);
    BDecodes(pc, target, true);
    hide Decode, Form;
  }

  // ---- address loads ----

  function Load64(rd: nat, value: nat): (words: seq<nat>)
    ensures |words| == 4 && forall w <- words :: w < TWO_32
  {
    [Movz64(rd, value % TWO_16, 0), Movk64(rd, value / TWO_16 % TWO_16, 1),
     Movk64(rd, value / TWO_32 % TWO_16, 2), Movk64(rd, value / 0x1_0000_0000_0000 % TWO_16, 3)]
  }

  function Load32(rd: nat, value: nat): (words: seq<nat>)
    ensures |words| == 2 && forall w <- words :: w < TWO_32
  {
    [Movz32(rd, value % TWO_16, 0), Movk32(rd, value / TWO_16 % TWO_16, 1)]
  }

  /** load64 / load_imm64 / load_addr: one MOVZ, then a MOVK for each other half-word. */
  method LoadWords(rd: nat, value: nat) returns (out: seq<nat>)
    ensures out == Load64(rd, value)
  {
    out := [Movz64(rd, value % TWO_16, 0)];
    var hw, rest := 1, value / TWO_16;
    while hw < 4
      invariant 1 <= hw <= 4 && |out| == hw && out == Load64(rd, value)[..hw]
      invariant hw == 1 ==> rest == value / TWO_16
      invariant hw == 2 ==> rest == value / TWO_32
      invariant hw == 3 ==> rest == value / 0x1_0000_0000_0000
    {
      out := out + [Movk64(rd, rest % TWO_16, hw)];
      hw, rest := hw + 1, rest / TWO_16;
    }
  }
}
