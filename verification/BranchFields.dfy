/** The branch distances of a64_to_x64.py against the decoder of the small Arm machine,
    which is written from the encodings alone. */
module BranchFields {
  import opened ArmFields
  import opened IntFacts
  import opened Translator
  import opened ArmMachine

  /** What `sextract` is: the field in two's complement. */
  lemma SextractIs(value: nat, lo: nat, width: nat)
    requires width > 0
    ensures
      var field, d := value / Pow2(lo) % Pow2(width), Sextract(value, lo, width);
      && 0 - Pow2(width - 1) <= d < Pow2(width - 1)
      && (d == field || d == field - Pow2(width))
  {
    var p, v := Pow2(width - 1), value / Pow2(lo);
    assert Pow2(width) == 2 * p;
    assert 0 <= v % (2 * p) < 2 * p;
  }

  lemma Powers()
    ensures Pow2(0) == 1 && Pow2(5) == 0x20 && Pow2(13) == 0x2000 && Pow2(14) == 0x4000
    ensures Pow2(18) == 0x4_0000 && Pow2(19) == 0x8_0000 && Pow2(25) == 0x200_0000 && Pow2(26) == 0x400_0000
  {
    assert Pow2(4) == 0x10 && Pow2(8) == 0x100 && Pow2(12) == 0x1000 && Pow2(16) == 0x1_0000 && Pow2(20) == 0x10_0000
      && Pow2(24) == 0x100_0000;
  }

  lemma Fields(n: nat)
    ensures Sextract(n, 0, 26) == Signed(n % 0x400_0000, 0x200_0000)
    ensures Sextract(n, 5, 19) == Signed(n / 0x20 % 0x8_0000, 0x4_0000)
    ensures Sextract(n, 5, 14) == Signed(n / 0x20 % 0x4000, 0x2000)
  {
    Powers();
    hide Pow2;
  }

  /** B: top six bits 000101. */
  lemma BranchAlways(w: Word, pc: int)
    requires w as nat / 0x400_0000 == 5
    ensures Decode(w as nat) == B(Branch26(w, pc) - pc)
  {
    var n: nat := w as nat;
    Fields(n);
    AlwaysForm(n);
    hide Decode, Sextract;
  }

  lemma AlwaysForm(n: nat)
    requires n / 0x400_0000 == 5
    ensures Decode(n) == B(4 * Signed(n % 0x400_0000, 0x200_0000))
  {
  }

  /** B.NE: top byte 0x54, condition 1. */
  lemma BranchNotEqual(w: Word, pc: int)
    requires w as nat / 0x100_0000 == 0x54 && w as nat % 0x20 == 1
    ensures Decode(w as nat) == Bne(Branch19(w, pc) - pc)
  {
    Fields(w as nat);
    NotEqualForm(w as nat);
    hide Decode, Sextract;
  }

  /** A 19-bit field below a form chosen by the byte above it. */
  lemma Imm19Parts(n: nat, top: nat, low: nat, k: nat)
    requires n == 0x20_0000 * top + low && low < 0x20_0000 && 8 * k <= top < 8 * k + 8
    ensures n % 0x20 == low % 32 && n / 0x20 % 0x8_0000 == 0x1_0000 * (top - 8 * k) + low / 32
  {
    Quotient(n, 0x20, 0x1_0000 * top + low / 32, low % 32);
    Quotient(n / 0x20, 0x8_0000, k, 0x1_0000 * (top - 8 * k) + low / 32);
  }

  lemma NotEqualForm(n: nat)
    requires n / 0x100_0000 == 0x54 && n % 0x20 == 1
    ensures Decode(n) == Bne(4 * Signed(n / 0x20 % 0x8_0000, 0x4_0000))
  {
    var top, low := n / 0x20_0000, n % 0x20_0000;
    Imm19Parts(n, top, low, 0x54);
    NotEqualTop(top, low);
    hide Form;
  }

  lemma NotEqualTop(top: nat, low: nat)
    requires 0x2A0 <= top < 0x2A8 && low % 32 == 1
    ensures Form(top, low) == Bne(4 * Signed(0x1_0000 * (top - 0x2A0) + low / 32, 0x4_0000))
  {
  }

  /** CBZ on a 64-bit register: top byte 0xB4. */
  lemma BranchZero(w: Word, pc: int)
    requires w as nat / 0x100_0000 == 0xB4
    ensures Decode(w as nat) == Cbz(true, w as nat % 0x20, Branch19(w, pc) - pc)
  {
    Fields(w as nat);
    ZeroForm(w as nat);
    hide Decode, Sextract;
  }

  lemma ZeroForm(n: nat)
    requires n / 0x100_0000 == 0xB4
    ensures Decode(n) == Cbz(true, n % 0x20, 4 * Signed(n / 0x20 % 0x8_0000, 0x4_0000))
  {
    var top, low := n / 0x20_0000, n % 0x20_0000;
    Imm19Parts(n, top, low, 0xB4);
    ZeroTop(top, low);
    hide Form;
  }

  lemma ZeroTop(top: nat, low: nat)
    requires 0x5A0 <= top < 0x5A8
    ensures Form(top, low) == Cbz(true, low % 32, 4 * Signed(0x1_0000 * (top - 0x5A0) + low / 32, 0x4_0000))
  {
  }

  /** TBNZ on one of the low 32 bits: top byte 0x37. */
  lemma BranchBit(w: Word, pc: int)
    requires w as nat / 0x100_0000 == 0x37
    ensures Decode(w as nat) == TbnzW(w as nat % 0x20, w as nat / 0x8_0000 % 0x20, Branch14(w, pc) - pc)
  {
    Fields(w as nat);
    BitForm(w as nat);
    hide Decode, Sextract;
  }

  lemma BitParts(n: nat, top: nat, low: nat)
    requires n == 0x20_0000 * top + low && low < 0x20_0000 && 0x1B8 <= top < 0x1C0
    ensures n % 0x20 == low % 32 && n / 0x20 % 0x4000 == low / 32 % 0x4000
    ensures n / 0x8_0000 % 0x20 == 4 * (top - 0x1B8) + low / 0x8_0000
  {
    Quotient(n, 0x20, 0x1_0000 * top + low / 32, low % 32);
    Quotient(n, 0x8_0000, 4 * top + low / 0x8_0000, low % 0x8_0000);
  }

  lemma BitForm(n: nat)
    requires n / 0x100_0000 == 0x37
    ensures Decode(n) == TbnzW(n % 0x20, n / 0x8_0000 % 0x20, 4 * Signed(n / 0x20 % 0x4000, 0x2000))
  {
    var top, low := n / 0x20_0000, n % 0x20_0000;
    BitParts(n, top, low);
    BitTop(top, low);
    hide Form;
  }

  lemma BitTop(top: nat, low: nat)
    requires 0x1B8 <= top < 0x1C0
    ensures Form(top, low) == TbnzW(low % 32, 4 * (top - 0x1B8) + low / 0x8_0000, 4 * Signed(low / 32 % 0x4000, 0x2000))
  {
  }

  /** The tested bit is b5:b40, bits 31 and 23..19. */
  lemma TestedBitIs(w: Word)
    ensures TestedBit(w) == ((w >> 31) as bv8 << 5) + ((w >> 19) & 0x1F) as bv8
  {
  }
}
