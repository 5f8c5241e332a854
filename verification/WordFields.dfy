/** The masks and shifts of an instruction word as arithmetic on its number. */
module WordFields {
  import opened IntFacts
  import opened ArmFields
  import opened ArmModel
  import opened X86Lines
  import opened Translator

  function Number(w: Word): nat { w as nat }

  // ---- one bit at a time ----

  lemma Joined(hi: bv31, lo: bv1)
    ensures Number(((hi as bv32) << 1) | (lo as bv32)) == hi as nat * 2 + lo as nat
  {
  }

  lemma Apart(w: Word)
    ensures w == ((((w >> 1) as bv31) as bv32) << 1) | (((w & 1) as bv1) as bv32)
    ensures (w >> 1) as bv31 as nat == Number(w >> 1) && (w & 1) as bv1 as nat == Number(w & 1) < 2
  {
  }

  function Half(w: Word): Word { w >> 1 }
  function Bit0(w: Word): Word { w & 1 }
  function TwiceAndOne(m: Word): Word { 2 * m + 1 }
  function Masked(w: Word, m: Word): Word { w & m }

  lemma LowBit(w: Word)
    ensures Number(w) == 2 * Number(Half(w)) + Number(Bit0(w)) && Number(Bit0(w)) < 2
  {
    hide Number;
    Joined((w >> 1) as bv31, (w & 1) as bv1);
    Apart(w);
  }

  // ---- shifts and masks ----

  function Down(w: Word, k: nat): Word { if k == 0 then w else Down(Half(w), k - 1) }

  function Mask(q: nat): Word { if q == 0 then 0 else TwiceAndOne(Mask(q - 1)) }

  lemma HalfOfHalf(n: nat, p: nat)
    requires p > 0
    ensures n / 2 / p == n / (2 * p) && 2 * (n / 2 % p) + n % 2 == n % (2 * p)
  {
    var a, q, r := n / 2, n / 2 / p, n / 2 % p;
    assert a == p * q + r && n == 2 * a + n % 2;
    assert n == (2 * p) * q + (2 * r + n % 2);
    Quotient(n, 2 * p, q, 2 * r + n % 2);
  }

  lemma {:induction false} DownDivides(w: Word, k: nat)
    ensures Number(Down(w, k)) == Number(w) / Pow2(k)
    decreases k
  {
    hide Number, Half, Bit0;
    if k > 0 {
      LowBit(w);
      DownDivides(Half(w), k - 1);
      HalfOfHalf(Number(w), Pow2(k - 1));
    }
  }

  lemma MaskStep(w: Word, m: Word)
    requires m < 0x8000_0000
    ensures Half(Masked(w, TwiceAndOne(m))) == Masked(Half(w), m) && Bit0(Masked(w, TwiceAndOne(m))) == Bit0(w)
    ensures Half(TwiceAndOne(m)) == m && Bit0(TwiceAndOne(m)) == 1
  {
  }

  lemma NoBits(w: Word)
    ensures Number(Masked(w, 0)) == 0 && Number(0) == 0 && Number(1) == 1
  {
  }

  lemma SmallWord(m: Word)
    requires Number(m) < 0x8000_0000
    ensures m < 0x8000_0000
  {
  }

  lemma {:induction false} Grows(q: nat)
    requires q <= 31
    ensures Pow2(q) <= 0x8000_0000
    decreases 31 - q
  {
    if q < 31 { Grows(q + 1); } else { assert Pow2(7) == 0x80 && Pow2(15) == 0x8000 && Pow2(23) == 0x80_0000; }
  }

  lemma {:induction false} MaskSmall(q: nat)
    requires q < 32
    ensures Number(Mask(q)) < Pow2(q) && Mask(q) < 0x8000_0000
  {
    hide Number, Half, Bit0, TwiceAndOne;
    NoBits(0);
    Grows(q);
    if q > 0 {
      MaskSmall(q - 1);
      MaskStep(0, Mask(q - 1));
      LowBit(Mask(q));
    }
    SmallWord(Mask(q));
  }

  lemma {:induction false} MaskTakes(w: Word, q: nat)
    requires q < 32
    ensures Number(Masked(w, Mask(q))) == Number(w) % Pow2(q)
    decreases q
  {
    hide Number, Masked, Half, Bit0, TwiceAndOne;
    NoBits(w);
    if q > 0 {
      MaskSmall(q - 1);
      MaskStep(w, Mask(q - 1));
      LowBit(w);
      LowBit(Masked(w, Mask(q)));
      MaskTakes(Half(w), q - 1);
      HalfOfHalf(Number(w), Pow2(q - 1));
    }
  }

  /** The q bits from bit k up. */
  function Bits(w: Word, k: nat, q: nat): Word { Masked(Down(w, k), Mask(q)) }

  lemma BitsAre(w: Word, k: nat, q: nat)
    requires q < 32
    ensures Number(Bits(w, k, q)) == Number(w) / Pow2(k) % Pow2(q)
  {
    hide Number, Masked, Down, Mask;
    DownDivides(w, k);
    MaskTakes(Down(w, k), q);
  }

  // ---- the shifts and masks of the tools ----

  lemma {:induction false} DownOn(w: Word, a: nat, b: nat)
    ensures Down(w, a + b) == Down(Down(w, a), b)
    decreases a
  {
    hide Half;
    if a > 0 { DownOn(Half(w), a - 1, b); }
  }

  lemma Halves(w: Word)
    ensures Half(w) == w >> 1
    ensures Half(Half(w)) == w >> 2
    ensures Half(Half(Half(w))) == w >> 3
    ensures Half(Half(Half(Half(w)))) == w >> 4
    ensures Half(Half(Half(Half(Half(w))))) == w >> 5
  {
  }

  lemma DownOne(w: Word, k: nat)
    requires k > 0
    ensures Down(w, k) == Down(Half(w), k - 1) && Down(w, 0) == w
  {
    hide Half;
  }

  lemma DownFive(w: Word)
    ensures Down(w, 1) == Half(w) && Down(w, 2) == Half(Half(w)) && Down(w, 3) == Half(Half(Half(w)))
    ensures Down(w, 4) == Half(Half(Half(Half(w)))) && Down(w, 5) == Half(Half(Half(Half(Half(w)))))
  {
    hide Half, Down;
    var a, b, c, d := Half(w), Half(Half(w)), Half(Half(Half(w))), Half(Half(Half(Half(w))));
    DownOne(d, 1);
    DownOne(c, 1); DownOne(c, 2);
    DownOne(b, 1); DownOne(b, 2); DownOne(b, 3);
    DownOne(a, 1); DownOne(a, 2); DownOne(a, 3); DownOne(a, 4);
    DownOne(w, 1); DownOne(w, 2); DownOne(w, 3); DownOne(w, 4); DownOne(w, 5);
    DownOne(Half(d), 1);
  }

  lemma UpToFive(w: Word)
    ensures Down(w, 1) == w >> 1 && Down(w, 2) == w >> 2 && Down(w, 3) == w >> 3 && Down(w, 4) == w >> 4
    ensures Down(w, 5) == w >> 5
  {
    hide *;
    DownFive(w);
    Halves(w);
  }

  /** A further step of up to five. */
  lemma More(w: Word, a: nat, v: Word)
    requires Down(w, a) == v
    ensures Down(w, a + 1) == v >> 1 && Down(w, a + 2) == v >> 2 && Down(w, a + 3) == v >> 3
    ensures Down(w, a + 4) == v >> 4 && Down(w, a + 5) == v >> 5
  {
    hide *;
    UpToFive(v);
    DownOn(w, a, 1); DownOn(w, a, 2); DownOn(w, a, 3); DownOn(w, a, 4); DownOn(w, a, 5);
  }

  lemma Down10(w: Word)
    ensures Down(w, 10) == w >> 10
  {
    hide *;
    UpToFive(w);
    More(w, 5, w >> 5);
  }

  lemma Down13(w: Word)
    ensures Down(w, 13) == w >> 13
  {
    hide *;
    Down10(w);
    More(w, 10, w >> 10);
  }

  lemma Down15(w: Word)
    ensures Down(w, 15) == w >> 15
  {
    hide *;
    Down10(w);
    More(w, 10, w >> 10);
  }

  lemma Down16(w: Word)
    ensures Down(w, 16) == w >> 16
  {
    hide *;
    Down15(w);
    More(w, 15, w >> 15);
  }

  lemma Down19(w: Word)
    ensures Down(w, 19) == w >> 19
  {
    hide *;
    Down15(w);
    More(w, 15, w >> 15);
  }

  lemma Down20(w: Word)
    ensures Down(w, 20) == w >> 20
  {
    hide *;
    Down15(w);
    More(w, 15, w >> 15);
  }

  lemma Down21(w: Word)
    ensures Down(w, 21) == w >> 21
  {
    hide *;
    Down20(w);
    More(w, 20, w >> 20);
  }

  lemma Down22(w: Word)
    ensures Down(w, 22) == w >> 22
  {
    hide *;
    Down20(w);
    More(w, 20, w >> 20);
  }

  lemma Down23(w: Word)
    ensures Down(w, 23) == w >> 23
  {
    hide *;
    Down20(w);
    More(w, 20, w >> 20);
  }

  lemma Down24(w: Word)
    ensures Down(w, 24) == w >> 24
  {
    hide *;
    Down20(w);
    More(w, 20, w >> 20);
  }

  lemma Down25(w: Word)
    ensures Down(w, 25) == w >> 25
  {
    hide *;
    Down20(w);
    More(w, 20, w >> 20);
  }

  lemma Down26(w: Word)
    ensures Down(w, 26) == w >> 26
  {
    hide *;
    Down25(w);
    More(w, 25, w >> 25);
  }

  lemma Down29(w: Word)
    ensures Down(w, 29) == w >> 29
  {
    hide *;
    Down25(w);
    More(w, 25, w >> 25);
  }

  lemma Down30(w: Word)
    ensures Down(w, 30) == w >> 30
  {
    hide *;
    Down25(w);
    More(w, 25, w >> 25);
  }

  lemma Down31(w: Word)
    ensures Down(w, 31) == w >> 31
  {
    hide *;
    Down30(w);
    More(w, 30, w >> 30);
  }

  lemma Masks()
    ensures Mask(1) == 1 && Mask(2) == 3 && Mask(3) == 7 && Mask(4) == 0xF && Mask(5) == 0x1F && Mask(6) == 0x3F
      && Mask(7) == 0x7F
    ensures Mask(8) == 0xFF && Mask(12) == 0xFFF && Mask(16) == 0xFFFF
  {
    assert Mask(3) == 7;
    assert Mask(9) == 0x1FF && Mask(10) == 0x3FF && Mask(11) == 0x7FF;
    assert Mask(13) == 0x1FFF && Mask(14) == 0x3FFF && Mask(15) == 0x7FFF;
  }

  lemma Powers()
    ensures Pow2(0) == 1 && Pow2(1) == 2 && Pow2(2) == 4 && Pow2(3) == 8 && Pow2(13) == 0x2000 && Pow2(4) == 0x10
      && Pow2(5) == 0x20 && Pow2(6) == 0x40
    ensures Pow2(7) == 0x80 && Pow2(8) == 0x100 && Pow2(10) == 0x400 && Pow2(12) == 0x1000 && Pow2(16) == 0x1_0000
    ensures Pow2(19) == 0x8_0000 && Pow2(21) == 0x20_0000 && Pow2(22) == 0x40_0000 && Pow2(23) == 0x80_0000
    ensures Pow2(24) == 0x100_0000 && Pow2(26) == 0x400_0000 && Pow2(29) == 0x2000_0000 && Pow2(31) == 0x8000_0000
  {
    assert Pow2(14) == 0x4000 && Pow2(18) == 0x4_0000 && Pow2(25) == 0x200_0000 && Pow2(27) == 0x800_0000;
  }

  /** Shifting down by k and keeping q bits is dividing and taking the remainder. */
  lemma Takes(w: Word, k: nat, v: Word, q: nat, m: Word)
    requires Down(w, k) == v && Mask(q) == m && q < 32
    ensures Number(Masked(v, m)) == Number(w) / Pow2(k) % Pow2(q)
  {
    hide *;
    DownDivides(w, k);
    MaskTakes(v, q);
  }

  lemma At0(w: Word)
    ensures Number(Masked(w, 0x1f)) == Number(w) % 0x20
    ensures Number(Masked(w, 0xf)) == Number(w) % 0x10
  {
    hide *;
    DownOne(w, 1); Masks(); Powers();
    Takes(w, 0, w, 5, 0x1f);
    Takes(w, 0, w, 4, 0xf);
  }

  lemma At4(w: Word)
    ensures Number(Masked(w >> 4, 1)) == Number(w) / 0x10 % 2
  {
    hide *;
    UpToFive(w); Masks(); Powers();
    Takes(w, 4, w >> 4, 1, 1);
  }

  lemma At5(w: Word)
    ensures Number(Masked(w >> 5, 0x1f)) == Number(w) / 0x20 % 0x20
    ensures Number(Masked(w >> 5, 0xffff)) == Number(w) / 0x20 % 0x10000
  {
    hide *;
    UpToFive(w); Masks(); Powers();
    Takes(w, 5, w >> 5, 5, 0x1f);
    Takes(w, 5, w >> 5, 16, 0xffff);
  }

  lemma At10(w: Word)
    ensures Number(Masked(w >> 10, 0x3f)) == Number(w) / 0x400 % 0x40
    ensures Number(Masked(w >> 10, 0xfff)) == Number(w) / 0x400 % 0x1000
  {
    hide *;
    Down10(w); Masks(); Powers();
    Takes(w, 10, w >> 10, 6, 0x3f);
    Takes(w, 10, w >> 10, 12, 0xfff);
  }

  lemma At13(w: Word)
    ensures Number(Masked(w >> 13, 7)) == Number(w) / 0x2000 % 8
    ensures Number(Masked(w >> 10, 7)) == Number(w) / 0x400 % 8
    ensures Number(Masked(w >> 21, 1)) == Number(w) / 0x20_0000 % 2
  {
    hide *;
    Down13(w); Down10(w); Down21(w); Masks(); Powers();
    Takes(w, 13, w >> 13, 3, 7);
    Takes(w, 10, w >> 10, 3, 7);
    Takes(w, 21, w >> 21, 1, 1);
  }

  lemma At16(w: Word)
    ensures Number(Masked(w >> 16, 0x1f)) == Number(w) / 0x10000 % 0x20
    ensures Number(Masked(w >> 16, 0x3f)) == Number(w) / 0x10000 % 0x40
  {
    hide *;
    Down16(w); Masks(); Powers();
    Takes(w, 16, w >> 16, 5, 0x1f);
    Takes(w, 16, w >> 16, 6, 0x3f);
  }

  lemma At19(w: Word)
    ensures Number(Masked(w >> 19, 0x1f)) == Number(w) / 0x80000 % 0x20
  {
    hide *;
    Down19(w); Masks(); Powers();
    Takes(w, 19, w >> 19, 5, 0x1f);
  }

  lemma At21(w: Word)
    ensures Number(Masked(w >> 21, 3)) == Number(w) / 0x200000 % 4
  {
    hide *;
    Down21(w); Masks(); Powers();
    Takes(w, 21, w >> 21, 2, 3);
  }

  lemma At22(w: Word)
    ensures Number(Masked(w >> 22, 1)) == Number(w) / 0x400000 % 2
    ensures Number(Masked(w >> 22, 3)) == Number(w) / 0x400000 % 4
  {
    hide *;
    Down22(w); Masks(); Powers();
    Takes(w, 22, w >> 22, 1, 1);
    Takes(w, 22, w >> 22, 2, 3);
  }

  lemma At23(w: Word)
    ensures Number(Masked(w >> 23, 0xff)) == Number(w) / 0x800000 % 0x100
    ensures Number(Masked(w >> 23, 0x3f)) == Number(w) / 0x800000 % 0x40
  {
    hide *;
    Down23(w); Masks(); Powers();
    Takes(w, 23, w >> 23, 8, 0xff);
    Takes(w, 23, w >> 23, 6, 0x3f);
  }

  lemma At24(w: Word)
    ensures Number(Masked(w >> 24, 0xff)) == Number(w) / 0x1000000 % 0x100
    ensures Number(Masked(w >> 24, 0x7f)) == Number(w) / 0x1000000 % 0x80
    ensures Number(Masked(w >> 24, 0x1f)) == Number(w) / 0x1000000 % 0x20
    ensures Number(Masked(w >> 24, 1)) == Number(w) / 0x1000000 % 2
  {
    hide *;
    Down24(w); Masks(); Powers();
    Takes(w, 24, w >> 24, 8, 0xff);
    Takes(w, 24, w >> 24, 7, 0x7f);
    Takes(w, 24, w >> 24, 5, 0x1f);
    Takes(w, 24, w >> 24, 1, 1);
  }

  lemma At26(w: Word)
    ensures Number(Masked(w >> 26, 0x3f)) == Number(w) / 0x4000000 % 0x40
  {
    hide *;
    Down26(w); Masks(); Powers();
    Takes(w, 26, w >> 26, 6, 0x3f);
  }

  lemma At29(w: Word)
    ensures Number(Masked(w >> 29, 3)) == Number(w) / 0x20000000 % 4
  {
    hide *;
    Down29(w); Masks(); Powers();
    Takes(w, 29, w >> 29, 2, 3);
  }

  lemma At31(w: Word)
    ensures Number(Masked(w >> 31, 1)) == Number(w) / 0x80000000 % 2
  {
    hide *;
    Down31(w); Masks(); Powers();
    Takes(w, 31, w >> 31, 1, 1);
  }

  // ---- the fields ----

  lemma FiveBits(v: Word)
    ensures (v & 0x1F) as bv5 as nat == Number(Masked(v, 0x1F))
  {
  }

  /** The register fields: bits 4..0, 9..5 and 20..16. */
  lemma RegisterFields(w: Word)
    ensures Rd(w).n == Number(w) % 0x20 && Rn(w).n == Number(w) / 0x20 % 0x20 && Rm(w).n == Number(w) / 0x1_0000 % 0x20
  {
    FiveBits(w); FiveBits(w >> 5); FiveBits(w >> 16);
    hide Number, Masked;
    At0(w); At5(w); At16(w);
  }

  lemma SmallFields(w: Word)
    ensures Imm6(w) as nat == Number(Masked(w >> 10, 0x3F)) && Opc(w) as nat == Number(Masked(w >> 29, 3))
    ensures ShiftKind(w) as nat == Number(Masked(w >> 22, 3)) && (Is64(w) <==> Number(Masked(w >> 31, 1)) == 1)
  {
  }

  /** The shift amount in bits 15..10, its kind in 23..22, opc in 30..29, sf in 31. */
  lemma OperandFields(w: Word)
    ensures Imm6(w) as nat == Number(w) / 0x400 % 0x40 && ShiftKind(w) as nat == Number(w) / 0x40_0000 % 4
    ensures Opc(w) as nat == Number(w) / 0x2000_0000 % 4 && (Is64(w) <==> Number(w) / 0x8000_0000 % 2 == 1)
  {
    SmallFields(w);
    hide *;
    At10(w); At22(w); At29(w); At31(w);
  }

  lemma Is(u: Word, c: Word, n: nat)
    requires Number(c) == n
    ensures u == c <==> Number(u) == n
  {
    if Number(u) == n { assert u as nat as bv32 == c as nat as bv32; }
  }

  lemma FormBits(w: Word)
    ensures IsMovz(w) <==> Masked(w >> 23, 0xFF) == 0xa5
    ensures IsMovk(w) <==> Masked(w >> 23, 0xFF) == 0xe5
    ensures IsMovn(w) <==> Masked(w >> 23, 0xFF) == 0x25
    ensures IsAddImm(w) <==> Masked(w >> 23, 0xFF) == 0x22
    ensures IsSubImm(w) <==> Masked(w >> 23, 0xFF) == 0xa2
    ensures IsAddsImm(w) <==> Masked(w >> 23, 0xFF) == 0x62
    ensures IsSubsImm(w) <==> Masked(w >> 23, 0xFF) == 0xe2
    ensures IsLogicalImm(w) <==> Masked(w >> 23, 0x3F) == 0x24
    ensures IsAddSubReg(w) <==> Masked(w >> 24, 0x1F) == 0x0B
    ensures IsLogicalReg(w) <==> Masked(w >> 24, 0x1F) == 0x0A
  {
  }

  /** Bits 30..23, 28..23 or 28..24 choose the form of a data word. */
  lemma DataForms(w: Word)
    ensures IsMovz(w) <==> Number(w) / 0x80_0000 % 0x100 == 0xa5
    ensures IsMovk(w) <==> Number(w) / 0x80_0000 % 0x100 == 0xe5
    ensures IsMovn(w) <==> Number(w) / 0x80_0000 % 0x100 == 0x25
    ensures IsAddImm(w) <==> Number(w) / 0x80_0000 % 0x100 == 0x22
    ensures IsSubImm(w) <==> Number(w) / 0x80_0000 % 0x100 == 0xa2
    ensures IsAddsImm(w) <==> Number(w) / 0x80_0000 % 0x100 == 0x62
    ensures IsSubsImm(w) <==> Number(w) / 0x80_0000 % 0x100 == 0xe2
    ensures IsLogicalImm(w) <==> Number(w) / 0x80_0000 % 0x40 == 0x24
    ensures IsAddSubReg(w) <==> Number(w) / 0x100_0000 % 0x20 == 0x0B
    ensures IsLogicalReg(w) <==> Number(w) / 0x100_0000 % 0x20 == 0x0A
  {
    FormBits(w);
    Literals();
    hide *;
    At23(w); At24(w);
    var a, b, c := Masked(w >> 23, 0xFF), Masked(w >> 23, 0x3F), Masked(w >> 24, 0x1F);
    Is(a, 0xa5, 0xa5);
    Is(a, 0xe5, 0xe5);
    Is(a, 0x25, 0x25);
    Is(a, 0x22, 0x22);
    Is(a, 0xa2, 0xa2);
    Is(a, 0x62, 0x62);
    Is(a, 0xe2, 0xe2);
    Is(b, 0x24, 0x24);
    Is(c, 0x0B, 0x0B);
    Is(c, 0x0A, 0x0A);
  }

  lemma Literals()
    ensures Number(0xa5) == 0xa5 && Number(0xe5) == 0xe5 && Number(0x25) == 0x25 && Number(0x22) == 0x22
    ensures Number(0xa2) == 0xa2 && Number(0x62) == 0x62 && Number(0xe2) == 0xe2
    ensures Number(0x24) == 0x24 && Number(0x0B) == 0x0B && Number(0x0A) == 0x0A
    ensures Number(0x54) == 0x54 && Number(0x34) == 0x34 && Number(0x35) == 0x35 && Number(0x36) == 0x36
    ensures Number(0x37) == 0x37 && Number(5) == 5 && Number(1) == 1 && Number(0) == 0
  {
  }

  lemma BranchBits(w: Word)
    ensures IsB(w) <==> Masked(w >> 26, 0x3F) == 5
    ensures IsCbz(w) <==> Masked(w >> 24, 0x7F) == 0x34 || Masked(w >> 24, 0x7F) == 0x35
    ensures IsTbz(w) <==> Masked(w >> 24, 0x7F) == 0x36 || Masked(w >> 24, 0x7F) == 0x37
    ensures BranchIfSet(w) <==> Masked(w >> 24, 1) == 1
  {
  }

  lemma CondBits(w: Word)
    ensures IsBcond(w) <==> Masked(w >> 24, 0xFF) == 0x54 && Masked(w >> 4, 1) == 0
  {
  }

  lemma FourBits(w: Word)
    ensures CondField(w) as nat == Number(Masked(w, 0xF))
  {
  }

  /** The top bits choose a branch; bit 24 is its sense and bits 3..0 a condition. */
  lemma BranchForms(w: Word)
    ensures IsB(w) <==> Number(w) / 0x400_0000 % 0x40 == 5
    ensures IsBcond(w) <==> Number(w) / 0x100_0000 % 0x100 == 0x54 && Number(w) / 0x10 % 2 == 0
    ensures IsCbz(w) <==> Number(w) / 0x100_0000 % 0x80 == 0x34 || Number(w) / 0x100_0000 % 0x80 == 0x35
    ensures IsTbz(w) <==> Number(w) / 0x100_0000 % 0x80 == 0x36 || Number(w) / 0x100_0000 % 0x80 == 0x37
    ensures BranchIfSet(w) <==> Number(w) / 0x100_0000 % 2 == 1
    ensures CondField(w) as nat == Number(w) % 0x10
  {
    BranchBits(w); CondBits(w); FourBits(w);
    Literals();
    hide *;
    At0(w); At4(w); At24(w); At26(w);
    Is(Masked(w >> 26, 0x3F), 5, 5);
    Is(Masked(w >> 24, 0xFF), 0x54, 0x54); Is(Masked(w >> 4, 1), 0, 0); Is(Masked(w >> 24, 1), 1, 1);
    var a := Masked(w >> 24, 0x7F);
    Is(a, 0x34, 0x34); Is(a, 0x35, 0x35); Is(a, 0x36, 0x36); Is(a, 0x37, 0x37);
  }

  // ---- immediates ----

  function Value(v: bv64): nat { v as nat }

  lemma TwelveBits(w: Word)
    ensures Value(((w >> 10) & 0xFFF) as bv64) == Number(Masked(w >> 10, 0xFFF))
    ensures Value((((w >> 10) & 0xFFF) as bv64) << 12) == 0x1000 * Number(Masked(w >> 10, 0xFFF))
  {
  }

  lemma Imm12Unfolds(w: Word)
    ensures Masked(w >> 22, 1) == 1 ==> Imm12(w) == (((w >> 10) & 0xFFF) as bv64) << 12
    ensures Masked(w >> 22, 1) != 1 ==> Imm12(w) == ((w >> 10) & 0xFFF) as bv64
  {
  }

  /** The add and subtract immediate: bits 21..10, times 4096 when bit 22 is set. */
  lemma Imm12Is(w: Word)
    ensures Value(Imm12(w)) == Number(w) / 0x400 % 0x1000 * (if Number(w) / 0x40_0000 % 2 == 1 then 0x1000 else 1)
  {
    Imm12Unfolds(w);
    TwelveBits(w);
    Literals();
    hide *;
    At10(w); At22(w);
    Is(Masked(w >> 22, 1), 1, 1);
  }

  function Low16(u: Word): bv16 { (u & 0xFFFF) as bv16 }
  function Low64(u: Word): bv64 { (u & 0xFFFF) as bv64 }
  function Pad32(h: bv16): bv32 { h as bv32 }
  function Pad64(h: bv16): bv64 { h as bv64 }

  lemma Padded(h: bv16)
    ensures Value(Pad64(h)) == h as nat && Number(Pad32(h)) == h as nat
  {
  }

  lemma HalfWord(u: Word)
    ensures Pad32(Low16(u)) == Masked(u, 0xFFFF) && Pad64(Low16(u)) == Low64(u)
  {
  }

  lemma SixteenBits(u: Word)
    ensures Value(Low64(u)) == Number(Masked(u, 0xFFFF))
  {
    hide *;
    Padded(Low16(u));
    HalfWord(u);
  }

  /** The move-wide half-word: bits 20..5. */
  lemma Imm16Is(w: Word)
    ensures Value(Imm16(w)) == Number(w) / 0x20 % 0x1_0000
  {
    assert Imm16(w) == Low64(w >> 5);
    hide *;
    SixteenBits(w >> 5);
    At5(w);
  }

  lemma HwCases(w: Word)
    ensures Masked(w >> 21, 3) == 0 ==> HwShift(w) == 0
    ensures Masked(w >> 21, 3) == 1 ==> HwShift(w) == 16
    ensures Masked(w >> 21, 3) == 2 ==> HwShift(w) == 32
    ensures Masked(w >> 21, 3) == 3 ==> HwShift(w) == 48
  {
  }

  /** A register in half-words. */
  function Halves4(a: bv16, b: bv16, c: bv16, d: bv16): bv64 {
    (d as bv64 << 48) | (c as bv64 << 32) | (b as bv64 << 16) | a as bv64
  }

  lemma Joined16(lo: bv16, hi: bv16)
    ensures ((hi as bv32 << 16) | lo as bv32) as nat == 0x1_0000 * hi as nat + lo as nat
  {
  }

  lemma Joined32(lo: bv32, hi: bv32)
    ensures Value((hi as bv64 << 32) | lo as bv64) == 0x1_0000_0000 * hi as nat + lo as nat
  {
  }
}
