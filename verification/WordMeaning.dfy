/** What the data words with an immediate do, in integers: the interpreter the
    translator is held against, itself held against a decoder and a machine
    written from the encodings. */
module WordMeaning {
  import opened Wrappers
  import opened IntFacts
  import opened ArmFields
  import opened WordFields
  import WordSums
  import ArmModel
  import Bitmask
  import Machine = ArmMachine

  // ---- a register as four half-words ----

  function Pair16(lo: bv16, hi: bv16): bv32 { (hi as bv32 << 16) | lo as bv32 }
  function Pair32(lo: bv32, hi: bv32): bv64 { (hi as bv64 << 32) | lo as bv64 }
  function Four(a: bv16, b: bv16, c: bv16, d: bv16): bv64 { Pair32(Pair16(a, b), Pair16(c, d)) }

  lemma Pair16Is(lo: bv16, hi: bv16)
    ensures Number(Pair16(lo, hi)) == 0x1_0000 * hi as nat + lo as nat
  {
  }

  lemma Pair32Is(lo: bv32, hi: bv32)
    ensures Value(Pair32(lo, hi)) == 0x1_0000_0000 * Number(hi) + Number(lo)
  {
  }

  function Quarter(v: bv64, k: nat): bv16
    requires k < 4
  {
    if k == 0 then (v & 0xFFFF) as bv16
    else if k == 1 then ((v >> 16) & 0xFFFF) as bv16
    else if k == 2 then ((v >> 32) & 0xFFFF) as bv16
    else ((v >> 48) & 0xFFFF) as bv16
  }

  lemma Quarters(v: bv64)
    ensures v == Four(Quarter(v, 0), Quarter(v, 1), Quarter(v, 2), Quarter(v, 3))
  {
  }

  function Of(h: bv16): (n: nat) ensures n < 0x1_0000 { h as nat }

  lemma FourIs(a: bv16, b: bv16, c: bv16, d: bv16)
    ensures Value(Four(a, b, c, d)) ==
      Of(a) + 0x1_0000 * Of(b) + 0x1_0000_0000 * Of(c) + 0x1_0000_0000_0000 * Of(d)
  {
    hide Number, Value, Pair16, Pair32;
    Pair16Is(a, b);
    Pair16Is(c, d);
    Pair32Is(Pair16(a, b), Pair16(c, d));
  }

  /** The half-word in its place, and the others kept. */
  function Placed(x: bv64, k: bv8): bv64
    requires k < 64
  {
    x << k
  }

  function Hole(k: bv8): bv64
    requires k < 64
  {
    !(0xFFFF << k)
  }

  function Kept(v: bv64, k: bv8): bv64
    requires k < 64
  {
    And64(v, Hole(k))
  }

  function And64(a: bv64, b: bv64): bv64 { a & b }
  function Ored(a: bv64, b: bv64): bv64 { a | b }

  lemma Set0(h: bv16, z: bv16, k: bv8)
    requires z == 0 && k == 0
    ensures Placed(Pad64(h), k) == Four(h, z, z, z)
  {
  }

  lemma Set1(h: bv16, z: bv16, k: bv8)
    requires z == 0 && k == 16
    ensures Placed(Pad64(h), k) == Four(z, h, z, z)
  {
  }

  lemma Set2(h: bv16, z: bv16, k: bv8)
    requires z == 0 && k == 32
    ensures Placed(Pad64(h), k) == Four(z, z, h, z)
  {
  }

  lemma Set3(h: bv16, z: bv16, k: bv8)
    requires z == 0 && k == 48
    ensures Placed(Pad64(h), k) == Four(z, z, z, h)
  {
  }

  lemma Keep0(a: bv16, b: bv16, c: bv16, d: bv16, z: bv16, k: bv8)
    requires z == 0 && k == 0
    ensures Kept(Four(a, b, c, d), k) == Four(z, b, c, d)
  {
  }

  lemma Keep1(a: bv16, b: bv16, c: bv16, d: bv16, z: bv16, k: bv8)
    requires z == 0 && k == 16
    ensures Kept(Four(a, b, c, d), k) == Four(a, z, c, d)
  {
  }

  lemma Keep2(a: bv16, b: bv16, c: bv16, d: bv16, z: bv16, k: bv8)
    requires z == 0 && k == 32
    ensures Kept(Four(a, b, c, d), k) == Four(a, b, z, d)
  {
  }

  lemma Keep3(a: bv16, b: bv16, c: bv16, d: bv16, z: bv16, k: bv8)
    requires z == 0 && k == 48
    ensures Kept(Four(a, b, c, d), k) == Four(a, b, c, z)
  {
  }

  lemma Or0(h: bv16, b: bv16, c: bv16, d: bv16, z: bv16)
    requires z == 0
    ensures Ored(Four(z, b, c, d), Four(h, z, z, z)) == Four(h, b, c, d)
  {
  }

  lemma Or1(a: bv16, h: bv16, c: bv16, d: bv16, z: bv16)
    requires z == 0
    ensures Ored(Four(a, z, c, d), Four(z, h, z, z)) == Four(a, h, c, d)
  {
  }

  lemma Or2(a: bv16, b: bv16, h: bv16, d: bv16, z: bv16)
    requires z == 0
    ensures Ored(Four(a, b, z, d), Four(z, z, h, z)) == Four(a, b, h, d)
  {
  }

  lemma Or3(a: bv16, b: bv16, c: bv16, h: bv16, z: bv16)
    requires z == 0
    ensures Ored(Four(a, b, c, z), Four(z, z, z, h)) == Four(a, b, c, h)
  {
  }
  // ---- move wide ----

  /** The half-word of a move-wide word, and which of the four it is. */
  function HalfOf(w: Word): bv16 { Low16(w >> 5) }
  function Hw(w: Word): nat { Number(w) / 0x20_0000 % 4 }

  lemma ShiftIs(w: Word)
    ensures Hw(w) == 0 ==> HwShift(w) == 0
    ensures Hw(w) == 1 ==> HwShift(w) == 16
    ensures Hw(w) == 2 ==> HwShift(w) == 32
    ensures Hw(w) == 3 ==> HwShift(w) == 48
  {
    var k := Masked(w >> 21, 3);
    HwCases(w);
    SmallLiterals();
    assert Hw(w) == Number(w) / 0x20_0000 % 4;
    hide *;
    At21(w);
    Is(k, 0, 0); Is(k, 1, 1); Is(k, 2, 2); Is(k, 3, 3);
  }

  lemma SmallLiterals()
    ensures Number(0) == 0 && Number(1) == 1 && Number(2) == 2 && Number(3) == 3
  {
  }

  lemma ShiftSmall(w: Word)
    ensures HwShift(w) < 64
  {
  }

  lemma WidePlaced(w: Word)
    requires HwShift(w) < 64
    ensures WideImm(w) == Placed(Imm16(w), HwShift(w))
  {
    hide Imm16, HwShift;
  }

  lemma HalfOfPads(w: Word)
    ensures Imm16(w) == Pad64(HalfOf(w))
  {
    assert Imm16(w) == Low64(w >> 5) && HalfOf(w) == Low16(w >> 5);
    hide *;
    HalfWord(w >> 5);
  }

  lemma HalfOfIs(w: Word)
    ensures Imm16(w) == Pad64(HalfOf(w)) && Of(HalfOf(w)) == Number(w) / 0x20 % 0x1_0000
    ensures HwShift(w) < 64 && WideImm(w) == Placed(Pad64(HalfOf(w)), HwShift(w))
  {
    assert Of(HalfOf(w)) == HalfOf(w) as nat;
    hide *;
    ShiftSmall(w);
    WidePlaced(w);
    HalfOfPads(w);
    Padded(HalfOf(w));
    Imm16Is(w);
  }

  lemma ZeroIs(z: bv16)
    requires z == 0
    ensures Of(z) == 0
  {
  }

  lemma PlacesOf(n: nat)
    ensures Machine.Shifted16(n, 0) == n && Machine.Shifted16(n, 1) == n * 0x1_0000
    ensures Machine.Shifted16(n, 2) == n * 0x1_0000_0000 && Machine.Shifted16(n, 3) == n * 0x1_0000_0000_0000
  {
  }

  lemma PlacedIs(h: bv16, k: bv8, hw: nat, z: bv16)
    requires z == 0 && hw < 4 && k < 64
    requires (hw == 0 ==> k == 0) && (hw == 1 ==> k == 16) && (hw == 2 ==> k == 32) && (hw == 3 ==> k == 48)
    ensures Value(Placed(Pad64(h), k)) == Machine.Shifted16(Of(h), hw)
  {
    hide *;
    PlacesOf(Of(h));
    ZeroIs(z);
    if hw == 0 {
      Set0(h, z, k); FourIs(h, z, z, z);
    } else if hw == 1 {
      Set1(h, z, k); FourIs(z, h, z, z);
    } else if hw == 2 {
      Set2(h, z, k); FourIs(z, z, h, z);
    } else {
      Set3(h, z, k); FourIs(z, z, z, h);
    }
  }

  /** MOVZ's operand: sixteen bits in one of four places. */
  lemma WideImmIs(w: Word)
    ensures Value(WideImm(w)) == Machine.Shifted16(Number(w) / 0x20 % 0x1_0000, Number(w) / 0x20_0000 % 4)
  {
    var z: bv16 := 0;
    assert Hw(w) == Number(w) / 0x20_0000 % 4 && Hw(w) < 4;
    hide *;
    ShiftIs(w);
    HalfOfIs(w);
    PlacedIs(HalfOf(w), HwShift(w), Hw(w), z);
  }

  /** MOVK's result. */
  function Inserted(v: bv64, w: Word): bv64 { (v & WideKeep(w)) | WideImm(w) }

  lemma HoleIs(w: Word)
    requires HwShift(w) < 64
    ensures WideKeep(w) == Hole(HwShift(w))
  {
    hide HwShift;
  }

  lemma Folded(v: bv64, m: bv64, i: bv64)
    ensures (v & m) | i == Ored(And64(v, m), i)
  {
  }

  lemma InsertedIs(v: bv64, w: Word)
    requires HwShift(w) < 64
    ensures Inserted(v, w) == Ored(Kept(v, HwShift(w)), WideImm(w))
  {
    hide WideImm, WideKeep, Hole, HwShift, And64, Ored;
    HoleIs(w);
    Folded(v, WideKeep(w), WideImm(w));
  }

  lemma InsertDigits(a: nat, b: nat, c: nat, d: nat, h: nat, v: nat)
    requires a < 0x1_0000 && b < 0x1_0000 && c < 0x1_0000 && d < 0x1_0000
    requires v == a + 0x1_0000 * b + 0x1_0000_0000 * c + 0x1_0000_0000_0000 * d
    ensures Machine.Insert16(v, 0, h) == v - a + h
    ensures Machine.Insert16(v, 1, h) == v - 0x1_0000 * b + 0x1_0000 * h
    ensures Machine.Insert16(v, 2, h) == v - 0x1_0000_0000 * c + 0x1_0000_0000 * h
    ensures Machine.Insert16(v, 3, h) == v - 0x1_0000_0000_0000 * d + 0x1_0000_0000_0000 * h
  {
    var x := c + 0x1_0000 * d;
    var y := b + 0x1_0000 * x;
    Quotient(v, 0x1_0000, y, a);
    Quotient(y, 0x1_0000, x, b);
    Quotient(v, 0x1_0000_0000, x, a + 0x1_0000 * b);
    Quotient(x, 0x1_0000, d, c);
    Quotient(v, 0x1_0000_0000_0000, d, a + 0x1_0000 * b + 0x1_0000_0000 * c);
  }

  lemma ReplacedIs(v: bv64, h: bv16, k: bv8, hw: nat, z: bv16)
    requires z == 0 && hw < 4 && k < 64
    requires (hw == 0 ==> k == 0) && (hw == 1 ==> k == 16) && (hw == 2 ==> k == 32) && (hw == 3 ==> k == 48)
    ensures Value(Ored(Kept(v, k), Placed(Pad64(h), k))) == Machine.Insert16(Value(v), hw, Of(h))
  {
    hide *;
    var a, b, c, d := Quarter(v, 0), Quarter(v, 1), Quarter(v, 2), Quarter(v, 3);
    Quarters(v);
    FourIs(a, b, c, d);
    InsertDigits(Of(a), Of(b), Of(c), Of(d), Of(h), Value(v));
    if hw == 0 {
      Set0(h, z, k); Keep0(a, b, c, d, z, k); Or0(h, b, c, d, z); FourIs(h, b, c, d);
    } else if hw == 1 {
      Set1(h, z, k); Keep1(a, b, c, d, z, k); Or1(a, h, c, d, z); FourIs(a, h, c, d);
    } else if hw == 2 {
      Set2(h, z, k); Keep2(a, b, c, d, z, k); Or2(a, b, h, d, z); FourIs(a, b, h, d);
    } else {
      Set3(h, z, k); Keep3(a, b, c, d, z, k); Or3(a, b, c, h, z); FourIs(a, b, c, h);
    }
  }

  lemma InsertedMeans(v: bv64, w: Word)
    ensures Value(Inserted(v, w)) ==
      Machine.Insert16(Value(v), Number(w) / 0x20_0000 % 4, Number(w) / 0x20 % 0x1_0000)
  {
    var z: bv16 := 0;
    assert Hw(w) == Number(w) / 0x20_0000 % 4 && Hw(w) < 4;
    hide *;
    ShiftIs(w);
    HalfOfIs(w);
    InsertedIs(v, w);
    ReplacedIs(v, HalfOf(w), HwShift(w), Hw(w), z);
  }

  // ---- against the small Arm machine ----

  /** The same sixty-four-bit registers on both sides. */
  ghost predicate Same(r: ArmModel.Regs, x: Machine.Regs) {
    forall k :: 0 <= k < 31 ==> x[k] == Value(ArmModel.Get(r, X(k)))
  }

  /** The registers after an instruction that writes one. */
  lemma PutSame(r: ArmModel.Regs, s: Machine.Cpu, rd: XReg, v: bv64)
    requires Same(r, s.x) && rd.n < 32
    ensures Same(ArmModel.Put(r, rd, v), Machine.Put(s, rd.n, Value(v)).x)
  {
  }

  lemma WideForm(n: nat)
    ensures n / 0x80_0000 == 0x1A5 ==>
      Machine.Decode(n) == Machine.Movz(true, n % 0x20, n / 0x20 % 0x1_0000, n / 0x20_0000 % 4)
    ensures n / 0x80_0000 == 0x1E5 ==>
      Machine.Decode(n) == Machine.Movk(true, n % 0x20, n / 0x20 % 0x1_0000, n / 0x20_0000 % 4)
  {
    var top, low := n / 0x20_0000, n % 0x20_0000;
    Quotient(n, 0x80_0000, top / 4, top % 4 * 0x20_0000 + low);
    Quotient(n, 0x20, 0x1_0000 * top + low / 32, low % 32);
  }

  lemma MovzSteps(w: Word, r: ArmModel.Regs)
    requires Is64(w) && ArmModel.IsMovz(w)
    ensures ArmModel.Step(w, r) == Some(ArmModel.Put(r, Rd(w), WideImm(w)))
  {
    hide WideImm, Rd;
  }

  lemma MovkSteps(w: Word, r: ArmModel.Regs)
    requires Is64(w) && ArmModel.IsMovk(w)
    ensures ArmModel.Step(w, r) == Some(ArmModel.Put(r, Rd(w), Inserted(ArmModel.Get(r, Rd(w)), w)))
  {
    FormsApart(w);
    hide WideImm, WideKeep, Rd, ArmModel.IsMovz, ArmModel.IsMovk;
  }

  lemma FormsApart(w: Word)
    ensures ArmModel.IsMovk(w) ==> !ArmModel.IsMovz(w)
  {
  }

  lemma ValueSmall(v: bv64)
    ensures Value(v) < 0x1_0000_0000_0000_0000
  {
  }

  lemma WideTop(w: Word)
    requires Number(w) / 0x80_0000 == 0x1A5 || Number(w) / 0x80_0000 == 0x1E5
    ensures Is64(w) && (ArmModel.IsMovz(w) || ArmModel.IsMovk(w))
    ensures ArmModel.IsMovz(w) <==> Number(w) / 0x80_0000 == 0x1A5
  {
    var n := Number(w);
    hide *;
    OperandFields(w);
    DataForms(w);
    Quotient(n, 0x8000_0000, 1, n % 0x8000_0000);
  }

  lemma MachineMovz(s: Machine.Cpu, rd: nat, imm: nat, hw: nat, env: Machine.Env)
    ensures Machine.Exec(Machine.Movz(true, rd, imm, hw), s, env)
      == Some(Machine.Next(Machine.Put(s, rd, Machine.Shifted16(imm, hw))))
  {
    hide Machine.Put, Machine.Next, Machine.Shifted16;
  }

  lemma MachineMovk(s: Machine.Cpu, rd: nat, imm: nat, hw: nat, env: Machine.Env, v: nat)
    requires v < 0x1_0000_0000_0000_0000 && v == Machine.Insert16(Machine.Get(s, rd), hw, imm)
    ensures Machine.Exec(Machine.Movk(true, rd, imm, hw), s, env) == Some(Machine.Next(Machine.Put(s, rd, v)))
  {
    hide Machine.Put, Machine.Next, Machine.Get;
  }

  lemma GetSame(r: ArmModel.Regs, s: Machine.Cpu, rd: XReg)
    requires Same(r, s.x) && rd.n < 32
    ensures Machine.Get(s, rd.n) == Value(ArmModel.Get(r, rd))
  {
  }

  lemma NextSame(r: ArmModel.Regs, s: Machine.Cpu)
    ensures Same(r, Machine.Next(s).x) <==> Same(r, s.x)
  {
  }

  /** A 64-bit MOVZ or MOVK: the interpreter leaves the registers that the Arm
      machine leaves after the instruction its own decoder reads. */
  lemma WideWordsAgree(w: Word, r: ArmModel.Regs, s: Machine.Cpu, env: Machine.Env)
    requires Number(w) / 0x80_0000 == 0x1A5 || Number(w) / 0x80_0000 == 0x1E5
    requires Same(r, s.x)
    ensures Is64(w) && ArmModel.Step(w, r).Some?
    ensures Machine.Exec(Machine.Decode(Number(w)), s, env).Some?
    ensures Same(ArmModel.Step(w, r).value, Machine.Exec(Machine.Decode(Number(w)), s, env).value.x)
  {
    hide *;
    var rd, v, hw, imm := Rd(w), ArmModel.Get(r, Rd(w)), Number(w) / 0x20_0000 % 4, Number(w) / 0x20 % 0x1_0000;
    WideTop(w);
    WideForm(Number(w));
    RegisterFields(w);
    if ArmModel.IsMovz(w) {
      MovzSteps(w, r);
      WideImmIs(w);
      MachineMovz(s, rd.n, imm, hw, env);
      PutSame(r, s, rd, WideImm(w));
      NextSame(ArmModel.Put(r, rd, WideImm(w)), Machine.Put(s, rd.n, Value(WideImm(w))));
    } else {
      MovkSteps(w, r);
      GetSame(r, s, rd);
      InsertedMeans(v, w);
      ValueSmall(Inserted(v, w));
      MachineMovk(s, rd.n, imm, hw, env, Value(Inserted(v, w)));
      PutSame(r, s, rd, Inserted(v, w));
      NextSame(ArmModel.Put(r, rd, Inserted(v, w)), Machine.Put(s, rd.n, Value(Inserted(v, w))));
    }
  }

  // ---- add, subtract, move-not and the logical immediates ----

  lemma SameValue(a: bv64, b: bv64)
    requires Value(a) == Value(b)
    ensures a == b
  {
    assert a as nat as bv64 == b as nat as bv64;
  }

  lemma SameSmall(a: bv8, b: bv8)
    requires a as nat == b as nat
    ensures a == b
  {
    assert a as nat as bv8 == b as nat as bv8;
  }

  function Sum(a: bv64, b: bv64): bv64 { a + b }
  function Less(a: bv64, b: bv64): bv64 { a - b }
  function Not(a: bv64): bv64 { !a }

  lemma Arithmetic(w: Word, r: ArmModel.Regs)
    requires Is64(w)
    ensures ArmModel.IsAddImm(w) ==>
      ArmModel.Step(w, r) == Some(ArmModel.Put(r, Rd(w), Sum(ArmModel.Get(r, Rn(w)), Imm12(w))))
    ensures ArmModel.IsSubImm(w) ==>
      ArmModel.Step(w, r) == Some(ArmModel.Put(r, Rd(w), Less(ArmModel.Get(r, Rn(w)), Imm12(w))))
    ensures ArmModel.IsMovn(w) ==> ArmModel.Step(w, r) == Some(ArmModel.Put(r, Rd(w), Not(WideImm(w))))
  {
    ArithmeticBits(w);
    hide WideImm, Imm12, Rd, Rn, ArmModel.Get, ArmModel.Put;
    hide ArmModel.IsMovz, ArmModel.IsMovk, ArmModel.IsMovn, ArmModel.IsAddImm, ArmModel.IsSubImm, ArmModel.IsAddsImm;
    hide ArmModel.IsSubsImm;
  }

  lemma ArithmeticBits(w: Word)
    ensures ArmModel.IsAddImm(w) || ArmModel.IsSubImm(w) ==> w & 0x20000000 == 0
    ensures ArmModel.IsAddImm(w) ==> w & 0x40000000 == 0 && !ArmModel.IsSubImm(w)
    ensures ArmModel.IsSubImm(w) ==> w & 0x40000000 != 0
    ensures ArmModel.IsAddImm(w) || ArmModel.IsSubImm(w) || ArmModel.IsMovn(w) ==>
      !ArmModel.IsMovz(w) && !ArmModel.IsMovk(w)
    ensures ArmModel.IsAddImm(w) || ArmModel.IsSubImm(w) ==> !ArmModel.IsMovn(w)
  {
  }

  lemma ImmediateTop(w: Word, c: nat)
    requires Number(w) / 0x80_0000 == 0x100 + c && c < 0x100
    ensures Is64(w)
    ensures c == 0x22 ==> ArmModel.IsAddImm(w)
    ensures c == 0xa2 ==> ArmModel.IsSubImm(w)
    ensures c == 0x25 ==> ArmModel.IsMovn(w)
  {
    var n := Number(w);
    hide *;
    OperandFields(w);
    DataForms(w);
    Quotient(n, 0x8000_0000, 1, n % 0x8000_0000);
  }

  lemma ImmediateFields(w: Word, imm: bv64)
    requires Value(imm) == Number(w) / 0x400 % 0x1000 * (if Number(w) / 0x40_0000 % 2 == 1 then 0x1000 else 1)
    ensures Imm12(w) == imm && Rd(w) == X(Number(w) % 0x20) && Rn(w) == X(Number(w) / 0x20 % 0x20)
  {
    hide *;
    Imm12Is(w);
    SameValue(imm, Imm12(w));
    RegisterFields(w);
    assert Rd(w) == X(Rd(w).n) && Rn(w) == X(Rn(w).n);
  }

  lemma SumWords(w: Word, r: ArmModel.Regs, imm: bv64)
    requires Value(imm) == Number(w) / 0x400 % 0x1000 * (if Number(w) / 0x40_0000 % 2 == 1 then 0x1000 else 1)
    requires Number(w) / 0x80_0000 == 0x122 || Number(w) / 0x80_0000 == 0x1A2
    ensures
      var rd, a := X(Number(w) % 0x20), ArmModel.Get(r, X(Number(w) / 0x20 % 0x20));
      && Is64(w)
      && (Number(w) / 0x80_0000 == 0x122 ==> ArmModel.Step(w, r) == Some(ArmModel.Put(r, rd, Sum(a, imm))))
      && (Number(w) / 0x80_0000 == 0x1A2 ==> ArmModel.Step(w, r) == Some(ArmModel.Put(r, rd, Less(a, imm))))
  {
    hide *;
    ImmediateTop(w, Number(w) / 0x80_0000 - 0x100);
    ImmediateFields(w, imm);
    Arithmetic(w, r);
  }

  lemma SumsAre(a: bv64, b: bv64)
    ensures Value(Sum(a, b)) == (Value(a) + Value(b)) % 0x1_0000_0000_0000_0000
    ensures Value(Less(a, b)) == (Value(a) - Value(b)) % 0x1_0000_0000_0000_0000
  {
    SameSums(a, b);
    hide Value, Sum, Less;
    WordSums.PlusIs(a, b);
    WordSums.MinusIs(a, b);
  }

  lemma SameSums(a: bv64, b: bv64)
    ensures Sum(a, b) == WordSums.Plus(a, b) && Less(a, b) == WordSums.Minus(a, b)
  {
  }

  lemma PutReads(r: ArmModel.Regs, rd: XReg, v: bv64, k: XReg)
    ensures ArmModel.Get(ArmModel.Put(r, rd, v), k) == if k == rd && rd != X(31) then v else ArmModel.Get(r, k)
  {
  }

  /** The add and subtract immediate, and the number of the source register's value. */
  function Immediate(n: nat): nat { n / 0x400 % 0x1000 * (if n / 0x40_0000 % 2 == 1 then 0x1000 else 1) }

  lemma ImmediateFits(w: Word) returns (imm: bv64)
    ensures Value(imm) == Immediate(Number(w))
  {
    imm := Imm12(w);
    hide *;
    Imm12Is(w);
    ImmediateIs(Number(w));
  }

  lemma ImmediateIs(n: nat)
    ensures Immediate(n) == n / 0x400 % 0x1000 * (if n / 0x40_0000 % 2 == 1 then 0x1000 else 1)
  {
  }

  /** 64-bit ADD and SUB of an immediate: bits 4..0 name the destination, 9..5 the
      source, and the operand is bits 21..10, times 4096 when bit 22 is set; the result
      is modulo 2^64, and no other register changes. */
  lemma ImmediateWordsAre(w: Word, r: ArmModel.Regs, k: XReg)
    requires Number(w) / 0x80_0000 == 0x122 || Number(w) / 0x80_0000 == 0x1A2
    ensures
      var n := Number(w);
      var a, imm := Value(ArmModel.Get(r, X(n / 0x20 % 0x20))), Immediate(n);
      && Is64(w) && ArmModel.Step(w, r).Some?
      && Value(ArmModel.Get(ArmModel.Step(w, r).value, k)) ==
         if k != X(n % 0x20) || k == X(31) then Value(ArmModel.Get(r, k))
         else (if n / 0x80_0000 == 0x122 then a + imm else a - imm) % 0x1_0000_0000_0000_0000
  {
    hide *;
    var n := Number(w);
    var rd, a := X(n % 0x20), ArmModel.Get(r, X(n / 0x20 % 0x20));
    var imm := ImmediateFits(w);
    ImmediateIs(n);
    SumWords(w, r, imm);
    SumsAre(a, imm);
    PutReads(r, rd, Sum(a, imm), k);
    PutReads(r, rd, Less(a, imm), k);
  }

  lemma NotIs(v: bv64, ones: bv64)
    requires ones == 0xFFFF_FFFF_FFFF_FFFF
    ensures Not(v) == WordSums.Minus(ones, v) && Value(ones) == 0xFFFF_FFFF_FFFF_FFFF
  {
  }

  lemma NotMeans(v: bv64)
    ensures Value(Not(v)) == 0xFFFF_FFFF_FFFF_FFFF - Value(v)
  {
    var ones: bv64 := 0xFFFF_FFFF_FFFF_FFFF;
    hide Value, Not;
    NotIs(v, ones);
    WordSums.MinusIs(ones, v);
    WordSums.Small(v);
  }

  /** 64-bit MOVN: the complement of the placed half-word, and no other register. */
  lemma NotWordsAre(w: Word, r: ArmModel.Regs, k: XReg)
    requires Number(w) / 0x80_0000 == 0x125
    ensures
      var n := Number(w);
      && Is64(w) && ArmModel.Step(w, r).Some?
      && Value(ArmModel.Get(ArmModel.Step(w, r).value, k)) ==
         if k != X(n % 0x20) || k == X(31) then Value(ArmModel.Get(r, k))
         else 0xFFFF_FFFF_FFFF_FFFF - Machine.Shifted16(n / 0x20 % 0x1_0000, n / 0x20_0000 % 4)
  {
    hide *;
    ImmediateTop(w, 0x25);
    WideImmIs(w);
    RegisterFields(w);
    assert Rd(w) == X(Rd(w).n);
    Arithmetic(w, r);
    NotMeans(WideImm(w));
    PutReads(r, Rd(w), Not(WideImm(w)), k);
  }

  lemma MaskFieldBits(w: Word)
    ensures ((w >> 22) & 1) as bv8 as nat == Number(Masked(w >> 22, 1))
    ensures ((w >> 10) & 0x3F) as bv8 as nat == Number(Masked(w >> 10, 0x3F))
    ensures ((w >> 16) & 0x3F) as bv8 as nat == Number(Masked(w >> 16, 0x3F))
  {
  }

  /** The mask of a logical immediate: N is bit 22, imms 15..10, immr 21..16. */
  lemma ImmMaskIs(w: Word, n: bv8, imms: bv8, immr: bv8)
    requires n as nat == Number(w) / 0x40_0000 % 2
    requires imms as nat == Number(w) / 0x400 % 0x40 && immr as nat == Number(w) / 0x1_0000 % 0x40
    ensures ArmModel.ImmMask(w) == Bitmask.Bitmask(n, imms, immr)
  {
    hide Number, Masked, Bitmask.Bitmask;
    MaskFieldBits(w);
    At10(w); At16(w); At22(w);
    SameSmall(n, ((w >> 22) & 1) as bv8);
    SameSmall(imms, ((w >> 10) & 0x3F) as bv8);
    SameSmall(immr, ((w >> 16) & 0x3F) as bv8);
  }
}
