/** What the Arm architecture (Arm ARM DDI 0487, section C6.2) makes of the data
    words, and for which of them the repository's interpreter says the same. */
module Architecture {
  import opened Wrappers
  import opened ArmFields
  import opened ArmModel
  import opened X86Lines
  import opened Translator
  import opened Simulation
  import opened BitFacts
  import WordFields

  /** Bit 21: of a logical register word, the operand is inverted (BIC, ORN, EON,
      BICS); of an add or subtract, it is extended from a narrower width. */
  predicate Bit21(w: Word) { w & 0x00200000 != 0 }

  function ExtendKind(w: Word): bv3 { ((w >> 13) & 7) as bv3 }
  function Imm3(w: Word): bv8 { ((w >> 10) & 7) as bv8 }

  /** ExtendReg before its shift: UXTB, UXTH, UXTW, UXTX, SXTB, SXTH, SXTW, SXTX. */
  function Extended(option: bv3, b: bv64): bv64 {
    if option == 0 then b & 0xFF else if option == 1 then b & 0xFFFF else if option == 2 then b & 0xFFFF_FFFF
    else if option == 4 then Sar64(b << 56, 56) else if option == 5 then Sar64(b << 48, 48)
    else if option == 6 then Sar64(b << 32, 32) else b
  }

  /** ShiftReg: LSL, LSR, ASR, ROR. */
  function ShiftReg(kind: bv2, k: bv8, b: bv64): bv64
    requires k < 64
  {
    if kind == 0 then b << k else if kind == 1 then b >> k
    else if kind == 2 then Sar64(b, k) else (b >> k) | (b << (64 - k))
  }

  function Operand2(w: Word, b: bv64): bv64 {
    if !Bit21(w) then ShiftReg(ShiftKind(w), Imm6(w), b)
    else if IsLogicalReg(w) then !ShiftReg(ShiftKind(w), Imm6(w), b)
    else Extended(ExtendKind(w), b) << Imm3(w)
  }

  /** Adds and subtracts have no rotated operand, and an extended one moves up by at
      most four. */
  predicate Allocated(w: Word) {
    IsLogicalReg(w) || (if Bit21(w) then ShiftKind(w) == 0 && Imm3(w) <= 4 else ShiftKind(w) != 3)
  }

  /** Register 31 as the destination of these is the stack pointer. */
  predicate WritesSp(w: Word) {
    Rd(w) == X31 && (IsAddImm(w) || IsSubImm(w) || (IsLogicalImm(w) && Opc(w) != 3)
                     || (IsAddSubReg(w) && Bit21(w) && Opc(w) & 1 == 0))
  }

  /** One data word on the general registers; None where it is unallocated or writes
      the stack pointer. Other than register words are as the interpreter has them. */
  function ArchStep(w: Word, r: Regs): Option<Regs>
    requires Is64(w)
  {
    if WritesSp(w) then None
    else if !RegForm(w) then Step(w, r)
    else if !Allocated(w) then None
    else Some(Put(r, Rd(w), Combine(w, Get(r, Rn(w)), Operand2(w, Get(r, Rm(w))))))
  }

  /** Words whose bits the interpreter reads as the architecture does. */
  predicate ReadAsWritten(w: Word) { !WritesSp(w) && (RegForm(w) ==> !Bit21(w) && Allocated(w)) }

  lemma FieldBits(w: Word)
    ensures Bit21(w) <==> WordFields.Number(WordFields.Masked(w >> 21, 1)) == 1
    ensures ExtendKind(w) as nat == WordFields.Number(WordFields.Masked(w >> 13, 7))
    ensures Imm3(w) as nat == WordFields.Number(WordFields.Masked(w >> 10, 7))
  {
  }

  /** Bit 21, the extension in bits 15..13 and its shift in 12..10. */
  lemma ExtendFields(w: Word)
    ensures
      var n := WordFields.Number(w);
      && (Bit21(w) <==> n / 0x20_0000 % 2 == 1) && ExtendKind(w) as nat == n / 0x2000 % 8
      && Imm3(w) as nat == n / 0x400 % 8
  {
    hide *;
    FieldBits(w);
    WordFields.At13(w);
  }

  // ---- bit 21 ----

  function Cleared(w: Word): Word { w & 0xFFDFFFFF }

  /** Two register words alike in every field the tools look at. */
  predicate SameFields(w: Word, v: Word) {
    && Rd(v) == Rd(w) && Rn(v) == Rn(w) && Rm(v) == Rm(w) && Opc(v) == Opc(w)
    && ShiftKind(v) == ShiftKind(w) && Imm6(v) == Imm6(w) && (Is64(v) <==> Is64(w))
    && (IsAddSubReg(v) <==> IsAddSubReg(w)) && (IsLogicalReg(v) <==> IsLogicalReg(w))
  }

  lemma ClearedFields(w: Word)
    ensures SameFields(w, Cleared(w)) && !Bit21(Cleared(w))
  {
  }

  lemma RegisterCodeOf(w: Word)
    requires DataForm(w) && RegForm(w)
    ensures DataCode(w) == RegisterForm(w)
  {
    FormsDisjoint(w);
    hide RegisterForm, ImmediateOp, ImmMask, Rd, Rn, Rm, Opc, Is64, WideImm, WideKeep, Imm12;
    hide IsMovz, IsMovk, IsMovn, IsAddImm, IsSubImm, IsSubsImm, IsLogicalImm, IsAddSubReg, IsLogicalReg;
  }

  lemma SameCode(w: Word, v: Word)
    requires SameFields(w, v) && RegForm(w)
    ensures RegisterForm(w) == RegisterForm(v)
  {
    hide Rd, Rn, Rm, Opc, ShiftKind, Imm6, Is64, IsAddSubReg, IsLogicalReg, Loc, Move, LogicalOp, AddSubOp, ShiftName;
  }

  lemma RegisterStepOf(w: Word, r: Regs)
    requires DataForm(w) && RegForm(w)
    ensures Step(w, r) == Some(Put(r, Rd(w), Combine(w, Get(r, Rn(w)), Shifted(ShiftKind(w), Imm6(w), Get(r, Rm(w))))))
  {
    StepPuts(w, r);
    if Rd(w) != X31 { StepRegister(w, r); }
    hide Rd, Rn, Rm, Combine, Shifted, ShiftKind, Imm6, Step, DataForm, RegForm;
  }

  lemma SameStep(w: Word, v: Word, a: bv64, b: bv64)
    requires SameFields(w, v)
    ensures Combine(w, a, Shifted(ShiftKind(w), Imm6(w), b)) == Combine(v, a, Shifted(ShiftKind(v), Imm6(v), b))
  {
    hide Rd, Rn, Rm, Opc, ShiftKind, Imm6, Is64, IsAddSubReg, IsLogicalReg, Shifted, Logical, AddSub;
  }

  lemma SameDataForm(w: Word, v: Word)
    requires SameFields(w, v) && DataForm(w) && RegForm(w)
    ensures DataForm(v) && RegForm(v)
  {
    hide IsMovz, IsMovk, IsMovn, IsAddImm, IsSubImm, IsSubsImm, IsLogicalImm, IsAddSubReg, IsLogicalReg, ImmMask, Is64;
    hide Rd, Rn, Rm, Opc, ShiftKind, Imm6;
  }

  /** Neither translator nor interpreter looks at bit 21 of a register word. */
  lemma Bit21IsInvisible(w: Word, pc: int, r: Regs)
    requires DataForm(w) && RegForm(w)
    ensures DataForm(Cleared(w)) && !Bit21(Cleared(w))
    ensures Translate(Cleared(w), pc) == Translate(w, pc) && Step(Cleared(w), r) == Step(w, r)
  {
    var v := Cleared(w);
    ClearedFields(w);
    SameDataForm(w, v);
    RegisterCodeOf(w); RegisterCodeOf(v);
    TranslatesData(w, pc); TranslatesData(v, pc);
    SameCode(w, v);
    RegisterStepOf(w, r); RegisterStepOf(v, r);
    SameStep(w, v, Get(r, Rn(w)), Get(r, Rm(w)));
    assert Rd(v) == Rd(w) && Rn(v) == Rn(w) && Rm(v) == Rm(w);
    hide *;
  }

  // ---- where the interpreter is right ----

  /** Where the interpreter's logical right shift does for an arithmetic one. */
  predicate NoArithmetic(w: Word) {
    ShiftKind(w) != 2 || Imm6(w) == 0 || (OrrForm(w) && Rm(w) == Rn(w) && Imm6(w) == 1)
  }

  lemma ShiftRegIs(kind: bv2, k: bv8, b: bv64)
    requires k < 64
    ensures ShiftReg(kind, k, b) == ShiftValue(ShiftName(kind), b, k)
  {
    ShiftValues(kind, k, b);
    hide ShiftValue, ShiftName, Sar64;
  }

  lemma RightlyRead(w: Word, r: Regs)
    requires DataForm(w) && RegForm(w) && !Bit21(w) && Allocated(w) && NoArithmetic(w)
    ensures ArchStep(w, r) == Step(w, r)
  {
    var kind, k, a, b := ShiftKind(w), Imm6(w), Get(r, Rn(w)), Get(r, Rm(w));
    RegisterStepOf(w, r);
    NoSpWrite(w);
    ShiftRegIs(kind, k, b);
    if kind != 2 || k == 0 {
      SoundShift(kind, k, b);
    } else {
      OrrAsrOne(b, k);
      OrrCombine(w, a, ShiftValue(Sar, b, k)); OrrCombine(w, a, ShiftValue(Shr, b, k));
      AsrAgainstLsr(k, b);
    }
    hide Rd, Rn, Rm, Combine, Shifted, ShiftValue, ShiftReg, ShiftName, ShiftKind, Imm6, Step, DataForm, Is64, WritesSp,
      Bit21, Allocated, Logical;
    hide IsAddSubReg, IsLogicalReg, Opc;
  }

  lemma NoSpWrite(w: Word)
    requires DataForm(w) && RegForm(w) && !Bit21(w)
    ensures !WritesSp(w)
  {
    FormsDisjoint(w);
    StepForms(w);
    hide IsMovz, IsMovk, IsMovn, IsAddImm, IsSubImm, IsAddsImm, IsSubsImm, IsLogicalImm, IsAddSubReg, IsLogicalReg, Rd,
      Opc, ImmMask, Bit21;
  }

  lemma DiffersByValue(w: Word, r: Regs)
    requires DataForm(w) && RegForm(w) && Allocated(w) && Rd(w) != X31
    requires
      var a, b := Get(r, Rn(w)), Get(r, Rm(w));
      Combine(w, a, Operand2(w, b)) != Combine(w, a, Shifted(ShiftKind(w), Imm6(w), b))
    ensures ArchStep(w, r) != Step(w, r)
  {
    RegisterStepOf(w, r);
    var a, b := Get(r, Rn(w)), Get(r, Rm(w));
    var x, y := Combine(w, a, Operand2(w, b)), Combine(w, a, Shifted(ShiftKind(w), Imm6(w), b));
    assert ArchStep(w, r) == Some(Put(r, Rd(w), x)) && Step(w, r) == Some(Put(r, Rd(w), y));
    PutThenGet(r, Rd(w), x, Rd(w));
    PutThenGet(r, Rd(w), y, Rd(w));
    hide *;
  }

  /** Reading back two registers that were given the same value. */
  lemma PutThenGet(r: Regs, n: XReg, v: bv64, m: XReg)
    requires n != X31
    ensures Get(Put(r, n, v), m) == if m == n then v else Get(r, m)
  {
  }

  lemma BothRead(p: XReg, q: XReg, v: bv64)
    requires q != X31
    ensures Get(RegsWith(p, v, q, v), q) == v && (p != X31 ==> Get(RegsWith(p, v, q, v), p) == v)
  {
    PutThenGet(Put(map[], p, v), q, v, q);
    if p != X31 {
      PutThenGet(map[], p, v, p);
      PutThenGet(Put(map[], p, v), q, v, p);
    }
    hide Get, Put;
  }

  lemma PositiveShift(kind: bv2, k: bv8, n: bv64)
    requires k < 64 && n >> 63 != 1
    ensures ShiftReg(kind, k, n) == Shifted(kind, k, n)
  {
    hide *;
    ShiftRegIs(kind, k, n);
    if kind != 2 || k == 0 {
      SoundShift(kind, k, n);
    } else {
      AsrAgainstLsr(k, n);
      PositiveSar(k, n);
    }
  }

  lemma PositiveSar(k: bv8, n: bv64)
    requires k < 64 && n >> 63 != 1
    ensures ShiftValue(Sar, n, k) == ShiftValue(Shr, n, k)
  {
  }

  /** A first operand on which an inverted second one shows. */
  function Telling(w: Word): bv64 { if Opc(w) == 0 || Opc(w) == 3 then 1 else 0 }

  lemma InvertedApart(w: Word, s: bv64)
    requires IsLogicalReg(w)
    ensures Combine(w, Telling(w), !s) != Combine(w, Telling(w), s)
    ensures Telling(w) >> 63 != 1 && (OrrForm(w) ==> Telling(w) == 0)
  {
  }

  /** BIC, ORN, EON, BICS: somewhere not AND, ORR, EOR, ANDS. */
  lemma InvertedIsMisread(w: Word) returns (r: Regs)
    requires DataForm(w) && IsLogicalReg(w) && Bit21(w) && Rd(w) != X31 && Rm(w) != X31 && (Rn(w) != X31 || OrrForm(w))
    ensures ArchStep(w, r) != Step(w, r)
  {
    var n := Telling(w);
    r := RegsWith(Rn(w), n, Rm(w), n);
    BothRead(Rn(w), Rm(w), n);
    InvertedApart(w, ShiftReg(ShiftKind(w), Imm6(w), n));
    PositiveShift(ShiftKind(w), Imm6(w), n);
    hide Telling, ShiftReg, Shifted, Combine, OrrForm, Bit21, IsLogicalReg, IsAddSubReg, DataForm, Is64, Rd, Rn, Rm,
      RegsWith;
    hide ShiftKind, Imm6, Step, ArchStep;
    DiffersByValue(w, r);
  }

  /** A value an extension changes, other than a plain shift would. */
  function Wide(kind: bv3): bv64 { if kind == 0 then 0x100 else 1 }

  lemma ExtendedApart(kind: bv3, k3: bv8, k6: bv8)
    requires k3 <= 4 && k6 == ((kind as bv8) << 3) + k3
    ensures k6 < 64 && Extended(kind, Wide(kind)) << k3 != Wide(kind) << k6
  {
  }

  lemma ShiftFields(w: Word)
    ensures Imm6(w) == ((ExtendKind(w) as bv8) << 3) + Imm3(w)
  {
  }

  lemma SumsApart(op: AluOp, a: bv64, x: bv64, y: bv64)
    requires x != y && (a == 1 || a == 0x100) && (op == Add || op == Sub)
    ensures AluValue(op, a, x) != AluValue(op, a, y)
  {
    hide *;
    if op == Add { AddsApart(a, x, y); } else { SubsApart(a, x, y); }
  }

  lemma AddsApart(a: bv64, x: bv64, y: bv64)
    requires x != y && (a == 1 || a == 0x100)
    ensures AluValue(Add, a, x) != AluValue(Add, a, y)
  {
    hide *;
    AluAdd(a, x); AluAdd(a, y);
    var s, t := AluValue(Add, a, x), AluValue(Add, a, y);
    if a == 1 { AddDiffersOne(x, y, s, t); } else { AddDiffers256(x, y, s, t); }
  }

  lemma SubsApart(a: bv64, x: bv64, y: bv64)
    requires x != y && (a == 1 || a == 0x100)
    ensures AluValue(Sub, a, x) != AluValue(Sub, a, y)
  {
    hide *;
    AluSub(a, x); AluSub(a, y);
    var s, t := AluValue(Sub, a, x), AluValue(Sub, a, y);
    if a == 1 { SubDiffersOne(x, y, s, t); } else { SubDiffers256(x, y, s, t); }
  }

  lemma AddsOrSubtracts(w: Word)
    requires IsAddSubReg(w)
    ensures RegOp(w) == Add || RegOp(w) == Sub
  {
    NotLogical(w);
    hide Opc, IsAddSubReg, IsLogicalReg;
  }

  lemma SumApart(w: Word, a: bv64, x: bv64, y: bv64)
    requires IsAddSubReg(w) && x != y && (a == 1 || a == 0x100)
    ensures Combine(w, a, x) != Combine(w, a, y)
  {
    hide *;
    AddsOrSubtracts(w);
    OpMatches(w, a, x); OpMatches(w, a, y);
    SumsApart(RegOp(w), a, x, y);
  }

  /** An extended operand: somewhere not the shifted one. */
  lemma ExtendedIsMisread(w: Word) returns (r: Regs)
    requires DataForm(w) && IsAddSubReg(w) && Bit21(w) && Allocated(w) && Rd(w) != X31 && Rm(w) != X31 && Rn(w) != X31
    ensures ArchStep(w, r) != Step(w, r)
  {
    var v := Wide(ExtendKind(w));
    r := RegsWith(Rn(w), v, Rm(w), v);
    BothRead(Rn(w), Rm(w), v);
    ExtendedApartOn(w, v);
    assert v == 1 || v == 0x100;
    hide Wide, ExtendKind, Combine, Operand2, Shifted, ShiftKind, Imm6, Imm3, DataForm, Is64, Rd, Rn, Rm, RegsWith,
      ArchStep, Step, Bit21;
    hide IsAddSubReg, IsLogicalReg, Allocated;
    SumApart(w, Get(r, Rn(w)), Operand2(w, v), Shifted(ShiftKind(w), Imm6(w), v));
    DiffersByValue(w, r);
  }

  lemma ExtendedApartOn(w: Word, v: bv64)
    requires IsAddSubReg(w) && Bit21(w) && Allocated(w) && v == Wide(ExtendKind(w))
    ensures Operand2(w, v) != Shifted(ShiftKind(w), Imm6(w), v)
  {
    ShiftFields(w);
    NotLogical(w);
    ExtendedApart(ExtendKind(w), Imm3(w), Imm6(w));
    ShiftedValues(ShiftKind(w), Imm6(w), v);
    if Imm6(w) == 0 { ShiftByZero(v, Imm6(w)); }
    hide Wide, ExtendKind, Extended, Shifted, ShiftKind, Imm6, Imm3, Bit21, IsAddSubReg, IsLogicalReg;
  }

  lemma NotLogical(w: Word)
    requires IsAddSubReg(w)
    ensures !IsLogicalReg(w)
  {
  }

  /** An arithmetic shift whose sign bits show. */
  lemma ArithmeticIsMisread(w: Word) returns (r: Regs)
    requires Covered(w) && RegForm(w) && !Bit21(w) && Allocated(w) && Rd(w) != X31 && !NoArithmetic(w)
    ensures ArchStep(w, r) != Step(w, r)
  {
    var k, b: bv64 := Imm6(w), TOP;
    var a: bv64 := if Rn(w) == Rm(w) then TOP else Neutral(w);
    r := RegsWith(Rn(w), a, Rm(w), b);
    WitnessReads(Rn(w), a, Rm(w), b);
    ShiftRegIs(ShiftKind(w), k, b);
    AsrAgainstLsr(k, b);
    if Rn(w) == Rm(w) {
      SarIsNotShr(w, b, k);
    } else {
      SarTopApart(b, k);
      NeutralCombine(w, ShiftValue(Sar, b, k), ShiftValue(Shr, b, k));
    }
    MovAliasUnshifted(w);
    DiffersByValue(w, r);
  }

  /** Main result on the interpreter: on an allocated register word that writes a
      register it is the architecture's for all register values if and only if bit 21
      is clear and no arithmetic shift can show. */
  lemma InterpreterIsExact(w: Word)
    requires Covered(w) && RegForm(w) && Allocated(w) && Rd(w) != X31
    ensures (forall r: Regs :: ArchStep(w, r) == Step(w, r)) <==> !Bit21(w) && NoArithmetic(w)
  {
    hide *;
    CoveredRegister(w);
    if Bit21(w) {
      if IsLogicalReg(w) { var r := InvertedIsMisread(w); } else { var r := ExtendedIsMisread(w); }
    } else if NoArithmetic(w) {
      forall r: Regs ensures ArchStep(w, r) == Step(w, r) { RightlyRead(w, r); }
    } else {
      var r := ArithmeticIsMisread(w);
    }
  }

  lemma CoveredRegister(w: Word)
    requires Covered(w) && RegForm(w)
    ensures DataForm(w) && Is64(w) && (IsAddSubReg(w) || IsLogicalReg(w)) && Rm(w) != X31
      && (Rn(w) != X31 || (IsLogicalReg(w) && OrrForm(w)))
    ensures IsAddSubReg(w) ==> !IsLogicalReg(w)
  {
    StepForms(w);
    hide Rd, Rn, Rm, IsAddSubReg, IsLogicalReg, IsShifted, Opc, ImmMask;
  }

  /** A sound word whose bits are read as written does what the architecture says. */
  lemma SoundIsRightlyRead(w: Word, r: Regs)
    requires Covered(w) && Sound(w) && ReadAsWritten(w)
    ensures ArchStep(w, r) == Step(w, r)
  {
    if RegForm(w) {
      CoveredRegister(w);
      if Rd(w) == X31 {
        RegisterStepOf(w, r);
      } else {
        SoundShifts(w);
        RightlyRead(w, r);
      }
    }
    hide Combine, Operand2, Shifted, Step, Sound, Is64, DataForm, Covered, Rd, Rn, Rm, RegForm, WritesSp, Allocated,
      NoArithmetic;
  }

  lemma SoundShifts(w: Word)
    requires Covered(w) && RegForm(w) && Sound(w) && Rd(w) != X31
    ensures NoArithmetic(w)
  {
    FormsDisjoint(w);
    hide Rd, Rn, Rm, IsAddSubReg, IsLogicalReg, Opc, ImmMask, Is64, ReadsRegister31, IsSubsImm, Clobbers;
    hide IsMovz, IsMovk, IsMovn, IsAddImm, IsSubImm, IsLogicalImm;
  }

  lemma PlainOperand(w: Word, b: bv64)
    requires !Bit21(w) && !IsShifted(w)
    ensures Operand2(w, b) == b
  {
    ShiftByZero(b, Imm6(w));
    hide Bit21, ShiftKind, Imm6;
  }
}
