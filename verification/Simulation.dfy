/** Translated data-processing code against the oracle: for every covered word
    it is right exactly when the word is Sound, and sound programs of any
    length stay in step. */
module Simulation {
  import opened Wrappers
  import opened ArmFields
  import opened ArmModel
  import opened X86Lines
  import opened Translator
  import opened BitFacts

  /** Every arm64 register but 31 has its value at its host location. */
  ghost predicate Related(h: Host, r: Regs) {
    forall n: XReg :: n != X31 ==> Read(h, Loc(n)) == Get(r, n)
  }

  /** h' differs from h only at the location of register n, in the scratch
      register and in the flags. */
  ghost predicate OnlyTouches(h: Host, h': Host, n: XReg) {
    && (forall x: HReg :: x != RBP && Opnd.Reg(x) != Loc(n) ==> GetReg(h', x) == GetReg(h, x))
    && (forall a: Offset :: (Loc(n).Slot? ==> a != Loc(n).off) ==> GetMem(h', a) == GetMem(h, a))
  }

  /** 64-bit words of the modelled integer forms. */
  predicate DataForm(w: Word) {
    && Is64(w)
    && (IsMovz(w) || IsMovk(w) || IsMovn(w) || IsAddImm(w) || IsSubImm(w) || IsSubsImm(w)
        || (IsLogicalImm(w) && ImmMask(w).Some?) || IsAddSubReg(w) || IsLogicalReg(w))
  }

  predicate MovAlias(w: Word) { IsLogicalReg(w) && !IsShifted(w) && Opc(w) == 1 && Rn(w) == X31 }
  predicate RegForm(w: Word) { IsAddSubReg(w) || IsLogicalReg(w) }
  predicate ImmForm(w: Word) { IsAddImm(w) || IsSubImm(w) || IsSubsImm(w) || IsLogicalImm(w) }

  /** Register 31 is an operand. The translator leaves its two meanings to the
      caller, so such words are outside the comparison. */
  predicate ReadsRegister31(w: Word) {
    || (ImmForm(w) && Rn(w) == X31)
    || (RegForm(w) && (Rm(w) == X31 || (Rn(w) == X31 && !MovAlias(w))))
  }

  predicate Covered(w: Word) { DataForm(w) && !ReadsRegister31(w) }

  predicate Spilled(n: XReg) { n.n >= 13 }

  predicate OrrForm(w: Word) { IsLogicalReg(w) && Opc(w) == 1 }

  /** Copying Rn into Rd goes through the scratch register that already holds
      the shifted operand. */
  predicate Clobbers(w: Word) { Rd(w) != Rn(w) && Spilled(Rd(w)) && Spilled(Rn(w)) }

  /** The overlap conditions under which the emitted lines are right. */
  predicate Sound(w: Word) {
    if Rd(w) == X31 || MovAlias(w) then true
    else if IsSubsImm(w) then Rd(w) == Rn(w) && Imm12(w) == 0
    else if RegForm(w) && !IsShifted(w) then Rd(w) == Rn(w) || Rd(w) != Rm(w)
    else if RegForm(w) then
      && (ShiftKind(w) != 2 || Imm6(w) == 0 || (OrrForm(w) && Rm(w) == Rn(w) && Imm6(w) == 1))
      && (!Clobbers(w) || (Imm6(w) == 0 && Rm(w) == Rn(w)))
    else true
  }

  /** The emitted lines run through and leave the registers `Step` gives. */
  ghost predicate Agrees(w: Word, pc: int, h: Host, r: Regs)
    requires DataForm(w)
  {
    && Translate(w, pc).Code?
    && var o := Run(Translate(w, pc).lines, h);
    o.Fall? && Step(w, r).Some? && Related(o.h, Step(w, r).value) && OnlyTouches(h, o.h, Rd(w))
  }

  // ---- locations ----

  lemma LocInjective(m: XReg, n: XReg)
    ensures Loc(m) == Loc(n) ==> m == n
    ensures Loc(m).Slot? <==> Spilled(m)
    ensures !Loc(m).Imm? && Loc(m) != Opnd.Reg(RBP) && Loc(m) != Opnd.Reg(RSP) && Loc(m) != Opnd.Reg(R15)
  {
  }

  /** Thirteen registers by name, the rest in the register file at eight bytes each. */
  lemma LocTable(n: XReg)
    ensures n.n < 13 ==>
      Loc(n) == Opnd.Reg([RAX, RBX, RCX, RDX, RSI, RDI, R8, R9, R10, R11, R12, R13, R14][n.n])
    ensures n.n >= 13 ==> Loc(n) == Slot(8 * n.n)
  {
  }

  lemma ReadAfterWrite(h: Host, m: XReg, n: XReg, v: bv64)
    ensures Read(Write(h, Loc(n), v), Loc(m)) == if m == n then v else Read(h, Loc(m))
  {
    LocInjective(m, n); LocInjective(n, m);
  }

  // ---- what one write does to the guest ----

  /** Scratch and flags are not part of the guest. */
  ghost predicate SameGuest(h: Host, h': Host) {
    && (forall x: HReg :: x != RBP ==> GetReg(h', x) == GetReg(h, x))
    && h'.mem == h.mem
  }

  /** From h to h' the guest changes in register n only, which becomes v. */
  ghost predicate Updates(h: Host, h': Host, n: XReg, v: bv64) {
    && (forall m: XReg :: Read(h', Loc(m)) == if m == n then v else Read(h, Loc(m)))
    && OnlyTouches(h, h', n)
  }

  lemma SameGuestReads(h: Host, h': Host, m: XReg)
    requires SameGuest(h, h')
    ensures Read(h', Loc(m)) == Read(h, Loc(m))
  {
    LocInjective(m, m);
  }

  lemma SameGuestUpdates(h: Host, h': Host, n: XReg)
    requires SameGuest(h, h')
    ensures Updates(h, h', n, Read(h, Loc(n)))
  {
    forall m: XReg ensures Read(h', Loc(m)) == Read(h, Loc(m)) { SameGuestReads(h, h', m); }
  }

  lemma FlagsAreApart(h: Host, f: Flags, o: Opnd)
    ensures Read(h.(flags := f), o) == Read(h, o)
  {
  }

  lemma WriteTouches(h: Host, n: XReg, v: bv64, f: Flags)
    ensures OnlyTouches(h, Write(h, Loc(n), v).(flags := f), n)
  {
    LocInjective(n, n);
    hide Loc;
  }

  lemma WriteUpdates(h: Host, n: XReg, v: bv64, f: Flags)
    ensures Updates(h, Write(h, Loc(n), v).(flags := f), n, v)
  {
    hide Loc, Read, Write, OnlyTouches;
    var h' := Write(h, Loc(n), v);
    WriteTouches(h, n, v, f);
    forall m: XReg ensures Read(h'.(flags := f), Loc(m)) == if m == n then v else Read(h, Loc(m)) {
      FlagsAreApart(h', f, Loc(m));
      ReadAfterWrite(h, m, n, v);
    }
  }

  lemma UpdatesTwice(h: Host, h1: Host, h2: Host, n: XReg, v1: bv64, v2: bv64)
    requires Updates(h, h1, n, v1) && Updates(h1, h2, n, v2)
    ensures Updates(h, h2, n, v2)
  {
    hide Loc;
  }

  lemma UpdatesRelated(h: Host, h': Host, r: Regs, n: XReg, v: bv64)
    requires Related(h, r) && Updates(h, h', n, v)
    ensures Related(h', Put(r, n, v))
  {
    hide Loc;
  }

  // ---- single lines and moves ----

  lemma RunOne(l: Line, h: Host)
    ensures Run([l], h) == Exec(l, h)
  {
  }

  lemma RunCons(l: Line, rest: seq<Line>, h: Host)
    requires Exec(l, h).Fall?
    ensures Run([l] + rest, h) == Run(rest, Exec(l, h).h)
  {
    RunAppend([l], rest, h);
    RunOne(l, h);
  }

  /** Staging a value in the scratch register leaves the guest alone. */
  lemma Stage(h: Host, src: Opnd)
    ensures var o := Exec(Mov(SCRATCH, src), h);
      o.Fall? && SameGuest(h, o.h) && Read(o.h, SCRATCH) == Read(h, src)
  {
  }

  lemma AluLine(h: Host, op: AluOp, n: XReg, src: Opnd)
    requires !(Loc(n).Slot? && src.Slot?)
    ensures var o := Exec(Alu(op, Loc(n), src), h);
      o.Fall? && Updates(h, o.h, n, AluValue(op, Read(h, Loc(n)), Read(h, src)))
  {
    LocInjective(n, n);
    hide Loc;
    WriteUpdates(h, n, AluValue(op, Read(h, Loc(n)), Read(h, src)), UNKNOWN);
  }

  lemma MovLine(h: Host, n: XReg, src: Opnd)
    requires !(Loc(n).Slot? && src.Slot?)
    ensures var o := Exec(Mov(Loc(n), src), h);
      o.Fall? && Updates(h, o.h, n, Read(h, src)) && Read(o.h, SCRATCH) == Read(h, SCRATCH)
  {
    LocInjective(n, n);
    hide Loc;
    WriteUpdates(h, n, Read(h, src), h.flags);
  }

  /** `move` copies, at the price of the scratch register when both ends are spilled. */
  lemma MoveRuns(h: Host, n: XReg, m: XReg)
    ensures var o := Run(Move(Loc(n), Loc(m)), h);
      && o.Fall? && Updates(h, o.h, n, Read(h, Loc(m)))
      && Read(o.h, SCRATCH) == if n != m && Spilled(n) && Spilled(m) then Read(h, Loc(m)) else Read(h, SCRATCH)
  {
    LocInjective(n, m); LocInjective(m, n);
    hide Loc;
    if n == m {
      SameGuestUpdates(h, h, n);
    } else if Loc(n).Slot? && Loc(m).Slot? {
      Stage(h, Loc(m));
      var h1 := Exec(Mov(SCRATCH, Loc(m)), h).h;
      MovLine(h1, n, SCRATCH);
      RunCons(Mov(SCRATCH, Loc(m)), [Mov(Loc(n), SCRATCH)], h);
      RunOne(Mov(Loc(n), SCRATCH), h1);
      SameGuestUpdates(h, h1, n);
      UpdatesTwice(h, h1, Exec(Mov(Loc(n), SCRATCH), h1).h, n, Read(h, Loc(n)), Read(h, Loc(m)));
    } else {
      MovLine(h, n, Loc(m));
      RunOne(Mov(Loc(n), Loc(m)), h);
    }
  }

  // ---- decoding: which branch of `translate` a data word reaches ----

  /** No data word meets a test for system instructions or branches: bits
      28..25 tell them apart. */
  lemma DataClass(w: Word)
    requires DataForm(w)
    ensures DataBits(w)
  {
    hide ImmMask;
  }

  predicate DataBits(w: Word) {
    w & 0x1E000000 == 0x10000000 || w & 0x1E000000 == 0x12000000 || w & 0x1E000000 == 0x0A000000
  }

  lemma NotSystem(w: Word)
    requires DataBits(w)
    ensures !SystemForm(w)
  {
  }

  lemma NotBranch(w: Word)
    requires DataBits(w)
    ensures !IsB(w) && !CallForm(w) && !IsBcond(w) && !IsCbz(w) && !IsTbz(w)
  {
  }

  lemma FormsDisjoint(w: Word)
    requires DataForm(w)
    ensures IsMovn(w) || IsLogicalImm(w) ==>
      && !IsAddImm(w) && !IsSubImm(w) && !IsSubsImm(w) && !IsMovz(w) && !IsMovk(w)
      && !AdrForm(w) && !IsAddSubReg(w) && !IsLogicalReg(w) && !MemoryForm(w)
    ensures IsLogicalImm(w) ==> !IsMovn(w) && !LateForm(w)
    ensures IsMovz(w) || IsMovk(w) ==> !IsAddImm(w) && !IsSubImm(w) && !IsSubsImm(w)
    ensures IsMovk(w) ==> !IsMovz(w)
    ensures RegForm(w) ==>
      && !IsAddImm(w) && !IsSubImm(w) && !IsSubsImm(w) && !IsMovz(w) && !IsMovk(w) && !AdrForm(w)
    ensures IsSubImm(w) || IsSubsImm(w) ==> !IsAddImm(w)
    ensures IsSubsImm(w) ==> !IsSubImm(w)
  {
    hide ImmMask;
  }

  /** The code of a data word, by form. */
  function DataCode(w: Word): seq<Line> {
    if IsAddImm(w) then ImmediateOp(Add, Rd(w), Rn(w), Imm12(w))
    else if IsSubImm(w) then ImmediateOp(Sub, Rd(w), Rn(w), Imm12(w))
    else if IsSubsImm(w) then [Cmp(Loc(Rn(w)), Imm(((w >> 10) & 0xFFF) as bv64))]
    else if IsMovz(w) then [Mov(Loc(Rd(w)), Imm(WideImm(w)))]
    else if IsMovk(w) then
      [Alu(And, Loc(Rd(w)), Imm(WideKeep(w))), Alu(Or, Loc(Rd(w)), Imm(WideImm(w)))]
    else if IsMovn(w) then
      var val := !WideImm(w);
      if Loc(Rd(w)).Slot? then [Mov(SCRATCH, Imm(val)), Mov(Loc(Rd(w)), SCRATCH)] else [Mov(Loc(Rd(w)), Imm(val))]
    else if RegForm(w) then RegisterForm(w)
    else if ImmMask(w) == None then []
    else if Rd(w) == X31 && Opc(w) == 3 then [Test(Loc(Rn(w)), Imm(ImmMask(w).value))]
    else ImmediateOp(LogicalOp(Opc(w)), Rd(w), Rn(w), ImmMask(w).value)
  }

  lemma TranslatesData(w: Word, pc: int)
    requires DataForm(w)
    ensures Translate(w, pc) == Code(DataCode(w))
  {
    DataClass(w); NotSystem(w); NotBranch(w);
    FormsDisjoint(w);
    hide DataBits, SystemForm, IsB, CallForm, IsBcond, IsCbz, IsTbz, MemoryForm, LateForm, AdrForm;
    hide IsAddImm, IsSubImm, IsSubsImm, IsMovz, IsMovk, IsMovn, IsAddSubReg, IsLogicalReg, IsLogicalImm;
    hide ImmediateOp, RegisterForm, Loc, Sextract, Imm12, WideImm, WideKeep, ImmMask;
  }

  // ---- what the emitted lines compute ----

  function RegOp(w: Word): AluOp { if IsLogicalReg(w) then LogicalOp(Opc(w)) else AddSubOp(Opc(w)) }
  predicate FlagsOnly(w: Word) { Rd(w) == X31 && Opc(w) & 1 != 0 }

  /** The value the lines of a data word leave in its destination, clobbering
      included, as a function of what they read. */
  function Emitted(w: Word, h: Host): bv64 {
    var d, a, b := Read(h, Loc(Rd(w))), Read(h, Loc(Rn(w))), Read(h, Loc(Rm(w)));
    if IsAddImm(w) then AluValue(Add, a, Imm12(w))
    else if IsSubImm(w) then AluValue(Sub, a, Imm12(w))
    else if IsSubsImm(w) then d
    else if IsMovz(w) then WideImm(w)
    else if IsMovk(w) then AluValue(Or, AluValue(And, d, WideKeep(w)), WideImm(w))
    else if IsMovn(w) then !WideImm(w)
    else if RegForm(w) then
      if IsShifted(w) then
        AluValue(RegOp(w), a, if Clobbers(w) then a else ShiftValue(ShiftName(ShiftKind(w)), b, Imm6(w)))
      else if MovAlias(w) then b
      else if FlagsOnly(w) then d
      else AluValue(RegOp(w), a, if Rd(w) != Rn(w) && Rd(w) == Rm(w) then a else b)
    else if ImmMask(w) == None || (Rd(w) == X31 && Opc(w) == 3) then d
    else AluValue(LogicalOp(Opc(w)), a, ImmMask(w).value)
  }

  ghost predicate RunsTo(lines: seq<Line>, h: Host, n: XReg, v: bv64) {
    Run(lines, h).Fall? && Updates(h, Run(lines, h).h, n, v)
  }

  lemma CopyRuns(h: Host, rd: XReg, rn: XReg)
    ensures var copy := if rd == rn then [] else Move(Loc(rd), Loc(rn));
      && RunsTo(copy, h, rd, Read(h, Loc(rn)))
      && Read(Run(copy, h).h, SCRATCH) ==
        if rd != rn && Spilled(rd) && Spilled(rn) then Read(h, Loc(rn)) else Read(h, SCRATCH)
  {
    MoveRuns(h, rd, rn);
    hide Loc, Move;
    if rd == rn { SameGuestUpdates(h, h, rd); }
  }

  /** Copy Rn into Rd, then operate on Rd with a register or constant that the
      copy did not disturb, or with the scratch register as it then stands. */
  lemma CopyThenAlu(h: Host, op: AluOp, rd: XReg, rn: XReg, src: Opnd)
    requires !(Loc(rd).Slot? && src.Slot?)
    ensures var copy := if rd == rn then [] else Move(Loc(rd), Loc(rn));
      && Run(copy, h).Fall?
      && RunsTo(copy + [Alu(op, Loc(rd), src)], h, rd, AluValue(op, Read(h, Loc(rn)), Read(Run(copy, h).h, src)))
  {
    hide Loc, Move;
    var copy := if rd == rn then [] else Move(Loc(rd), Loc(rn));
    CopyRuns(h, rd, rn);
    var h1 := Run(copy, h).h;
    RunAppend(copy, [Alu(op, Loc(rd), src)], h);
    RunOne(Alu(op, Loc(rd), src), h1);
    AluLine(h1, op, rd, src);
    UpdatesTwice(h, h1, Exec(Alu(op, Loc(rd), src), h1).h, rd, Read(h, Loc(rn)),
      AluValue(op, Read(h1, Loc(rd)), Read(h1, src)));
  }

  lemma ImmediateRuns(h: Host, op: AluOp, rd: XReg, rn: XReg, imm: bv64)
    ensures RunsTo(ImmediateOp(op, rd, rn, imm), h, rd, AluValue(op, Read(h, Loc(rn)), imm))
  {
    hide Loc, Move;
    CopyThenAlu(h, op, rd, rn, Imm(imm));
  }

  /** A staged first line followed by code that runs from there. */
  lemma StageThen(h: Host, src: Opnd, rest: seq<Line>, n: XReg, v: bv64)
    requires RunsTo(rest, Exec(Mov(SCRATCH, src), h).h, n, v)
    ensures RunsTo([Mov(SCRATCH, src)] + rest, h, n, v)
  {
    hide Loc;
    Stage(h, src);
    RunCons(Mov(SCRATCH, src), rest, h);
    SameGuestUpdates(h, Exec(Mov(SCRATCH, src), h).h, n);
    UpdatesTwice(h, Exec(Mov(SCRATCH, src), h).h, Run(rest, Exec(Mov(SCRATCH, src), h).h).h, n, Read(h, Loc(n)), v);
  }

  /** A line that only compares changes nothing in the guest. */
  lemma CompareRuns(h: Host, l: Line, n: XReg)
    requires l.Cmp? || l.Test?
    requires Encodable(l.a, l.b)
    ensures RunsTo([l], h, n, Read(h, Loc(n)))
  {
    hide Loc;
    RunOne(l, h);
    SameGuestUpdates(h, Exec(l, h).h, n);
  }

  lemma ShiftedRuns(h: Host, op: AluOp, sh: ShiftOp, k: bv8, rd: XReg, rn: XReg, rm: XReg)
    requires k < 64
    ensures var copy := if rd != rn then Move(Loc(rd), Loc(rn)) else [];
      var a := Read(h, Loc(rn));
      var b := if rd != rn && Spilled(rd) && Spilled(rn) then a else ShiftValue(sh, Read(h, Loc(rm)), k);
      RunsTo([Mov(SCRATCH, Loc(rm)), Shift(sh, SCRATCH, k)] + copy + [Alu(op, Loc(rd), SCRATCH)],
             h, rd, AluValue(op, a, b))
  {
    hide Loc, Move, AluValue, ShiftValue, Run, Updates;
    var copy := if rd != rn then Move(Loc(rd), Loc(rn)) else [];
    var m, s, tail := Mov(SCRATCH, Loc(rm)), Shift(sh, SCRATCH, k), copy + [Alu(op, Loc(rd), SCRATCH)];
    Stage(h, Loc(rm));
    var h1 := Exec(m, h).h;
    var h2 := Exec(s, h1).h;
    SameGuestReads(h, h2, rn);
    CopyRuns(h2, rd, rn);
    CopyThenAlu(h2, op, rd, rn, SCRATCH);
    assert [m, s] + copy + [Alu(op, Loc(rd), SCRATCH)] == [m] + ([s] + tail);
    RunCons(s, tail, h1);
    RunCons(m, [s] + tail, h);
    SameGuestUpdates(h, h2, rd);
    var o := Run(tail, h2).h;
    UpdatesTwice(h, h2, o, rd, Read(h, Loc(rd)),
                 AluValue(op, Read(h2, Loc(rn)), Read(Run(copy, h2).h, SCRATCH)));
  }

  lemma StagedAlu(h: Host, op: AluOp, rd: XReg, rm: XReg)
    ensures RunsTo([Mov(SCRATCH, Loc(rm)), Alu(op, Loc(rd), SCRATCH)], h, rd,
                   AluValue(op, Read(h, Loc(rd)), Read(h, Loc(rm))))
  {
    hide Loc, AluValue;
    Stage(h, Loc(rm));
    var m, l := Mov(SCRATCH, Loc(rm)), Alu(op, Loc(rd), SCRATCH);
    var h1 := Exec(m, h).h;
    AluLine(h1, op, rd, SCRATCH);
    RunOne(l, h1);
    SameGuestReads(h, h1, rd);
    assert [m, l] == [m] + [l];
    StageThen(h, Loc(rm), [l], rd, AluValue(op, Read(h, Loc(rd)), Read(h, Loc(rm))));
  }

  lemma UnshiftedRuns(h: Host, op: AluOp, rd: XReg, rn: XReg, rm: XReg)
    ensures var copy := if rd != rn then Move(Loc(rd), Loc(rn)) else [];
      var a := Read(h, Loc(rn));
      var b := if rd != rn && rd == rm then a else Read(h, Loc(rm));
      RunsTo(if Loc(rd).Slot? && Loc(rm).Slot? then copy + [Mov(SCRATCH, Loc(rm)), Alu(op, Loc(rd), SCRATCH)]
             else copy + [Alu(op, Loc(rd), Loc(rm))],
             h, rd, AluValue(op, a, b))
  {
    hide Loc, Move, AluValue, Run;
    var copy := if rd != rn then Move(Loc(rd), Loc(rn)) else [];
    CopyRuns(h, rd, rn);
    var h1 := Run(copy, h).h;
    if Loc(rd).Slot? && Loc(rm).Slot? {
      var staged := [Mov(SCRATCH, Loc(rm)), Alu(op, Loc(rd), SCRATCH)];
      StagedAlu(h1, op, rd, rm);
      RunAppend(copy, staged, h);
      UpdatesTwice(h, h1, Run(staged, h1).h, rd, Read(h, Loc(rn)), AluValue(op, Read(h1, Loc(rd)), Read(h1, Loc(rm))));
    } else {
      CopyThenAlu(h, op, rd, rn, Loc(rm));
    }
  }

  lemma ConstantRuns(h: Host, n: XReg, c: bv64)
    ensures RunsTo([Mov(Loc(n), Imm(c))], h, n, c)
    ensures RunsTo([Mov(SCRATCH, Imm(c)), Mov(Loc(n), SCRATCH)], h, n, c)
  {
    LocInjective(n, n);
    hide Loc, Updates, Run;
    MovLine(h, n, Imm(c));
    RunOne(Mov(Loc(n), Imm(c)), h);
    var l := Mov(Loc(n), SCRATCH);
    var h1 := Exec(Mov(SCRATCH, Imm(c)), h).h;
    Stage(h, Imm(c));
    MovLine(h1, n, SCRATCH);
    RunOne(l, h1);
    assert [Mov(SCRATCH, Imm(c)), l] == [Mov(SCRATCH, Imm(c))] + [l];
    StageThen(h, Imm(c), [l], n, c);
  }

  lemma AluTwiceRuns(h: Host, n: XReg, op1: AluOp, op2: AluOp, v1: bv64, v2: bv64)
    ensures RunsTo([Alu(op1, Loc(n), Imm(v1)), Alu(op2, Loc(n), Imm(v2))], h, n,
                   AluValue(op2, AluValue(op1, Read(h, Loc(n)), v1), v2))
  {
    hide Loc, AluValue;
    var l1, l2 := Alu(op1, Loc(n), Imm(v1)), Alu(op2, Loc(n), Imm(v2));
    AluLine(h, op1, n, Imm(v1));
    var h1 := Exec(l1, h).h;
    AluLine(h1, op2, n, Imm(v2));
    assert [l1, l2] == [l1] + [l2];
    RunCons(l1, [l2], h);
    RunOne(l2, h1);
    var x := AluValue(op1, Read(h, Loc(n)), v1);
    UpdatesTwice(h, h1, Exec(l2, h1).h, n, x, AluValue(op2, x, v2));
  }

  lemma FlagCompareRuns(h: Host, rd: XReg, rn: XReg, rm: XReg)
    ensures RunsTo(if Loc(rn).Slot? && Loc(rm).Slot? then [Mov(SCRATCH, Loc(rn)), Cmp(SCRATCH, Loc(rm))]
                   else [Cmp(Loc(rn), Loc(rm))], h, rd, Read(h, Loc(rd)))
  {
    LocInjective(rn, rn);
    hide Loc;
    if Loc(rn).Slot? && Loc(rm).Slot? {
      Stage(h, Loc(rn));
      var h1 := Exec(Mov(SCRATCH, Loc(rn)), h).h;
      var l := Cmp(SCRATCH, Loc(rm));
      CompareRuns(h1, l, rd);
      SameGuestReads(h, h1, rd);
      assert [Mov(SCRATCH, Loc(rn)), l] == [Mov(SCRATCH, Loc(rn))] + [l];
      StageThen(h, Loc(rn), [l], rd, Read(h, Loc(rd)));
    } else {
      CompareRuns(h, Cmp(Loc(rn), Loc(rm)), rd);
    }
  }

  lemma RegisterRuns(w: Word, h: Host)
    requires RegForm(w)
    ensures RunsTo(RegisterForm(w), h, Rd(w),
      var d, a, b := Read(h, Loc(Rd(w))), Read(h, Loc(Rn(w))), Read(h, Loc(Rm(w)));
      if IsShifted(w) then
        AluValue(RegOp(w), a, if Clobbers(w) then a else ShiftValue(ShiftName(ShiftKind(w)), b, Imm6(w)))
      else if MovAlias(w) then b
      else if FlagsOnly(w) then d
      else AluValue(RegOp(w), a, if Rd(w) != Rn(w) && Rd(w) == Rm(w) then a else b))
  {
    var rd, rn, rm := Rd(w), Rn(w), Rm(w);
    ShiftedRuns(h, RegOp(w), ShiftName(ShiftKind(w)), Imm6(w), rd, rn, rm);
    UnshiftedRuns(h, RegOp(w), rd, rn, rm);
    FlagCompareRuns(h, rd, rn, rm);
    MoveRuns(h, rd, rm);
    FlagBit(Opc(w));
    hide Loc, Move, AluValue, ShiftValue, ShiftName, Rd, Rn, Rm, Imm6, ShiftKind, IsAddSubReg, IsLogicalReg;
    hide LogicalOp, AddSubOp, Opc, Run, IsShifted;
  }

  lemma FlagBit(opc: bv2)
    ensures opc == 1 ==> opc & 1 != 0
  {
  }

  lemma MoveWideShape(w: Word, h: Host)
    requires DataForm(w) && (IsMovz(w) || IsMovk(w) || IsMovn(w))
    ensures Emitted(w, h) == if IsMovz(w) then WideImm(w) else if IsMovk(w) then
      AluValue(Or, AluValue(And, Read(h, Loc(Rd(w))), WideKeep(w)), WideImm(w)) else !WideImm(w)
    ensures DataCode(w) == if IsMovz(w) then [Mov(Loc(Rd(w)), Imm(WideImm(w)))]
      else if IsMovk(w) then [Alu(And, Loc(Rd(w)), Imm(WideKeep(w))), Alu(Or, Loc(Rd(w)), Imm(WideImm(w)))]
      else if Loc(Rd(w)).Slot? then [Mov(SCRATCH, Imm(!WideImm(w))), Mov(Loc(Rd(w)), SCRATCH)]
      else [Mov(Loc(Rd(w)), Imm(!WideImm(w)))]
  {
    FormsDisjoint(w);
    hide Loc, WideImm, WideKeep, Imm12, RegisterForm, ImmediateOp, ImmMask, Rd, Rn, Rm, AluValue, Read;
    hide IsMovz, IsMovk, IsMovn, IsAddImm, IsSubImm, IsSubsImm, IsAddSubReg, IsLogicalReg, IsLogicalImm;
  }

  lemma MoveWideRuns(w: Word, h: Host)
    requires DataForm(w) && (IsMovz(w) || IsMovk(w) || IsMovn(w))
    ensures RunsTo(DataCode(w), h, Rd(w), Emitted(w, h))
  {
    MoveWideShape(w, h);
    ConstantRuns(h, Rd(w), WideImm(w));
    ConstantRuns(h, Rd(w), !WideImm(w));
    AluTwiceRuns(h, Rd(w), And, Or, WideKeep(w), WideImm(w));
    hide *;
  }

  lemma ImmediateFormRuns(w: Word, h: Host)
    requires DataForm(w) && ImmForm(w)
    ensures RunsTo(DataCode(w), h, Rd(w), Emitted(w, h))
  {
    FormsDisjoint(w);
    LocInjective(Rn(w), Rn(w));
    var n := Rd(w);
    hide Loc, WideImm, WideKeep, Imm12, RegisterForm, ImmediateOp, ImmMask, RunsTo, Rd, Rn, Rm, AluValue;
    hide SystemForm, MemoryForm, LateForm, AdrForm, IsAddImm, IsSubImm, IsSubsImm, IsMovz, IsMovk, IsMovn;
    hide IsAddSubReg, IsLogicalReg, IsLogicalImm, RegOp, ShiftValue, MovAlias, IsShifted;
    if IsAddImm(w) {
      ImmediateRuns(h, Add, n, Rn(w), Imm12(w));
    } else if IsSubImm(w) {
      ImmediateRuns(h, Sub, n, Rn(w), Imm12(w));
    } else if IsSubsImm(w) {
      CompareRuns(h, Cmp(Loc(Rn(w)), Imm(((w >> 10) & 0xFFF) as bv64)), n);
    } else {
      ImmediateRuns(h, LogicalOp(Opc(w)), n, Rn(w), ImmMask(w).value);
      CompareRuns(h, Test(Loc(Rn(w)), Imm(ImmMask(w).value)), n);
    }
  }

  /** Every data word's lines run through and update its destination only. */
  lemma DataRuns(w: Word, h: Host)
    requires DataForm(w)
    ensures RunsTo(DataCode(w), h, Rd(w), Emitted(w, h))
  {
    if RegForm(w) {
      FormsDisjoint(w);
      RegisterRuns(w, h);
      hide *;
    } else if ImmForm(w) {
      ImmediateFormRuns(w, h);
    } else {
      MoveWideRuns(w, h);
    }
  }

  // ---- against the oracle ----

  lemma StepPuts(w: Word, r: Regs)
    requires DataForm(w)
    ensures Step(w, r).Some? && Step(w, r).value == Put(r, Rd(w), Get(Step(w, r).value, Rd(w)))
  {
    hide Rd, Rn, Rm, Logical, AddSub, Shifted, ImmMask, Opc, WideImm, WideKeep, Imm12;
  }

  lemma AgreesByValue(w: Word, pc: int, h: Host, r: Regs)
    requires DataForm(w) && Related(h, r)
    ensures Agrees(w, pc, h, r) <==> Rd(w) == X31 || Emitted(w, h) == Get(Step(w, r).value, Rd(w))
  {
    TranslatesData(w, pc);
    DataRuns(w, h);
    StepPuts(w, r);
    var h' := Run(DataCode(w), h).h;
    var v := Emitted(w, h);
    UpdatesRelated(h, h', r, Rd(w), v);
    hide Loc, DataCode, Emitted, Step, Translate, DataForm, Rd, Run;
  }

  // ---- every Sound word is right ----

  lemma SarUnfolds(v: bv64, k: bv8)
    requires k < 64
    ensures v >> 63 == 1 ==> Sar64(v, k) == (v >> k) | !(0xFFFF_FFFF_FFFF_FFFF >> k)
    ensures v >> 63 != 1 ==> Sar64(v, k) == v >> k
  {
  }

  /** s is x, or x with its top bit set where v has it too. */
  predicate TopBitApart(v: bv64, x: bv64, s: bv64) {
    s == x || (v >> 63 == 1 && s == x | 0x8000_0000_0000_0000)
  }

  lemma OrAbsorbs(v: bv64, x: bv64, s: bv64)
    requires TopBitApart(v, x, s)
    ensures Logical(1, v, s) == Logical(1, v, x)
  {
    if s != x {
      OrAbsorbsTop(v, x, s);
      assert Logical(1, v, s) == v | s;
      assert Logical(1, v, x) == v | x;
      hide *;
    }
  }

  lemma SarOverShr(v: bv64, k: bv8)
    requires k == 1
    ensures TopBitApart(v, ShiftValue(Shr, v, k), ShiftValue(Sar, v, k))
  {
    SarUnfolds(v, k);
    FillByOne(k);
    hide Sar64;
  }

  /** ORR of a value with itself shifted right by one cannot tell the two
      right shifts apart. */
  lemma OrrAsrOne(v: bv64, k: bv8)
    requires k == 1
    ensures Logical(1, v, ShiftValue(Sar, v, k)) == Logical(1, v, ShiftValue(Shr, v, k))
  {
    SarOverShr(v, k);
    OrAbsorbs(v, ShiftValue(Shr, v, k), ShiftValue(Sar, v, k));
    hide *;
  }

  /** The two shifters agree, the oracle's arithmetic shift being logical. */
  lemma SoundShift(kind: bv2, k: bv8, v: bv64)
    requires k < 64 && (kind != 2 || k == 0)
    ensures ShiftValue(ShiftName(kind), v, k) == Shifted(kind, k, v)
  {
    if k == 0 {
      SarUnfolds(v, k); SarByZero(v, k); ShiftByZero(v, k); RotateByZero(v, k);
    }
    ShiftValues(kind, k, v);
    ShiftedValues(kind, k, v);
    hide *;
  }

  lemma ShiftValues(kind: bv2, k: bv8, v: bv64)
    requires k < 64
    ensures kind == 0 ==> ShiftValue(ShiftName(kind), v, k) == v << k
    ensures kind == 1 ==> ShiftValue(ShiftName(kind), v, k) == v >> k
    ensures kind == 2 ==> ShiftValue(ShiftName(kind), v, k) == Sar64(v, k)
    ensures kind == 3 ==> ShiftValue(ShiftName(kind), v, k) == (v >> k) | (v << (64 - k))
    ensures ShiftName(2) == Sar && ShiftName(1) == Shr
  {
  }

  lemma ShiftedValues(kind: bv2, k: bv8, v: bv64)
    requires k < 64
    ensures k == 0 ==> Shifted(kind, k, v) == v
    ensures k != 0 && kind == 0 ==> Shifted(kind, k, v) == v << k
    ensures k != 0 && kind == 3 ==> Shifted(kind, k, v) == (v >> k) | (v << (64 - k))
    ensures k != 0 && (kind == 1 || kind == 2) ==> Shifted(kind, k, v) == v >> k
  {
  }

  lemma AsrAgainstLsr(k: bv8, v: bv64)
    requires 0 < k < 64
    ensures ShiftName(2) == Sar && Shifted(2, k, v) == ShiftValue(Shr, v, k)
  {
  }

  lemma OpsMatch(opc: bv2, a: bv64, b: bv64)
    ensures AluValue(LogicalOp(opc), a, b) == Logical(opc, a, b)
    ensures AluValue(AddSubOp(opc), a, b) == AddSub(opc, a, b)
  {
  }

  /** The oracle's combination of two operand values. */
  function Combine(w: Word, a: bv64, b: bv64): bv64 {
    if IsLogicalReg(w) then Logical(Opc(w), a, b) else AddSub(Opc(w), a, b)
  }

  lemma OpMatches(w: Word, a: bv64, b: bv64)
    ensures AluValue(RegOp(w), a, b) == Combine(w, a, b)
  {
    OpsMatch(Opc(w), a, b);
    hide AluValue, LogicalOp, AddSubOp, Logical, AddSub, Opc, IsLogicalReg;
  }

  lemma EmittedRegister(w: Word, h: Host)
    requires DataForm(w) && RegForm(w) && Rd(w) != X31
    ensures var a, b := Read(h, Loc(Rn(w))), Read(h, Loc(Rm(w)));
      Emitted(w, h) ==
        if IsShifted(w) then Combine(w, a, if Clobbers(w) then a else ShiftValue(ShiftName(ShiftKind(w)), b, Imm6(w)))
        else if MovAlias(w) then b
        else Combine(w, a, if Rd(w) != Rn(w) && Rd(w) == Rm(w) then a else b)
  {
    FormsDisjoint(w);
    var a := Read(h, Loc(Rn(w)));
    OpsMatch(Opc(w), a, a);
    OpsMatch(Opc(w), a, Read(h, Loc(Rm(w))));
    OpsMatch(Opc(w), a, ShiftValue(ShiftName(ShiftKind(w)), Read(h, Loc(Rm(w))), Imm6(w)));
    hide Loc, Read, Rd, Rn, Rm, AluValue, Logical, AddSub, LogicalOp, AddSubOp, ShiftValue, ShiftName, ShiftKind, Imm6,
      Opc;
    hide IsMovz, IsMovk, IsMovn, IsAddImm, IsSubImm, IsSubsImm, IsLogicalImm, IsAddSubReg, IsLogicalReg, IsShifted,
      ImmMask;
  }

  lemma StepRegister(w: Word, r: Regs)
    requires DataForm(w) && RegForm(w) && Rd(w) != X31
    ensures Get(Step(w, r).value, Rd(w)) == Combine(w, Get(r, Rn(w)), Shifted(ShiftKind(w), Imm6(w), Get(r, Rm(w))))
  {
    FormsDisjoint(w);
    StepForms(w);
    hide Rd, Rn, Rm, Logical, AddSub, Shifted, ShiftKind, Imm6, Opc, ImmMask;
    hide IsMovz, IsMovk, IsMovn, IsAddImm, IsSubImm, IsAddsImm, IsSubsImm, IsLogicalImm, IsAddSubReg, IsLogicalReg;
  }

  /** The oracle's tests do not overlap either. */
  lemma StepForms(w: Word)
    requires DataForm(w)
    ensures RegForm(w) ==>
      && !IsMovz(w) && !IsMovk(w) && !IsMovn(w) && !IsAddImm(w) && !IsSubImm(w)
      && !IsAddsImm(w) && !IsSubsImm(w) && !IsLogicalImm(w) && !(IsAddSubReg(w) && IsLogicalReg(w))
    ensures ImmForm(w) ==> !IsMovz(w) && !IsMovk(w) && !IsMovn(w)
    ensures IsLogicalImm(w) ==> !IsAddImm(w) && !IsSubImm(w) && !IsAddsImm(w) && !IsSubsImm(w)
    ensures IsAddImm(w) || IsSubImm(w) || IsSubsImm(w) ==> (w & 0x40000000 != 0 <==> !IsAddImm(w))
  {
    hide ImmMask;
  }

  lemma StepMoveWide(w: Word, r: Regs)
    requires DataForm(w) && Rd(w) != X31 && (IsMovz(w) || IsMovk(w) || IsMovn(w))
    ensures Get(Step(w, r).value, Rd(w)) == if IsMovz(w) then WideImm(w)
      else if IsMovk(w) then AluValue(Or, AluValue(And, Get(r, Rd(w)), WideKeep(w)), WideImm(w)) else !WideImm(w)
  {
    hide Loc, Rd, WideImm, WideKeep, ImmMask, IsMovz, IsMovk, IsMovn;
  }

  lemma SoundMoveWide(w: Word, h: Host, r: Regs)
    requires DataForm(w) && Related(h, r) && Rd(w) != X31
    requires IsMovz(w) || IsMovk(w) || IsMovn(w)
    ensures Emitted(w, h) == Get(Step(w, r).value, Rd(w))
  {
    MoveWideShape(w, h);
    StepMoveWide(w, r);
    assert Read(h, Loc(Rd(w))) == Get(r, Rd(w));
    hide *;
  }

  function ImmOp(w: Word): AluOp {
    if IsAddImm(w) then Add else if IsSubImm(w) || IsSubsImm(w) then Sub else LogicalOp(Opc(w))
  }

  function ImmOperand(w: Word): bv64 {
    if IsLogicalImm(w) && ImmMask(w).Some? then ImmMask(w).value else Imm12(w)
  }

  lemma StepLogicalImmediate(w: Word, r: Regs)
    requires DataForm(w) && Rd(w) != X31 && IsLogicalImm(w)
    ensures Get(Step(w, r).value, Rd(w)) == Logical(Opc(w), Get(r, Rn(w)), ImmMask(w).value)
  {
    StepForms(w);
    FormsDisjoint(w);
    hide Rd, Rn, ImmMask, Logical, Opc;
    hide IsMovz, IsMovk, IsMovn, IsAddImm, IsSubImm, IsSubsImm, IsAddsImm, IsLogicalImm;
  }

  lemma StepAddSubImmediate(w: Word, r: Regs)
    requires DataForm(w) && Rd(w) != X31 && (IsAddImm(w) || IsSubImm(w) || IsSubsImm(w))
    ensures Get(Step(w, r).value, Rd(w)) == AluValue(if IsAddImm(w) then Add else Sub, Get(r, Rn(w)), Imm12(w))
  {
    StepForms(w);
    hide Rd, Rn, ImmMask, Imm12;
    hide IsMovz, IsMovk, IsMovn, IsAddImm, IsSubImm, IsSubsImm, IsAddsImm, IsLogicalImm;
  }

  lemma ImmediateShape(w: Word)
    requires DataForm(w) && ImmForm(w)
    ensures ImmOperand(w) == if IsLogicalImm(w) then ImmMask(w).value else Imm12(w)
    ensures ImmOp(w) == if IsLogicalImm(w) then LogicalOp(Opc(w)) else if IsAddImm(w) then Add else Sub
  {
    FormsDisjoint(w);
    StepForms(w);
    hide Imm12, ImmMask, IsAddImm, IsSubImm, IsSubsImm, IsLogicalImm, IsMovz, IsMovk, IsMovn;
  }

  lemma StepImmediate(w: Word, r: Regs)
    requires DataForm(w) && Rd(w) != X31 && ImmForm(w)
    ensures Get(Step(w, r).value, Rd(w)) == AluValue(ImmOp(w), Get(r, Rn(w)), ImmOperand(w))
  {
    ImmediateShape(w);
    if IsLogicalImm(w) {
      StepLogicalImmediate(w, r);
      OpsMatch(Opc(w), Get(r, Rn(w)), ImmMask(w).value);
    } else {
      StepAddSubImmediate(w, r);
    }
    hide *;
  }

  lemma EmittedImmediate(w: Word, h: Host)
    requires DataForm(w) && Rd(w) != X31 && ImmForm(w) && !IsSubsImm(w)
    ensures Emitted(w, h) == AluValue(ImmOp(w), Read(h, Loc(Rn(w))), ImmOperand(w))
  {
    FormsDisjoint(w);
    hide Loc, Read, Rd, Rn, ImmMask, Imm12, LogicalOp, Opc, AluValue;
    hide IsMovz, IsMovk, IsMovn, IsAddImm, IsSubImm, IsSubsImm, IsLogicalImm, IsAddSubReg, IsLogicalReg;
  }

  lemma SoundImmediate(w: Word, h: Host, r: Regs)
    requires DataForm(w) && Related(h, r) && Rd(w) != X31 && Rn(w) != X31
    requires ImmForm(w) && !IsSubsImm(w)
    ensures Emitted(w, h) == Get(Step(w, r).value, Rd(w))
  {
    EmittedImmediate(w, h);
    StepImmediate(w, r);
    assert Read(h, Loc(Rn(w))) == Get(r, Rn(w));
    hide *;
  }

  lemma MovAliasValue(w: Word, v: bv64)
    requires MovAlias(w)
    ensures Combine(w, 0, Shifted(ShiftKind(w), Imm6(w), v)) == v
  {
  }

  lemma OrrCombine(w: Word, a: bv64, b: bv64)
    requires OrrForm(w)
    ensures Combine(w, a, b) == Logical(1, a, b)
  {
  }

  lemma SoundRegister(w: Word, h: Host, r: Regs)
    requires Covered(w) && RegForm(w) && Sound(w) && Related(h, r) && Rd(w) != X31
    ensures Emitted(w, h) == Get(Step(w, r).value, Rd(w))
  {
    FormsDisjoint(w);
    var kind, k, a, b := ShiftKind(w), Imm6(w), Get(r, Rn(w)), Get(r, Rm(w));
    EmittedRegister(w, h);
    StepRegister(w, r);
    if MovAlias(w) { MovAliasValue(w, b); }
    if kind != 2 || k == 0 { SoundShift(kind, k, b); }
    if kind == 2 && k == 1 && OrrForm(w) && Rm(w) == Rn(w) {
      OrrAsrOne(b, k);
      OrrCombine(w, a, ShiftValue(Sar, b, k)); OrrCombine(w, a, ShiftValue(Shr, b, k));
      AsrAgainstLsr(k, b);
    }
    hide Combine, ShiftValue, Shifted, Emitted, Step, DataForm, Loc, Sar64, Logical, Rd, Rn, Rm, ShiftKind, Imm6, Opc;
    hide IsMovz, IsMovk, IsMovn, IsAddImm, IsSubImm, IsSubsImm, IsAddsImm, IsLogicalImm, IsAddSubReg, IsLogicalReg;
  }

  /** Every covered sound word does on the host what the oracle says, from
      every related state, touching nothing else. */
  lemma SoundWordsAgree(w: Word, pc: int, h: Host, r: Regs)
    requires Covered(w) && Sound(w) && Related(h, r)
    ensures Agrees(w, pc, h, r)
  {
    AgreesByValue(w, pc, h, r);
    if Rd(w) != X31 {
      if RegForm(w) {
        SoundRegister(w, h, r);
      } else if IsMovz(w) || IsMovk(w) || IsMovn(w) {
        SoundMoveWide(w, h, r);
      } else if IsSubsImm(w) {
        SoundCompare(w, h, r);
      } else {
        SoundImmediate(w, h, r);
      }
    }
    hide *;
  }

  lemma SoundCompare(w: Word, h: Host, r: Regs)
    requires DataForm(w) && Related(h, r) && Rd(w) != X31 && Rn(w) != X31
    requires IsSubsImm(w) && Rd(w) == Rn(w) && Imm12(w) == 0
    ensures Emitted(w, h) == Get(Step(w, r).value, Rd(w))
  {
    FormsDisjoint(w);
    StepForms(w);
    hide Loc, Rd, Rn, Rm, ImmMask, Imm12, Logical, LogicalOp, Opc;
    hide IsMovz, IsMovk, IsMovn, IsAddImm, IsSubImm, IsSubsImm, IsAddsImm, IsLogicalImm, IsAddSubReg, IsLogicalReg;
  }

  // ---- every unsound word goes wrong somewhere ----

  const BLANK := Host(map[], map[], UNKNOWN)

  ghost function HostWith(n: XReg, a: bv64, m: XReg, b: bv64): Host {
    Write(Write(BLANK, Loc(n), a).(flags := UNKNOWN), Loc(m), b).(flags := UNKNOWN)
  }

  ghost function RegsWith(n: XReg, a: bv64, m: XReg, b: bv64): Regs { Put(Put(map[], n, a), m, b) }

  lemma WitnessRelated(n: XReg, a: bv64, m: XReg, b: bv64)
    ensures Related(HostWith(n, a, m, b), RegsWith(n, a, m, b))
  {
    assert Related(BLANK, map[]);
    var h1 := Write(BLANK, Loc(n), a).(flags := UNKNOWN);
    WriteUpdates(BLANK, n, a, UNKNOWN);
    UpdatesRelated(BLANK, h1, map[], n, a);
    WriteUpdates(h1, m, b, UNKNOWN);
    UpdatesRelated(h1, HostWith(n, a, m, b), Put(map[], n, a), m, b);
    hide *;
  }

  lemma WitnessReads(n: XReg, a: bv64, m: XReg, b: bv64)
    requires n != X31 && m != X31
    ensures var h, r := HostWith(n, a, m, b), RegsWith(n, a, m, b);
      && Read(h, Loc(m)) == Get(r, m) == b
      && (n != m ==> Read(h, Loc(n)) == Get(r, n) == a)
  {
    WitnessRelated(n, a, m, b);
    hide Loc, HostWith;
  }

  /** The value that makes an operation give back its other operand, or its
      negation. */
  function Neutral(w: Word): bv64 { if IsLogicalReg(w) && Opc(w) & 3 != 1 && Opc(w) != 2 then ONES else 0 }

  lemma NeutralCombine(w: Word, a: bv64, b: bv64)
    requires a != b
    ensures Combine(w, Neutral(w), a) != Combine(w, Neutral(w), b)
  {
    NeutralDiffers(a, b);
  }

  lemma AluAdd(a: bv64, b: bv64)
    ensures AluValue(Add, a, b) == a + b
  {
  }

  lemma AluOr(a: bv64, b: bv64)
    ensures AluValue(Or, a, b) == a | b
  {
  }

  lemma AluAnd(a: bv64, b: bv64)
    ensures AluValue(And, a, b) == a & b
  {
  }

  lemma AluSub(a: bv64, b: bv64)
    ensures AluValue(Sub, a, b) == a - b
  {
  }

  lemma AluXor(a: bv64, b: bv64)
    ensures AluValue(Xor, a, b) == a ^ b
  {
  }

  lemma DisjointAlu(op: AluOp, v: bv64, s: bv64)
    requires v & s == 0 && v != 0 && (op == Or ==> s != 0)
    ensures AluValue(op, v, v) != AluValue(op, v, s)
  {
    hide AluValue;
    match op {
      case Add => AluAdd(v, v); AluAdd(v, s); DisjointSum(v, s);
      case Or => AluOr(v, v); AluOr(v, s); DisjointOr(v, s);
      case And => AluAnd(v, v); AluAnd(v, s); DisjointAnd(v, s);
      case Sub => AluSub(v, v); AluSub(v, s); DisjointSum(v, s);
      case Xor => AluXor(v, v); AluXor(v, s); DisjointXor(v, s);
    }
  }

  lemma OrrIsOr(w: Word)
    ensures RegOp(w) == Or <==> OrrForm(w)
  {
  }

  lemma DisjointCombine(w: Word, v: bv64, s: bv64)
    requires v & s == 0 && v != 0 && (OrrForm(w) ==> s != 0)
    ensures Combine(w, v, v) != Combine(w, v, s)
  {
    hide Combine, AluValue, RegOp, OrrForm;
    OrrIsOr(w);
    OpMatches(w, v, v); OpMatches(w, v, s);
    DisjointAlu(RegOp(w), v, s);
  }

  ghost predicate Diverges(w: Word, h: Host, r: Regs)
    requires DataForm(w)
  {
    Related(h, r) && Rd(w) != X31 && Emitted(w, h) != Get(Step(w, r).value, Rd(w))
  }

  lemma NeutralValue(w: Word)
    ensures Neutral(w) == 0 || Neutral(w) == ONES
    ensures !Neutral(w) != Neutral(w)
  {
  }

  lemma ShiftedAvoids(kind: bv2, k: bv8, n: bv64)
    requires k < 64 && (n == 0 || n == ONES)
    ensures Shifted(kind, k, !n) != n
  {
    ShiftedValues(kind, k, !n);
    if n == 0 { ShiftOnes(!n, k); } else { ShiftZero(!n, k); }
    hide Shifted;
  }

  lemma UnsoundUnshifted(w: Word) returns (h: Host, r: Regs)
    requires Covered(w) && RegForm(w) && !IsShifted(w) && !Sound(w)
    ensures Diverges(w, h, r)
  {
    FormsDisjoint(w);
    var n := Neutral(w);
    h, r := HostWith(Rn(w), n, Rm(w), !n), RegsWith(Rn(w), n, Rm(w), !n);
    WitnessRelated(Rn(w), n, Rm(w), !n);
    WitnessReads(Rn(w), n, Rm(w), !n);
    EmittedRegister(w, h);
    StepRegister(w, r);
    ShiftedValues(ShiftKind(w), Imm6(w), !n);
    NeutralValue(w);
    NeutralCombine(w, n, !n);
    hide Combine, Neutral, Emitted, Step, HostWith, RegsWith, Related, Shifted, DataForm, Loc, Read, Get, Rd, Rn, Rm;
    hide IsMovz, IsMovk, IsMovn, IsAddImm, IsSubImm, IsSubsImm, IsAddsImm, IsLogicalImm, IsAddSubReg, IsLogicalReg;
  }

  lemma UnsoundClobberApart(w: Word) returns (h: Host, r: Regs)
    requires Covered(w) && RegForm(w) && IsShifted(w) && Rd(w) != X31 && Clobbers(w) && Rm(w) != Rn(w)
    ensures Diverges(w, h, r)
  {
    var n := Neutral(w);
    h, r := HostWith(Rn(w), n, Rm(w), !n), RegsWith(Rn(w), n, Rm(w), !n);
    WitnessRelated(Rn(w), n, Rm(w), !n);
    WitnessReads(Rn(w), n, Rm(w), !n);
    EmittedRegister(w, h);
    StepRegister(w, r);
    NeutralValue(w);
    ShiftedAvoids(ShiftKind(w), Imm6(w), n);
    NeutralCombine(w, n, Shifted(ShiftKind(w), Imm6(w), !n));
    hide *;
  }

  lemma ShiftedDisjoint(w: Word) returns (v: bv64)
    requires RegForm(w) && Imm6(w) != 0
    ensures v != 0 && v & Shifted(ShiftKind(w), Imm6(w), v) == 0
    ensures OrrForm(w) ==> Shifted(ShiftKind(w), Imm6(w), v) != 0
  {
    var kind, k := ShiftKind(w), Imm6(w);
    if kind == 1 || kind == 2 {
      v := TOP;
      ShrTop(v, k);
    } else {
      v := 1;
      if kind == 0 { ShlOne(v, k); } else { RorOne(v, k); }
    }
    ShiftedValues(kind, k, v);
    hide Shifted;
  }

  lemma UnsoundClobberSame(w: Word) returns (h: Host, r: Regs)
    requires Covered(w) && RegForm(w) && IsShifted(w) && Rd(w) != X31 && Clobbers(w) && Rm(w) == Rn(w) && Imm6(w) != 0
    ensures Diverges(w, h, r)
  {
    var v := ShiftedDisjoint(w);
    h, r := HostWith(Rn(w), v, Rm(w), v), RegsWith(Rn(w), v, Rm(w), v);
    WitnessRelated(Rn(w), v, Rm(w), v);
    WitnessReads(Rn(w), v, Rm(w), v);
    EmittedRegister(w, h);
    StepRegister(w, r);
    DisjointCombine(w, v, Shifted(ShiftKind(w), Imm6(w), v));
    hide *;
  }

  lemma SarIsNotShr(w: Word, v: bv64, k: bv8)
    requires v == TOP && 0 < k < 64 && (OrrForm(w) ==> k > 1)
    ensures Combine(w, v, ShiftValue(Sar, v, k)) != Combine(w, v, ShiftValue(Shr, v, k))
    ensures ShiftValue(Sar, v, k) != ShiftValue(Shr, v, k)
  {
    SarTop(v, k); ShrTop(v, k);
    if k > 1 { SarTopOr(v, k); }
    SarUnfolds(v, k);
    TopSplits(v, (v >> k) | !(0xFFFF_FFFF_FFFF_FFFF >> k), v >> k);
    hide Sar64;
  }

  lemma UnsoundAsr(w: Word) returns (h: Host, r: Regs)
    requires Covered(w) && RegForm(w) && Rd(w) != X31 && !Clobbers(w)
    requires ShiftKind(w) == 2 && Imm6(w) != 0 && !(OrrForm(w) && Rm(w) == Rn(w) && Imm6(w) == 1)
    ensures Diverges(w, h, r)
  {
    var k, b: bv64 := Imm6(w), TOP;
    var a: bv64 := if Rn(w) == Rm(w) then TOP else Neutral(w);
    h, r := HostWith(Rn(w), a, Rm(w), b), RegsWith(Rn(w), a, Rm(w), b);
    WitnessRelated(Rn(w), a, Rm(w), b);
    WitnessReads(Rn(w), a, Rm(w), b);
    EmittedRegister(w, h);
    StepRegister(w, r);
    AsrAgainstLsr(k, b);
    if Rn(w) == Rm(w) {
      SarIsNotShr(w, b, k);
    } else {
      SarTopApart(b, k);
      NeutralCombine(w, ShiftValue(Sar, b, k), ShiftValue(Shr, b, k));
    }
    MovAliasUnshifted(w);
    hide *;
  }

  lemma MovAliasUnshifted(w: Word)
    requires ShiftKind(w) == 2
    ensures IsShifted(w)
  {
  }

  lemma SarTopApart(v: bv64, k: bv8)
    requires v == TOP && 0 < k < 64
    ensures ShiftValue(Sar, v, k) != ShiftValue(Shr, v, k)
  {
    SarTop(v, k); ShrTop(v, k);
    SarUnfolds(v, k);
    hide Sar64;
  }

  lemma NegatedImmediate(x: bv64)
    requires x != 0
    ensures AluValue(Sub, 0, x) != 0
  {
  }

  /** SUBS with a live destination is emitted as a bare compare. */
  lemma UnsoundCompare(w: Word) returns (h: Host, r: Regs)
    requires Covered(w) && IsSubsImm(w) && Rd(w) != X31 && (Rd(w) != Rn(w) || Imm12(w) != 0)
    ensures Diverges(w, h, r)
  {
    var x := Imm12(w);
    var a: bv64 := if x == 0 then 1 else 0;
    h, r := HostWith(Rn(w), a, Rn(w), a), RegsWith(Rn(w), a, Rn(w), a);
    WitnessRelated(Rn(w), a, Rn(w), a);
    WitnessReads(Rn(w), a, Rn(w), a);
    StepImmediate(w, r);
    CompareShape(w, h);
    OthersBlank(Rn(w), a, Rd(w));
    if x == 0 { SubZero(a, x); } else { NegatedImmediate(x); }
    hide *;
  }

  lemma SubZero(a: bv64, x: bv64)
    requires x == 0
    ensures AluValue(Sub, a, x) == a
  {
  }

  lemma OthersBlank(n: XReg, a: bv64, m: XReg)
    requires n != X31 && m != X31
    ensures Read(HostWith(n, a, n, a), Loc(m)) == if m == n then a else 0
  {
    WitnessRelated(n, a, n, a);
    hide Loc, HostWith;
  }

  lemma CompareShape(w: Word, h: Host)
    requires DataForm(w) && IsSubsImm(w)
    ensures Emitted(w, h) == Read(h, Loc(Rd(w)))
    ensures ImmOp(w) == Sub && ImmOperand(w) == Imm12(w)
  {
    FormsDisjoint(w);
    StepForms(w);
    ImmediateShape(w);
    hide Loc, Read, Rd, ImmMask, Imm12, ImmOp, ImmOperand;
    hide IsAddImm, IsSubImm, IsSubsImm, IsLogicalImm;
  }

  /** The overlap conditions are exact: a covered word outside them goes wrong
      from some related state. */
  lemma UnsoundWordsDiverge(w: Word) returns (h: Host, r: Regs)
    requires Covered(w) && !Sound(w)
    ensures Diverges(w, h, r)
  {
    if IsSubsImm(w) {
      h, r := UnsoundCompare(w);
    } else if !IsShifted(w) {
      h, r := UnsoundUnshifted(w);
    } else if Clobbers(w) {
      if Rm(w) == Rn(w) { h, r := UnsoundClobberSame(w); } else { h, r := UnsoundClobberApart(w); }
    } else {
      h, r := UnsoundAsr(w);
    }
    FormsDisjoint(w);
    hide Diverges, Loc, Rd, Rn, Rm, Imm6, Imm12, ShiftKind, ImmMask;
    hide IsAddImm, IsSubImm, IsSubsImm, IsLogicalImm, IsMovz, IsMovk, IsMovn, IsLogicalReg, IsAddSubReg;
  }

  /** Main result on single words: the emitted lines agree with the oracle from
      every related state exactly when the word is Sound. */
  lemma TranslationIsExact(w: Word, pc: int)
    requires Covered(w)
    ensures Sound(w) <==> forall h: Host, r: Regs :: Related(h, r) ==> Agrees(w, pc, h, r)
  {
    if Sound(w) {
      forall h: Host, r: Regs | Related(h, r) ensures Agrees(w, pc, h, r) { SoundWordsAgree(w, pc, h, r); }
    } else {
      var h, r := UnsoundWordsDiverge(w);
      AgreesByValue(w, pc, h, r);
      assert Related(h, r) && !Agrees(w, pc, h, r);
    }
    hide Related, Sound, Covered, Agrees, Translate;
  }

  // ---- straight-line programs ----

  /** The lines of a program, one translated word after another. */
  function ProgramLines(ws: seq<Word>, pc: int): seq<Line>
    requires forall w :: w in ws ==> DataForm(w)
  {
    if ws == [] then [] else
      assert forall w :: w in ws[1..] ==> w in ws;
      TranslatesData(ws[0], pc);
      Translate(ws[0], pc).lines + ProgramLines(ws[1..], pc + 4)
  }

  /** The oracle iterated. */
  function StepAll(ws: seq<Word>, r: Regs): Regs
    requires forall w :: w in ws ==> DataForm(w)
  {
    if ws == [] then r else
      assert forall w :: w in ws[1..] ==> w in ws;
      StepPuts(ws[0], r);
      StepAll(ws[1..], Step(ws[0], r).value)
  }

  predicate SoundProgram(ws: seq<Word>) { forall w :: w in ws ==> DataForm(w) && !ReadsRegister31(w) && Sound(w) }

  /** Neither r15, rsp nor any cell that is not the location of a destination
      register has changed. */
  ghost predicate OnlyTouchesProgram(h: Host, h': Host, ws: seq<Word>) {
    && GetReg(h', R15) == GetReg(h, R15) && GetReg(h', RSP) == GetReg(h, RSP)
    && forall a: Offset :: (forall w :: w in ws ==> Loc(Rd(w)) != Slot(a)) ==> GetMem(h', a) == GetMem(h, a)
  }

  lemma TouchesProgram(h: Host, h1: Host, h2: Host, ws: seq<Word>)
    requires ws != [] && OnlyTouches(h, h1, Rd(ws[0])) && OnlyTouchesProgram(h1, h2, ws[1..])
    ensures OnlyTouchesProgram(h, h2, ws)
  {
    LocInjective(Rd(ws[0]), Rd(ws[0]));
    hide Loc, Rd;
    forall a: Offset | forall w :: w in ws ==> Loc(Rd(w)) != Slot(a)
      ensures GetMem(h2, a) == GetMem(h, a)
    {
      assert ws[0] in ws;
      assert forall w :: w in ws[1..] ==> w in ws;
    }
  }

  /** Every program of covered sound words, of any length and from any related
      state, runs through and ends related to the oracle's result. */
  lemma {:induction false} ProgramsAgree(ws: seq<Word>, pc: int, h: Host, r: Regs)
    requires SoundProgram(ws) && Related(h, r)
    ensures var o := Run(ProgramLines(ws, pc), h);
      o.Fall? && Related(o.h, StepAll(ws, r)) && OnlyTouchesProgram(h, o.h, ws)
  {
    hide Related, Sound, Is64, ReadsRegister31, Translate, Step, Loc, Rd, OnlyTouches, ImmMask;
    hide IsAddImm, IsSubImm, IsSubsImm, IsLogicalImm, IsMovz, IsMovk, IsMovn, IsLogicalReg, IsAddSubReg;
    if ws == [] {
    } else {
      assert ws[0] in ws;
      assert forall w :: w in ws[1..] ==> w in ws;
      SoundWordsAgree(ws[0], pc, h, r);
      var lines := Translate(ws[0], pc).lines;
      var h1 := Run(lines, h).h;
      RunAppend(lines, ProgramLines(ws[1..], pc + 4), h);
      ProgramsAgree(ws[1..], pc + 4, h1, Step(ws[0], r).value);
      TouchesProgram(h, h1, Run(ProgramLines(ws, pc), h).h, ws);
    }
  }
}
