/** translate_word on arm64 registers from 16 up, whose cell lies beyond a signed
    displacement byte: exactly which words survive that. */
module HighRegisters {
  import opened Wrappers
  import opened ArmFields
  import opened ArmModel
  import opened X86Lines
  import opened Translator
  import opened Simulation
  import opened BitFacts
  import opened Encoding
  import opened Bench
  import Bitmask

  /** Register n's cell is out of reach; the bytes then use the cell 256 below. */
  predicate Far(n: XReg) { n.n >= 16 }
  function WrongCell(n: XReg): Offset { 8 * n.n - 256 }

  /** A move of a register to itself, which emits nothing. */
  predicate SameMove(w: Word) { MovAlias(w) && Rd(w) == Rm(w) }

  lemma SeenBeyond(disp: int)
    requires 128 <= disp < 256
    ensures Seen(disp) == disp - 256
  {
    SignedByteOf(disp);
    hide SignedByte;
  }

  lemma SeenLoc(n: XReg)
    requires n.n < 32
    ensures SeenOperand(Loc(n)) == if Far(n) then Slot(WrongCell(n)) else Loc(n)
    ensures Far(n) ==> Loc(n) == Slot(8 * n.n) && -128 <= WrongCell(n) < 0
    ensures Loc(n).Slot? ==> Loc(n).off >= 0
  {
    if Far(n) { SeenBeyond(8 * n.n); } else if Loc(n).Slot? { SeenExactly(8 * n.n); }
    hide Seen;
  }

  lemma {:induction false} EachAssembles(lines: seq<Line>, l: Line)
    requires AssembleAll(lines).Some? && l in lines
    ensures AssembleLine(l).Some?
    decreases |lines|
  {
    hide AssembleLine;
    if l != lines[0] { EachAssembles(lines[1..], l); }
  }

  // ---- how the bytes of a word go wrong ----

  /** Host states with every register zero but one, and one wrong cell set. */
  ghost function WithCell(h: Host, c: Offset, x: bv64): Host { h.(mem := h.mem[c := x]) }

  lemma CellIsFree(h: Host, r: Regs, c: Offset, x: bv64)
    requires Related(h, r) && c < 0
    ensures Related(WithCell(h, c, x), r)
  {
    forall n: XReg | n != X31 ensures Read(WithCell(h, c, x), Loc(n)) == Get(r, n) { Positive(n); }
    hide Loc, Get;
  }

  lemma Positive(n: XReg)
    ensures Loc(n).Slot? ==> Loc(n).off >= 0
  {
  }

  lemma BlankRelated()
    ensures Related(BLANK, map[])
  {
  }

  /** A foreign cell has changed. */
  lemma ForeignWrite(w: Word, bytes: Bytes, h: Host, r: Regs, h': Host, c: Offset)
    requires DataForm(w) && RunBytes(bytes, h) == Some(h') && c < 0 && GetMem(h', c) != GetMem(h, c)
    ensures !BytesAgree(w, bytes, h, r)
  {
    Positive(Rd(w));
    hide Loc, Rd, RunBytes, Step, Related, GetMem;
  }

  /** The destination has another value. */
  lemma WrongValue(w: Word, bytes: Bytes, h: Host, r: Regs, h': Host)
    requires DataForm(w) && RunBytes(bytes, h) == Some(h') && Rd(w) != X31
    requires Read(h', Loc(Rd(w))) != Get(Step(w, r).value, Rd(w))
    ensures !BytesAgree(w, bytes, h, r)
  {
    hide Loc, Rd, RunBytes, Step, OnlyTouches, Get, Read;
  }

  ghost predicate GoesAstray(w: Word)
    requires DataForm(w) && WordBytes(w).Code?
  {
    exists h: Host, r: Regs :: Related(h, r) && !BytesAgree(w, WordBytes(w).bytes, h, r)
  }

  /** Storing a value from elsewhere to a register out of reach. */
  lemma StoreMisses(n: XReg, src: Opnd, h: Host)
    requires Far(n) && n.n < 32 && !src.Slot?
    ensures Run(SeenLines([Mov(Loc(n), src)]), h) == Fall(h.(mem := h.mem[WrongCell(n) := Read(h, src)]))
  {
    SeenLoc(n);
    var l := Mov(Slot(WrongCell(n)), src);
    assert [Mov(Loc(n), src)][1..] == [];
    assert SeenLines([Mov(Loc(n), src)]) == [l];
    RunOne(l, h);
    hide Loc, Seen;
  }

  lemma StagedStoreMisses(n: XReg, src: Opnd, h: Host)
    requires Far(n) && n.n < 32
    ensures var o := Run(SeenLines([Mov(SCRATCH, src), Mov(Loc(n), SCRATCH)]), h);
      o.Fall? && GetMem(o.h, WrongCell(n)) == Read(h, SeenOperand(src))
  {
    var m, l := Mov(SCRATCH, src), Mov(Loc(n), SCRATCH);
    var h1 := Exec(SeenLine(m), h).h;
    assert [m, l][1..] == [l];
    assert SeenLines([m, l]) == [SeenLine(m)] + SeenLines([l]);
    RunCons(SeenLine(m), SeenLines([l]), h);
    StoreMisses(n, SCRATCH, h1);
    hide Loc, Seen, SeenLines, Run;
  }

  lemma MovnAstray(w: Word)
    requires Covered(w) && WordBytes(w).Code? && IsMovn(w) && Far(Rd(w))
    ensures GoesAstray(w)
  {
    hide DataForm, WordBytes, RunBytes, Run, SeenLines, DataCode, Related, BytesAgree, WideImm, Rd, Loc, Emitted;
    hide IsMovn, IsMovz, IsMovk;
    var n, v := Rd(w), !WideImm(w);
    var h := WithCell(BLANK, WrongCell(n), !v);
    MoveWideShape(w, h);
    FormsDisjoint(w);
    SeenLoc(n);
    BlankRelated();
    CellIsFree(BLANK, map[], WrongCell(n), !v);
    BytesRunWord(w, h);
    StagedStoreMisses(n, Imm(v), h);
    Flipped(v);
    ForeignWrite(w, WordBytes(w).bytes, h, map[], Run(SeenLines(DataCode(w)), h).h, WrongCell(n));
  }

  lemma Flipped(v: bv64)
    ensures !v != v
  {
  }

  lemma AliasCode(w: Word)
    requires DataForm(w) && MovAlias(w)
    ensures DataCode(w) == Move(Loc(Rd(w)), Loc(Rm(w))) && RegForm(w)
  {
    FormsDisjoint(w);
    hide Loc, Move, Rd, Rm, IsShifted, ImmMask, IsAddSubReg, IsLogicalReg;
  }

  lemma BlankReads(c: Offset, x: bv64, o: Opnd)
    requires !o.Imm? && o != Slot(c)
    ensures Read(WithCell(BLANK, c, x), o) == 0
  {
  }

  lemma AliasWrites(w: Word)
    requires Covered(w) && WordBytes(w).Code? && MovAlias(w) && Rd(w) != Rm(w) && Far(Rd(w))
    ensures GoesAstray(w)
  {
    var n, m := Rd(w), Rm(w);
    var h := WithCell(BLANK, WrongCell(n), 1);
    AliasCode(w);
    SeenLoc(n); SeenLoc(m);
    LocInjective(n, m);
    BlankRelated();
    CellIsFree(BLANK, map[], WrongCell(n), 1);
    BytesRunWord(w, h);
    BlankReads(WrongCell(n), 1, SeenOperand(Loc(m)));
    if Loc(m).Slot? { StagedStoreMisses(n, Loc(m), h); } else { StoreMisses(n, Loc(m), h); }
    ForeignWrite(w, WordBytes(w).bytes, h, map[], Run(SeenLines(DataCode(w)), h).h, WrongCell(n));
    hide DataForm, WordBytes, RunBytes, Run, SeenLines, DataCode, Related, BytesAgree, Rd, Rm, Loc, SeenOperand;
    hide IsShifted, ImmMask, IsAddSubReg, IsLogicalReg;
  }

  /** A register within reach that is moved from one out of reach gets the wrong cell. */
  lemma FarMove(d: XReg, m: XReg, h: Host)
    requires !Far(d) && Far(m) && m.n < 32
    ensures var o := Run(SeenLines(Move(Loc(d), Loc(m))), h);
      o.Fall? && Read(o.h, Loc(d)) == GetMem(h, WrongCell(m))
  {
    SeenLoc(d); SeenLoc(m);
    LocInjective(d, m);
    var wrong := Slot(WrongCell(m));
    var direct, staged := [Mov(Loc(d), Loc(m))], [Mov(SCRATCH, Loc(m)), Mov(Loc(d), SCRATCH)];
    assert direct[1..] == [] && staged[1..] == [staged[1]] && [staged[1]][1..] == [];
    assert Move(Loc(d), Loc(m)) == if Loc(d).Slot? then staged else direct;
    assert SeenLines(direct) == [Mov(Loc(d), wrong)];
    assert SeenLines([staged[1]]) == [staged[1]];
    assert SeenLines(staged) == [Mov(SCRATCH, wrong)] + [staged[1]];
    hide *;
    if Loc(d).Slot? { StagedLoads(d, wrong, h); } else { Loads(d, wrong, h); }
  }

  lemma Loads(d: XReg, src: Opnd, h: Host)
    requires !Loc(d).Slot?
    ensures var o := Run([Mov(Loc(d), src)], h); o.Fall? && Read(o.h, Loc(d)) == Read(h, src)
  {
    hide Loc, Run;
    MovLine(h, d, src);
    RunOne(Mov(Loc(d), src), h);
  }

  lemma StagedLoads(d: XReg, src: Opnd, h: Host)
    ensures var o := Run([Mov(SCRATCH, src)] + [Mov(Loc(d), SCRATCH)], h); o.Fall? && Read(o.h, Loc(d)) == Read(h, src)
  {
    hide Loc, Run;
    var b := Mov(Loc(d), SCRATCH);
    var h1 := Exec(Mov(SCRATCH, src), h).h;
    Stage(h, src);
    MovLine(h1, d, SCRATCH);
    RunCons(Mov(SCRATCH, src), [b], h);
    RunOne(b, h1);
  }

  lemma AliasReads(w: Word)
    requires Covered(w) && WordBytes(w).Code? && MovAlias(w) && !Far(Rd(w)) && Far(Rm(w))
    ensures GoesAstray(w)
  {
    var n, m := Rd(w), Rm(w);
    var h := WithCell(BLANK, WrongCell(m), 1);
    AliasCode(w);
    SeenLoc(m);
    BlankRelated();
    CellIsFree(BLANK, map[], WrongCell(m), 1);
    BytesRunWord(w, h);
    FarMove(n, m, h);
    StepRegister(w, map[]);
    MovAliasValue(w, 0);
    WrongValue(w, WordBytes(w).bytes, h, map[], Run(SeenLines(DataCode(w)), h).h);
    hide DataForm, WordBytes, RunBytes, Run, SeenLines, DataCode, Related, BytesAgree, Rd, Rm, Loc, SeenOperand, Move,
      Combine, Shifted, Step;
    hide IsShifted, ImmMask, IsAddSubReg, IsLogicalReg, ShiftKind, Imm6;
  }

  // ---- operations on a first operand out of reach ----

  /** Load the first operand, operate on it: what the bytes compute. */
  lemma FarOperand(op: AluOp, d: XReg, n: XReg, src: Opnd, h: Host)
    requires Loc(d).Reg? && Far(n) && n.n < 32 && !src.Slot? && src != SCRATCH
    ensures
      var o, x := Run(SeenLines([Mov(Loc(d), Loc(n)), Alu(op, Loc(d), src)]), h), GetMem(h, WrongCell(n));
      o.Fall? && Read(o.h, Loc(d)) == AluValue(op, x, if src == Loc(d) then x else Read(h, src))
  {
    hide *;
    LocInjective(d, d);
    SeenLoad(d, n);
    TwoSeen(Mov(Loc(d), Loc(n)), Alu(op, Loc(d), src));
    LoadOperate(op, d, WrongCell(n), src, h);
  }

  lemma SeenLoad(d: XReg, n: XReg)
    requires Loc(d).Reg? && Far(n) && n.n < 32
    ensures SeenLine(Mov(Loc(d), Loc(n))) == Mov(Loc(d), Slot(WrongCell(n)))
  {
    SeenLoc(n);
    hide Loc, Seen;
  }

  lemma TwoSeen(a: Line, b: Line)
    requires b.Alu?
    ensures SeenLines([a, b]) == [SeenLine(a)] + [b]
  {
    assert [a, b][1..] == [b] && [b][1..] == [];
    assert SeenLine(b) == b && SeenLines([b]) == [b];
    hide SeenLine;
  }

  lemma LoadOperate(op: AluOp, d: XReg, c: Offset, src: Opnd, h: Host)
    requires Loc(d).Reg? && Loc(d) != Opnd.Reg(R15) && !src.Slot?
    ensures
      var o, x := Run([Mov(Loc(d), Slot(c))] + [Alu(op, Loc(d), src)], h), GetMem(h, c);
      o.Fall? && Read(o.h, Loc(d)) == AluValue(op, x, if src == Loc(d) then x else Read(h, src))
  {
    hide Loc, Run, AluValue;
    var l, a := Mov(Loc(d), Slot(c)), Alu(op, Loc(d), src);
    RunCons(l, [a], h);
    RunOne(a, Exec(l, h).h);
  }

  lemma ImmediateCode(w: Word)
    requires DataForm(w) && ImmForm(w) && !IsSubsImm(w)
    ensures (Rd(w) == X31 && Opc(w) == 3 && IsLogicalImm(w) && DataCode(w) == [Test(Loc(Rn(w)), Imm(ImmOperand(w)))])
      || DataCode(w) == ImmediateOp(ImmOp(w), Rd(w), Rn(w), ImmOperand(w))
  {
    FormsDisjoint(w);
    ImmediateShape(w);
    hide Loc, WideImm, WideKeep, Imm12, RegisterForm, ImmediateOp, ImmMask, Rd, Rn, Rm, Opc, LogicalOp, ImmOp,
      ImmOperand;
    hide IsMovz, IsMovk, IsMovn, IsAddImm, IsSubImm, IsSubsImm, IsLogicalImm, IsAddSubReg, IsLogicalReg;
  }

  lemma AssemblesData(w: Word)
    requires DataForm(w) && WordBytes(w).Code?
    ensures AssembleAll(DataCode(w)).Some?
  {
    TranslatesData(w, 0);
    hide Translate, DataCode, DataForm, AssembleAll, EncodeAll;
  }

  /** What the emitters accept of a line. */
  lemma Accepted(l: Line)
    requires AssembleLine(l).Some?
    ensures l.Alu? ==> l.dst.Reg? && !l.src.Slot? && (l.src.Imm? ==> ToInt(l.src.v) < 0x8000_0000)
    ensures l.Mov? && l.src.Imm? ==> l.dst.Reg?
    ensures l.Cmp? ==> l.a.Reg? && !l.b.Slot?
    ensures !l.Test? && !l.Shift?
  {
    hide ToInt, GroupOf, PairOf;
  }

  lemma Last(front: seq<Line>, l: Line)
    requires AssembleAll(front + [l]).Some?
    ensures AssembleLine(l).Some?
  {
    hide AssembleAll, AssembleLine;
    assert (front + [l])[|front|] == l;
    EachAssembles(front + [l], l);
  }

  /** What the emitters accept of an immediate form. */
  lemma ImmediateAccepted(w: Word)
    requires Covered(w) && WordBytes(w).Code? && ImmForm(w) && !IsSubsImm(w)
    ensures DataCode(w) == ImmediateOp(ImmOp(w), Rd(w), Rn(w), ImmOperand(w))
    ensures Loc(Rd(w)).Reg? && ToInt(ImmOperand(w)) < 0x8000_0000
  {
    CoveredIsData(w);
    var op, d, n, v := ImmOp(w), Rd(w), Rn(w), ImmOperand(w);
    var test, code := [Test(Loc(n), Imm(v))], ImmediateOp(op, d, n, v);
    var copy, last := if d == n then [] else Move(Loc(d), Loc(n)), Alu(op, Loc(d), Imm(v));
    assert code == copy + [last] && test == [] + test;
    hide *;
    ImmediateCode(w);
    AssemblesData(w);
    if DataCode(w) == test { Last([], test[0]); Accepted(test[0]); }
    Last(copy, last);
    Accepted(last);
  }

  /** No AND immediate is zero. */
  lemma OperandNotZero(w: Word)
    requires DataForm(w) && ImmForm(w) && ImmOp(w) == And
    ensures ImmOperand(w) != 0
  {
    ImmediateShape(w);
    hide Imm12, Opc, IsAddImm, IsSubImm, IsSubsImm, IsLogicalImm, IsMovz, IsMovk, IsMovn, IsAddSubReg, IsLogicalReg;
    Bitmask.MaskNotZero(((w >> 22) & 1) as bv8, ((w >> 10) & 0x3F) as bv8, ((w >> 16) & 0x3F) as bv8);
  }

  lemma FirstMatters(op: AluOp, v: bv64)
    requires ToInt(v) < 0x8000_0000 && (op == And ==> v != 0)
    ensures AluValue(op, ONES, v) != AluValue(op, 0, v)
  {
    hide ToInt, AluValue;
    SmallWord(v);
    OnesMatter(op, ONES, 0, v);
  }

  lemma SmallWord(v: bv64)
    requires ToInt(v) < 0x8000_0000
    ensures v < 0x8000_0000
  {
  }

  lemma OnesMatter(op: AluOp, ones: bv64, zero: bv64, v: bv64)
    requires ones == ONES && zero == 0 && v < 0x8000_0000 && (op == And ==> v != 0)
    ensures AluValue(op, ones, v) != AluValue(op, zero, v)
  {
    hide AluValue;
    match op {
      case Add => AddMatters(ones, zero, v);
      case Or => OrMatters(ones, zero, v);
      case And => AndMatters(ones, zero, v);
      case Sub => SubMatters(ones, zero, v);
      case Xor => XorMatters(ones, zero, v);
    }
  }

  lemma AddMatters(ones: bv64, zero: bv64, v: bv64)
    requires ones == ONES && zero == 0
    ensures AluValue(Add, ones, v) != AluValue(Add, zero, v)
  {
    hide *;
    AluAdd(ones, v); AluAdd(zero, v);
    OnesAdd(ones, zero, v);
  }

  lemma SubMatters(ones: bv64, zero: bv64, v: bv64)
    requires ones == ONES && zero == 0
    ensures AluValue(Sub, ones, v) != AluValue(Sub, zero, v)
  {
    hide *;
    AluSub(ones, v); AluSub(zero, v);
    OnesSub(ones, zero, v);
  }

  lemma OrMatters(ones: bv64, zero: bv64, v: bv64)
    requires ones == ONES && zero == 0 && v < 0x8000_0000
    ensures AluValue(Or, ones, v) != AluValue(Or, zero, v)
  {
    hide *;
    AluOr(ones, v); AluOr(zero, v);
    OnesOr(ones, zero, v);
  }

  lemma AndMatters(ones: bv64, zero: bv64, v: bv64)
    requires ones == ONES && zero == 0 && v != 0
    ensures AluValue(And, ones, v) != AluValue(And, zero, v)
  {
    hide *;
    AluAnd(ones, v); AluAnd(zero, v);
    OnesAnd(ones, zero, v);
  }

  lemma XorMatters(ones: bv64, zero: bv64, v: bv64)
    requires ones == ONES && zero == 0
    ensures AluValue(Xor, ones, v) != AluValue(Xor, zero, v)
  {
    hide *;
    AluXor(ones, v); AluXor(zero, v);
    OnesXor(ones, zero, v);
  }

  lemma OnesAdd(ones: bv64, zero: bv64, v: bv64)
    requires ones == ONES && zero == 0
    ensures ones + v != zero + v
  {
  }

  lemma OnesSub(ones: bv64, zero: bv64, v: bv64)
    requires ones == ONES && zero == 0
    ensures ones - v != zero - v
  {
  }

  lemma OnesOr(ones: bv64, zero: bv64, v: bv64)
    requires ones == ONES && zero == 0 && v < 0x8000_0000
    ensures ones | v != zero | v
  {
  }

  lemma OnesAnd(ones: bv64, zero: bv64, v: bv64)
    requires ones == ONES && zero == 0 && v != 0
    ensures ones & v != zero & v
  {
  }

  lemma OnesXor(ones: bv64, zero: bv64, v: bv64)
    requires ones == ONES && zero == 0
    ensures ones ^ v != zero ^ v
  {
  }

  lemma ImmediateAstray(w: Word)
    requires Covered(w) && WordBytes(w).Code? && ImmForm(w) && !IsSubsImm(w) && Far(Rn(w))
    ensures GoesAstray(w)
  {
    hide DataForm, WordBytes, RunBytes, Run, SeenLines, DataCode, Related, BytesAgree, Rd, Rn, Loc, SeenOperand, Step,
      AluValue, ImmOp, ImmOperand;
    hide ImmForm, IsSubsImm, ToInt;
    var d, n, op, v := Rd(w), Rn(w), ImmOp(w), ImmOperand(w);
    var h := WithCell(BLANK, WrongCell(n), ONES);
    ImmediateAccepted(w);
    SeenLoc(n);
    LocInjective(d, d);
    BlankRelated();
    CellIsFree(BLANK, map[], WrongCell(n), ONES);
    BytesRunWord(w, h);
    assert DataCode(w) == [Mov(Loc(d), Loc(n)), Alu(op, Loc(d), Imm(v))];
    FarOperand(op, d, n, Imm(v), h);
    StepImmediate(w, map[]);
    if op == And { OperandNotZero(w); }
    FirstMatters(op, v);
    WrongValue(w, WordBytes(w).bytes, h, map[], Run(SeenLines(DataCode(w)), h).h);
  }

  /** What the emitters accept of a register form. */
  lemma RegisterAccepted(w: Word)
    requires Covered(w) && WordBytes(w).Code? && RegForm(w) && !MovAlias(w)
    ensures !IsShifted(w)
    ensures if FlagsOnly(w) then Loc(Rn(w)).Reg? && Loc(Rm(w)).Reg?
      else
        && Loc(Rd(w)).Reg? && Loc(Rm(w)).Reg?
        && DataCode(w)
           == (if Rd(w) != Rn(w) then Move(Loc(Rd(w)), Loc(Rn(w))) else []) + [Alu(RegOp(w), Loc(Rd(w)), Loc(Rm(w)))]
  {
    CoveredIsData(w);
    RegisterCode(w);
    AssemblesData(w);
    var rd, rn, rm := Rd(w), Rn(w), Rm(w);
    LocInjective(rd, rn); LocInjective(rm, rn); LocInjective(rn, rn);
    var copy := if rd != rn then Move(Loc(rd), Loc(rn)) else [];
    var staged, shift := Mov(SCRATCH, Loc(rm)), Shift(ShiftName(ShiftKind(w)), SCRATCH, Imm6(w));
    var viaScratch, direct := Alu(RegOp(w), Loc(rd), SCRATCH), Alu(RegOp(w), Loc(rd), Loc(rm));
    var saved, farCompare, compare := Mov(SCRATCH, Loc(rn)), Cmp(SCRATCH, Loc(rm)), Cmp(Loc(rn), Loc(rm));
    assert [staged, shift] + copy + [viaScratch] == [staged, shift] + (copy + [viaScratch]);
    assert [saved, farCompare] == [saved] + [farCompare] && [compare] == [] + [compare];
    assert copy + [staged, viaScratch] == copy + [staged] + [viaScratch];
    hide *;
    if IsShifted(w) {
      Second(staged, shift, copy + [viaScratch]);
      Accepted(shift);
    } else if FlagsOnly(w) {
      if Loc(rn).Slot? && Loc(rm).Slot? {
        Last([saved], farCompare); Accepted(farCompare);
      } else {
        Last([], compare); Accepted(compare);
      }
    } else if Loc(rd).Slot? && Loc(rm).Slot? {
      Last(copy + [staged], viaScratch); Accepted(viaScratch);
    } else {
      Last(copy, direct); Accepted(direct);
    }
  }

  lemma Second(a: Line, l: Line, rest: seq<Line>)
    requires AssembleAll([a, l] + rest).Some?
    ensures AssembleLine(l).Some?
  {
    hide AssembleAll, AssembleLine;
    assert ([a, l] + rest)[1] == l;
    EachAssembles([a, l] + rest, l);
  }

  lemma RegisterCode(w: Word)
    requires DataForm(w) && RegForm(w) && !MovAlias(w)
    ensures
      var rd, rn, rm := Rd(w), Rn(w), Rm(w);
      var copy := if rd != rn then Move(Loc(rd), Loc(rn)) else [];
      DataCode(w) ==
        if IsShifted(w) then
          [Mov(SCRATCH, Loc(rm)), Shift(ShiftName(ShiftKind(w)), SCRATCH, Imm6(w))] + copy
            + [Alu(RegOp(w), Loc(rd), SCRATCH)]
        else if FlagsOnly(w) then
          if Loc(rn).Slot? && Loc(rm).Slot? then [Mov(SCRATCH, Loc(rn)), Cmp(SCRATCH, Loc(rm))]
            else [Cmp(Loc(rn), Loc(rm))]
        else if Loc(rd).Slot? && Loc(rm).Slot? then copy + [Mov(SCRATCH, Loc(rm)), Alu(RegOp(w), Loc(rd), SCRATCH)]
        else copy + [Alu(RegOp(w), Loc(rd), Loc(rm))]
  {
    FormsDisjoint(w);
    hide Loc, Move, Rd, Rn, Rm, IsShifted, ShiftKind, ShiftName, Imm6, LogicalOp, AddSubOp, IsAddSubReg, IsLogicalReg;
    hide ImmMask, Opc;
  }

  /** Values on which a wrong first operand shows. */
  lemma CombineApart(w: Word)
    ensures Combine(w, ONES, Neutral(w)) != Combine(w, 0, Neutral(w))
    ensures Combine(w, 1, 1) != Combine(w, 0, 4)
  {
  }

  lemma UnshiftedValue(w: Word, v: bv64)
    requires !IsShifted(w)
    ensures Shifted(ShiftKind(w), Imm6(w), v) == v
  {
    ShiftedValues(ShiftKind(w), Imm6(w), v);
    hide Shifted, ShiftKind, Imm6;
  }

  lemma RegisterAstray(w: Word)
    requires Covered(w) && WordBytes(w).Code? && RegForm(w) && !MovAlias(w) && !FlagsOnly(w) && Far(Rn(w))
    ensures GoesAstray(w)
  {
    hide DataForm, WordBytes, RunBytes, Run, SeenLines, DataCode, Related, BytesAgree, Rd, Rn, Rm, Loc, SeenOperand,
      Step, AluValue, Combine, Neutral;
    hide RegForm, MovAlias, FlagsOnly, RegOp, HostWith, Opc, Shifted, ShiftKind, Imm6;
    var d, n, m := Rd(w), Rn(w), Rm(w);
    var x, b: bv64 := if m == d then 1 else ONES, if m == d then 4 else Neutral(w);
    var g, r := HostWith(m, b, m, b), RegsWith(m, b, m, b);
    var h := WithCell(g, WrongCell(n), x);
    RegisterAccepted(w);
    SeenLoc(n);
    LocInjective(d, m); LocInjective(m, n);
    WitnessRelated(m, b, m, b);
    WitnessReads(m, b, m, b);
    CellIsFree(g, r, WrongCell(n), x);
    BytesRunWord(w, h);
    assert DataCode(w) == [Mov(Loc(d), Loc(n)), Alu(RegOp(w), Loc(d), Loc(m))];
    FarOperand(RegOp(w), d, n, Loc(m), h);
    StepRegister(w, r);
    UnshiftedValue(w, b);
    OpMatches(w, x, x); OpMatches(w, x, b);
    CombineApart(w);
    WrongValue(w, WordBytes(w).bytes, h, r, Run(SeenLines(DataCode(w)), h).h);
  }

  lemma MoveWideAccepted(w: Word)
    requires Covered(w) && WordBytes(w).Code? && (IsMovz(w) || IsMovk(w) || IsMovn(w))
    ensures IsMovn(w) || Low(Rd(w))
  {
    CoveredIsData(w);
    FormsDisjoint(w);
    LocInjective(Rd(w), Rd(w));
    var move := Mov(Loc(Rd(w)), Imm(WideImm(w)));
    var keep, merge := Alu(And, Loc(Rd(w)), Imm(WideKeep(w))), Alu(Or, Loc(Rd(w)), Imm(WideImm(w)));
    assert [move] == [] + [move] && [keep, merge] == [keep] + [merge];
    assert !Low(Rd(w)) ==> Spilled(Rd(w));
    hide *;
    MoveWideShape(w, BLANK);
    AssemblesData(w);
    if IsMovz(w) { Last([], move); Accepted(move); } else if IsMovk(w) { Last([keep], merge); Accepted(merge); }
  }

  lemma CompareAccepted(w: Word)
    requires Covered(w) && WordBytes(w).Code? && IsSubsImm(w)
    ensures Low(Rn(w)) && AllPlain(DataCode(w)) && !RegForm(w)
  {
    CoveredIsData(w);
    FormsDisjoint(w);
    LocInjective(Rn(w), Rn(w));
    var compare := Cmp(Loc(Rn(w)), Imm(((w >> 10) & 0xFFF) as bv64));
    assert DataCode(w) == [] + [compare];
    assert !Low(Rn(w)) ==> Spilled(Rn(w));
    assert AllPlain([compare]);
    hide *;
    AssemblesData(w);
    Last([], compare);
    Accepted(compare);
  }

  /** A compare with a live destination out of reach is not Sound. */
  lemma FarCompare(w: Word)
    requires Covered(w) && WordBytes(w).Code? && IsSubsImm(w) && !LowFields(w)
    ensures AllPlain(DataCode(w)) && !Sound(w)
  {
    CompareAccepted(w);
    hide DataForm, WordBytes, AllPlain, Rd, Rn, Rm, IsSubsImm, IsAddSubReg, IsLogicalReg, IsAddImm, IsSubImm,
      IsLogicalImm, Imm12, IsShifted, ShiftKind, Opc;
  }

  lemma SameMovePlain(w: Word)
    requires Covered(w) && SameMove(w)
    ensures AllPlain(DataCode(w))
  {
    AliasCode(w);
    hide Loc, Rd, Rm, DataCode;
  }

  /** A word with a register out of reach, neither a bare compare nor a move to itself. */
  lemma FarGoesAstray(w: Word)
    requires Covered(w) && WordBytes(w).Code? && !LowFields(w) && !IsSubsImm(w) && !SameMove(w)
    ensures GoesAstray(w)
  {
    hide DataForm, WordBytes, Rd, Rn, Rm, IsAddSubReg, IsLogicalReg, IsAddImm, IsSubImm, IsSubsImm, IsLogicalImm,
      IsMovz, IsMovk, IsMovn;
    hide IsShifted, Opc, DataCode, Loc, GoesAstray, ReadsRegister31;
    FormsDisjoint(w);
    LocInjective(Rd(w), Rd(w)); LocInjective(Rn(w), Rn(w)); LocInjective(Rm(w), Rm(w));
    if MovAlias(w) {
      if Far(Rd(w)) { AliasWrites(w); } else { AliasReads(w); }
    } else if RegForm(w) {
      RegisterAccepted(w);
      RegisterAstray(w);
    } else if ImmForm(w) {
      ImmediateAccepted(w);
      ImmediateAstray(w);
    } else {
      IsMoveWide(w);
      MoveWideAccepted(w);
      MovnAstray(w);
    }
  }

  lemma IsMoveWide(w: Word)
    requires DataForm(w) && !RegForm(w) && !ImmForm(w)
    ensures IsMovz(w) || IsMovk(w) || IsMovn(w)
  {
    hide IsAddSubReg, IsLogicalReg, IsAddImm, IsSubImm, IsSubsImm, IsLogicalImm, IsMovz, IsMovk, IsMovn, ImmMask, Is64;
  }

  /** `translate_word` on any covered word: if it returns bytes, running them gives the
      oracle's registers from every related state exactly when the word is Sound and
      has its registers below 16, or moves a register to itself. */
  lemma TranslateWordIsExact(w: Word)
    requires Covered(w) && WordBytes(w).Code?
    ensures Sound(w) && (LowFields(w) || SameMove(w)) <==>
      forall h: Host, r: Regs :: Related(h, r) ==> BytesAgree(w, WordBytes(w).bytes, h, r)
  {
    CoveredIsData(w);
    hide *;
    if LowFields(w) {
      LowWordPlain(w);
      PlainWordsExact(w);
    } else if SameMove(w) {
      SameMovePlain(w);
      PlainWordsExact(w);
    } else if IsSubsImm(w) {
      FarCompare(w);
      PlainWordsExact(w);
    } else {
      FarGoesAstray(w);
      AstrayDisagrees(w);
    }
  }

  lemma AstrayDisagrees(w: Word)
    requires DataForm(w) && WordBytes(w).Code? && GoesAstray(w)
    ensures !forall h: Host, r: Regs :: Related(h, r) ==> BytesAgree(w, WordBytes(w).bytes, h, r)
  {
    hide DataForm, WordBytes, Related, BytesAgree;
  }

  lemma LowWordPlain(w: Word)
    requires Covered(w) && WordBytes(w).Code? && LowFields(w)
    ensures AllPlain(DataCode(w))
  {
    CoveredIsData(w);
    BytesRunWord(w, BLANK);
    hide *;
    DataPlain(w);
  }

  // ---- which words the driver returns bytes for ----

  predicate Housed(n: XReg) { n.n < 13 }

  /** The covered words whose lines every emitter takes: the destination of MOVZ, and
      of arithmetic, in a host register; no MOVK, whose mask is too wide; no shift;
      no TST; immediates below 2^31. */
  predicate Encodable(w: Word) {
    if IsMovn(w) || MovAlias(w) then true
    else if IsMovz(w) then Housed(Rd(w))
    else if IsMovk(w) then false
    else if IsSubsImm(w) then Housed(Rn(w))
    else if ImmForm(w) then Housed(Rd(w)) && ImmOperand(w) as nat < 0x8000_0000
    else !IsShifted(w) && Housed(Rm(w)) && Housed(if FlagsOnly(w) then Rn(w) else Rd(w))
  }

  lemma LocKind(n: XReg)
    ensures if Housed(n) then Loc(n).Reg? else Loc(n).Slot?
    ensures Housed(n) <==> !Spilled(n)
  {
  }

  lemma WideMask(w: Word)
    ensures WideKeep(w) >= 0x8000_0000
  {
  }

  lemma WideMaskRefused(w: Word, d: Opnd)
    ensures AssembleLine(Alu(And, d, Imm(WideKeep(w)))) == None
  {
    WideMask(w);
    hide WideKeep, GroupOf, PairOf;
  }

  lemma {:induction false} AssembleBoth(a: seq<Line>, b: seq<Line>)
    ensures AssembleAll(a + b).Some? <==> AssembleAll(a).Some? && AssembleAll(b).Some?
    decreases |a|
  {
    hide AssembleLine;
    if a == [] {
      assert a + b == b;
    } else {
      assert (a + b)[1..] == a[1..] + b;
      AssembleBoth(a[1..], b);
    }
  }

  lemma AssembleOne(l: Line)
    ensures AssembleAll([l]).Some? <==> AssembleLine(l).Some?
  {
    hide AssembleLine;
    assert [l][1..] == [];
  }

  /** A move never fails, whatever its ends. */
  lemma MovesAssemble(a: XReg, b: XReg)
    ensures AssembleAll(Move(Loc(a), Loc(b))).Some?
  {
    LocKind(a); LocKind(b);
    var x, y := Loc(a), Loc(b);
    hide Loc;
    AssembleOne(Mov(x, y)); AssembleOne(Mov(SCRATCH, y)); AssembleOne(Mov(x, SCRATCH));
    assert [Mov(SCRATCH, y), Mov(x, SCRATCH)] == [Mov(SCRATCH, y)] + [Mov(x, SCRATCH)];
    AssembleBoth([Mov(SCRATCH, y)], [Mov(x, SCRATCH)]);
    hide AssembleAll;
  }

  lemma BytesOf(w: Word, lines: seq<Line>)
    requires Translate(w, 0) == Translation.Code(lines)
    ensures WordBytes(w).Code? <==> AssembleAll(lines).Some? && EncodeAll(AssembleAll(lines).value + [Ret]).Some?
  {
    hide Translate, AssembleAll, EncodeAll;
  }

  lemma CodeExactly(w: Word)
    requires DataForm(w)
    ensures WordBytes(w).Code? <==> AssembleAll(DataCode(w)).Some?
  {
    hide *;
    TranslatesData(w, 0);
    BytesOf(w, DataCode(w));
    if AssembleAll(DataCode(w)).Some? { BytesRunLines(DataCode(w), BLANK); }
  }

  /** A copy of one register to another, then one operation on it. */
  lemma CopyThen(d: XReg, n: XReg, last: Line)
    ensures AssembleAll((if d == n then [] else Move(Loc(d), Loc(n))) + [last]).Some? <==> AssembleLine(last).Some?
  {
    var copy := if d == n then [] else Move(Loc(d), Loc(n));
    MovesAssemble(d, n);
    AssembleBoth(copy, [last]);
    AssembleOne(last);
    assert AssembleAll([]).Some?;
    hide AssembleAll, AssembleLine, Loc, Move;
  }

  lemma AluTaken(op: AluOp, d: XReg, src: Opnd)
    ensures AssembleLine(Alu(op, Loc(d), src)).Some? <==>
      Housed(d) && !src.Slot? && (src.Imm? ==> ToInt(src.v) < 0x8000_0000)
    ensures AssembleLine(Cmp(Loc(d), src)).Some? <==>
      Housed(d) && !src.Slot? && (src.Imm? ==> ToInt(src.v) < 0x8000_0000)
  {
    LocKind(d);
    hide Loc, ToInt, GroupOf, PairOf;
  }

  lemma ImmediateExactly(w: Word)
    requires DataForm(w) && ImmForm(w) && !IsSubsImm(w)
    ensures AssembleAll(DataCode(w)).Some? <==> Housed(Rd(w)) && ToInt(ImmOperand(w)) < 0x8000_0000
  {
    var op, d, n, v := ImmOp(w), Rd(w), Rn(w), ImmOperand(w);
    var test, last := Test(Loc(n), Imm(v)), Alu(op, Loc(d), Imm(v));
    assert AssembleLine(test) == None;
    assert ImmediateOp(op, d, n, v) == (if d == n then [] else Move(Loc(d), Loc(n))) + [last];
    assert Housed(d) ==> d != X31;
    hide *;
    ImmediateCode(w);
    AssembleOne(test);
    CopyThen(d, n, last);
    AluTaken(op, d, Imm(v));
  }

  lemma ShiftStops(a: Line, l: Line, rest: seq<Line>)
    requires l.Shift?
    ensures AssembleAll([a, l] + rest) == None
  {
    if AssembleAll([a, l] + rest).Some? {
      Second(a, l, rest);
      Accepted(l);
    }
  }

  lemma RegisterExactly(w: Word)
    requires DataForm(w) && RegForm(w) && !MovAlias(w)
    ensures AssembleAll(DataCode(w)).Some? <==>
      !IsShifted(w) && Housed(Rm(w)) && Housed(if FlagsOnly(w) then Rn(w) else Rd(w))
  {
    RegisterCode(w);
    var rd, rn, rm := Rd(w), Rn(w), Rm(w);
    var copy := if rd != rn then Move(Loc(rd), Loc(rn)) else [];
    var staged, shift := Mov(SCRATCH, Loc(rm)), Shift(ShiftName(ShiftKind(w)), SCRATCH, Imm6(w));
    var viaScratch, direct := Alu(RegOp(w), Loc(rd), SCRATCH), Alu(RegOp(w), Loc(rd), Loc(rm));
    var saved, farCompare, compare := Mov(SCRATCH, Loc(rn)), Cmp(SCRATCH, Loc(rm)), Cmp(Loc(rn), Loc(rm));
    assert [staged, shift] + copy + [viaScratch] == [staged, shift] + (copy + [viaScratch]);
    assert [saved, farCompare] == [saved] + [farCompare];
    assert copy + [staged, viaScratch] == copy + [staged] + [viaScratch];
    assert Loc(rm).Slot? ==> AssembleLine(farCompare) == None;
    assert copy == if rd == rn then [] else Move(Loc(rd), Loc(rn));
    hide *;
    LocKind(rd); LocKind(rn); LocKind(rm);
    AssembleOne(compare); AssembleOne(farCompare); AssembleOne(viaScratch);
    AluTaken(RegOp(w), rd, Loc(rm));
    AluTaken(RegOp(w), rn, Loc(rm));
    AluTaken(RegOp(w), rd, SCRATCH);
    if IsShifted(w) {
      ShiftStops(staged, shift, copy + [viaScratch]);
    } else if FlagsOnly(w) {
      AssembleBoth([saved], [farCompare]);
    } else if Loc(rd).Slot? && Loc(rm).Slot? {
      AssembleBoth(copy + [staged], [viaScratch]);
    } else {
      CopyThen(rd, rn, direct);
    }
  }

  lemma MovesInto(n: XReg, v: bv64)
    ensures AssembleLine(Mov(Loc(n), Imm(v))).Some? <==> Housed(n)
    ensures AssembleAll([Mov(SCRATCH, Imm(v)), Mov(Loc(n), SCRATCH)]).Some?
  {
    LocKind(n);
    var first, last := Mov(SCRATCH, Imm(v)), Mov(Loc(n), SCRATCH);
    hide Loc, AssembleAll;
    assert [first, last] == [first] + [last];
    AssembleOne(first); AssembleOne(last);
    AssembleBoth([first], [last]);
  }

  lemma MaskFirst(d: Opnd, k: bv64, v: bv64)
    requires AssembleLine(Alu(And, d, Imm(k))) == None
    ensures AssembleAll([Alu(And, d, Imm(k)), Alu(Or, d, Imm(v))]) == None
  {
    hide *;
    var keep, merge := Alu(And, d, Imm(k)), Alu(Or, d, Imm(v));
    assert [keep, merge] == [keep] + [merge];
    AssembleOne(keep);
    AssembleBoth([keep], [merge]);
  }

  lemma MoveWideExactly(w: Word)
    requires DataForm(w) && (IsMovz(w) || IsMovk(w) || IsMovn(w))
    ensures AssembleAll(DataCode(w)).Some? <==>
      if IsMovz(w) then Housed(Rd(w)) else !IsMovk(w)
  {
    hide *;
    MoveWideShape(w, BLANK);
    var n, d, v, not := Rd(w), Loc(Rd(w)), WideImm(w), !WideImm(w);
    LocKind(n);
    if IsMovz(w) {
      AssembleOne(Mov(d, Imm(v)));
      MovesInto(n, v);
    } else if IsMovk(w) {
      WideMaskRefused(w, d);
      MaskFirst(d, WideKeep(w), v);
    } else {
      AssembleOne(Mov(d, Imm(not)));
      MovesInto(n, not);
    }
  }

  lemma CompareExactly(w: Word)
    requires DataForm(w) && IsSubsImm(w)
    ensures AssembleAll(DataCode(w)).Some? <==> Housed(Rn(w))
  {
    var v := ((w >> 10) & 0xFFF) as bv64;
    FormsDisjoint(w);
    assert DataCode(w) == [Cmp(Loc(Rn(w)), Imm(v))];
    TwelveBitsSmall(w);
    hide *;
    AssembleOne(Cmp(Loc(Rn(w)), Imm(v)));
    AluTaken(Sub, Rn(w), Imm(v));
  }

  lemma TwelveBitsSmall(w: Word)
    ensures ToInt(((w >> 10) & 0xFFF) as bv64) < 0x8000_0000
  {
  }

  lemma EncodableCases(w: Word)
    requires DataForm(w)
    ensures Encodable(w) <==>
      if MovAlias(w) then true
      else if RegForm(w) then !IsShifted(w) && Housed(Rm(w)) && Housed(if FlagsOnly(w) then Rn(w) else Rd(w))
      else if IsSubsImm(w) then Housed(Rn(w))
      else if ImmForm(w) then Housed(Rd(w)) && ToInt(ImmOperand(w)) < 0x8000_0000
      else if IsMovz(w) then Housed(Rd(w)) else !IsMovk(w)
    ensures MovAlias(w) ==> RegForm(w)
  {
    FormsDisjoint(w);
    hide Rd, Rn, Rm, IsAddSubReg, IsLogicalReg, IsAddImm, IsSubImm, IsSubsImm, IsLogicalImm, IsMovz, IsMovk, IsMovn;
    hide IsShifted, Opc, ImmOperand, Housed, FlagsOnly, ImmMask, Is64;
  }

  /** `translate_word` returns bytes for exactly these words. */
  lemma BytesExactly(w: Word)
    requires Covered(w)
    ensures WordBytes(w).Code? <==> Encodable(w)
  {
    hide *;
    CoveredIsData(w);
    CodeExactly(w);
    EncodableCases(w);
    if MovAlias(w) {
      AliasCode(w);
      MovesAssemble(Rd(w), Rm(w));
    } else if RegForm(w) {
      RegisterExactly(w);
    } else if IsSubsImm(w) {
      CompareExactly(w);
    } else if ImmForm(w) {
      ImmediateExactly(w);
    } else {
      IsMoveWide(w);
      MoveWideExactly(w);
    }
  }
}
