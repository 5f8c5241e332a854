/** Branches: the label program `translate` produces follows the arm64 program
    from instruction to instruction, over runs of any length. */
module ControlFlow {
  import opened Wrappers
  import opened ArmFields
  import opened ArmModel
  import opened X86Lines
  import opened Translator
  import opened Simulation
  import opened Architecture

  // ---- the arm64 side (Arm ARM DDI 0487) ----

  datatype Nzcv = Nzcv(n: bool, z: bool, c: bool, v: bool)

  /** A program is a word at each instruction address. Flags are None after an
      instruction whose flags this model does not track. */
  datatype ArmState = ArmState(pc: int, r: Regs, nzcv: Option<Nzcv>)
  type Program = map<int, Word>

  predicate AtLeast(a: bv64, b: bv64) { a >= b }

  /** SUBS: C is "no borrow". */
  function SubFlags(a: bv64, b: bv64): Nzcv {
    var d := Difference(a, b);
    Nzcv(Negative(d), Zero(d), AtLeast(a, b), Negative(a) != Negative(b) && Negative(d) != Negative(a))
  }

  /** ConditionHolds: bits 3..1 choose the test, bit 0 inverts it except for 1111. */
  predicate ConditionHolds(c: bv4, f: Nzcv) {
    var base :=
      if c >> 1 == 0 then f.z else if c >> 1 == 1 then f.c else if c >> 1 == 2 then f.n else if c >> 1 == 3 then f.v
      else if c >> 1 == 4 then f.c && !f.z else if c >> 1 == 5 then f.n == f.v
      else if c >> 1 == 6 then f.n == f.v && !f.z else true;
    if c & 1 == 1 && c != 15 then !base else base
  }

  predicate IsCmpImm(w: Word) { Is64(w) && IsSubsImm(w) && Rd(w) == X31 }
  predicate IsCmpReg(w: Word) { Is64(w) && IsAddSubReg(w) && Opc(w) == 3 && Rd(w) == X31 }
  predicate SetsFlags(w: Word) {
    IsSubsImm(w) || (IsAddSubReg(w) && Opc(w) & 1 == 1) || ((IsLogicalReg(w) || IsLogicalImm(w)) && Opc(w) == 3)
  }

  predicate IsBranch(w: Word) { IsB(w) || IsBcond(w) || IsCbz(w) || IsTbz(w) }

  function Target(w: Word, pc: int): int {
    if IsB(w) then Branch26(w, pc) else if IsTbz(w) then Branch14(w, pc) else Branch19(w, pc)
  }

  /** Whether a branch is taken; None when it asks for unknown flags. */
  function Taken(w: Word, s: ArmState): Option<bool> {
    if IsB(w) then Some(true)
    else if IsBcond(w) then
      if CondField(w) >= 14 then Some(true)
      else if s.nzcv == None then None else Some(ConditionHolds(CondField(w), s.nzcv.value))
    else if IsCbz(w) then Some((Get(s.r, Rd(w)) == 0) != BranchIfSet(w))
    else Some(BitSet(Get(s.r, Rd(w)), TestedBit(w)) == BranchIfSet(w))
  }

  /** One instruction; None outside the program or where the model stops. */
  function ArmStep(code: Program, s: ArmState): Option<ArmState> {
    if s.pc !in code then None
    else
      var w := code[s.pc];
      if IsBranch(w) then
        var taken := Taken(w, s);
        if taken == None then None
        else Some(ArmState(if taken.value then Target(w, s.pc) else s.pc + 4, s.r, s.nzcv))
      else if IsCmpImm(w) then Some(ArmState(s.pc + 4, s.r, Some(SubFlags(Get(s.r, Rn(w)), Imm12(w)))))
      else if IsCmpReg(w) then
        if !Allocated(w) then None
        else Some(ArmState(s.pc + 4, s.r, Some(SubFlags(Get(s.r, Rn(w)), Operand2(w, Get(s.r, Rm(w)))))))
      else if !Is64(w) || ArchStep(w, s.r) == None then None
      else Some(ArmState(s.pc + 4, ArchStep(w, s.r).value, if SetsFlags(w) then None else s.nzcv))
  }

  function ArmRun(code: Program, s: ArmState, n: nat): Option<ArmState>
    decreases n
  {
    hide ArmStep;
    if n == 0 then Some(s)
    else
      match ArmStep(code, s)
      case None => None
      case Some(t) => ArmRun(code, t, n - 1)
  }

  // ---- the host side: a block of lines at the label of each instruction ----

  datatype HostState = HostState(at: int, h: Host)

  function HostStep(code: Program, s: HostState): Option<HostState> {
    if s.at !in code || !Translate(code[s.at], s.at).Code? then None
    else
      match Run(Translate(code[s.at], s.at).lines, s.h)
      case Fall(h) => Some(HostState(s.at + 4, h))
      case Goto(target, h) => Some(HostState(target, h))
      case Stuck => None
  }

  function HostRun(code: Program, s: HostState, n: nat): Option<HostState>
    decreases n
  {
    hide HostStep;
    if n == 0 then Some(s)
    else
      match HostStep(code, s)
      case None => None
      case Some(t) => HostRun(code, t, n - 1)
  }

  // ---- which programs ----

  /** CMP as the translator gets it right: register form neither shifted nor extended,
      immediate form with its shift bit clear. */
  predicate PlainCmp(w: Word) {
    && Rn(w) != X31
    && ((IsCmpImm(w) && w & 0x00400000 == 0) || (IsCmpReg(w) && !Bit21(w) && !IsShifted(w) && Rm(w) != X31))
  }

  /** Unsigned lower / higher-or-same, the two conditions the table swaps. */
  predicate CarryCondition(c: bv4) { c == 2 || c == 3 }

  predicate ProgramWord(w: Word) {
    if IsB(w) then true
    else if IsBcond(w) then !CarryCondition(CondField(w))
    else if IsCbz(w) then Is64(w) && Rd(w) != X31
    else if IsTbz(w) then Rd(w) != X31
    else PlainCmp(w) || (Covered(w) && Sound(w) && ReadAsWritten(w) && !IsCmpImm(w) && !IsCmpReg(w))
  }

  /** Every conditional branch comes straight after a compare or another
      conditional branch, and no branch enters between the two. */
  ghost predicate WellFormed(code: Program) {
    && (forall pc :: pc in code ==> ProgramWord(code[pc]))
    && (forall pc ::
       pc in code && IsBcond(code[pc]) ==> pc - 4 in code && (PlainCmp(code[pc - 4]) || IsBcond(code[pc - 4])))
    && (forall pc ::
       pc in code && IsBranch(code[pc]) && Target(code[pc], pc) in code ==> !IsBcond(code[Target(code[pc], pc)]))
  }

  ghost predicate FlagsMatch(f: Flags, g: Nzcv) {
    f == Flags(Some(g.z), Some(g.n), Some(!g.c), Some(g.v))
  }

  /** Same place, related registers, and matching flags where they are read. */
  ghost predicate Synchronised(code: Program, a: ArmState, s: HostState) {
    && a.pc == s.at
    && Related(s.h, a.r)
    && (a.pc in code && IsBcond(code[a.pc]) ==> a.nzcv.Some? && FlagsMatch(s.h.flags, a.nzcv.value))
  }

  // ---- conditions ----

  lemma Borrow(a: bv64, b: bv64)
    ensures Below(a, b) <==> !AtLeast(a, b)
  {
  }

  lemma CompareFlagsMatch(a: bv64, b: bv64)
    ensures FlagsMatch(CmpFlags(a, b), SubFlags(a, b))
  {
    Borrow(a, b);
    hide Negative, Difference, Zero, Below, AtLeast;
  }

  /** The condition table is right after a compare, except that lower and
      higher-or-same come out exactly swapped. */
  lemma ConditionTable(c: bv4, f: Flags, g: Nzcv)
    requires FlagsMatch(f, g)
    ensures match CondName(c)
      case Some(cc) => Holds(cc, f) == Some(ConditionHolds(c, g) != CarryCondition(c))
      case None => ConditionHolds(c, g)
  {
  }

  // ---- one block ----

  lemma BranchesNotSystem(w: Word)
    ensures IsB(w) || IsCbz(w) || IsTbz(w) ==> !SystemForm(w)
  {
  }

  lemma BcondNotSystem(w: Word)
    ensures IsBcond(w) ==> !SystemForm(w)
  {
  }

  lemma BranchesDisjoint(w: Word)
    ensures IsBcond(w) || IsCbz(w) || IsTbz(w) ==> !IsB(w) && !CallForm(w)
    ensures IsCbz(w) || IsTbz(w) ==> !IsBcond(w)
    ensures IsTbz(w) ==> !IsCbz(w)
  {
  }

  function TestLines(loc: Opnd, test: Line, jump: Line): seq<Line> {
    if loc.Slot? then [Mov(SCRATCH, loc), test, jump] else [test, jump]
  }

  /** The register a test reads once a spilled operand has been staged. */
  function Staged(loc: Opnd): Opnd { if loc.Slot? then SCRATCH else loc }

  function BranchCode(w: Word, pc: int): seq<Line> {
    var loc := Loc(Rd(w));
    if IsB(w) then [Jmp(Target(w, pc))]
    else if IsBcond(w) then
      if CondName(CondField(w)) == None then [Jmp(Target(w, pc))]
      else [Jcc(CondName(CondField(w)).value, Target(w, pc))]
    else if IsCbz(w) then TestLines(loc, Cmp(Staged(loc), Imm(0)), Jcc(if BranchIfSet(w) then NE else E, Target(w, pc)))
    else TestLines(loc, Bt(Staged(loc), TestedBit(w)), Jcc(if BranchIfSet(w) then B else AE, Target(w, pc)))
  }

  lemma BranchTranslates(w: Word, pc: int)
    requires IsBranch(w)
    ensures Translate(w, pc) == Code(BranchCode(w, pc))
  {
    BranchesNotSystem(w); BcondNotSystem(w); BranchesDisjoint(w);
    hide SystemForm, CallForm, IsB, IsBcond, IsCbz, IsTbz, Loc, Rd, Branch14, Branch19, Branch26, CondName, CondField;
    hide IsAddImm, IsSubImm, IsSubsImm, IsMovz, IsMovk, IsMovn, AdrForm, MemoryForm, LateForm, TestedBit, BranchIfSet;
  }

  function TestFlagsAfter(test: Line, v: bv64): Flags
    requires (test.Cmp? && test.b.Imm?) || (test.Bt? && test.bit < 64)
  {
    if test.Cmp? then CmpFlags(v, test.b.v) else UNKNOWN.(cf := Some(BitSet(v, test.bit)))
  }

  lemma TestLinesRun(h: Host, n: XReg, test: Line, jump: Line) returns (h1: Host)
    requires (test.Cmp? && test.b.Imm?) || (test.Bt? && test.bit < 64)
    requires test.a == Staged(Loc(n)) && jump.Jcc?
    ensures SameGuest(h, h1) && h1.flags == TestFlagsAfter(test, Read(h, Loc(n)))
    ensures Run(TestLines(Loc(n), test, jump), h) == Exec(jump, h1)
  {
    LocInjective(n, n);
    hide Loc, CmpFlags, BitSet, Holds;
    if Loc(n).Slot? { Stage(h, Loc(n)); }
    var h0 := if Loc(n).Slot? then Exec(Mov(SCRATCH, Loc(n)), h).h else h;
    h1 := Exec(test, h0).h;
    RunOne(jump, h1);
    assert [test, jump] == [test] + [jump];
    RunCons(test, [jump], h0);
    if Loc(n).Slot? {
      assert [Mov(SCRATCH, Loc(n)), test, jump] == [Mov(SCRATCH, Loc(n))] + [test, jump];
      RunCons(Mov(SCRATCH, Loc(n)), [test, jump], h);
    }
  }

  /** What a branch block does: go to the target or fall through, as asked. */
  ghost predicate BranchOutcome(w: Word, pc: int, h: Host, taken: bool, h1: Host) {
    && SameGuest(h, h1)
    && Run(BranchCode(w, pc), h) == if taken then Goto(Target(w, pc), h1) else Fall(h1)
  }

  lemma BcondRuns(w: Word, pc: int, h: Host, s: ArmState)
    requires IsBcond(w) && !CarryCondition(CondField(w))
    requires s.nzcv.Some? && FlagsMatch(h.flags, s.nzcv.value)
    ensures Taken(w, s).Some? && BranchOutcome(w, pc, h, Taken(w, s).value, h)
  {
    BranchesDisjoint(w);
    ConditionTable(CondField(w), h.flags, s.nzcv.value);
    hide CondName, CondField, IsB, IsBcond, IsCbz, IsTbz, ConditionHolds, Holds, Target, FlagsMatch, CarryCondition,
      Run, Loc, Rd, BranchIfSet, TestedBit;
    if CondName(CondField(w)) == None {
      GotoRuns(Jmp(Target(w, pc)), h);
    } else {
      GotoRuns(Jcc(CondName(CondField(w)).value, Target(w, pc)), h);
    }
  }

  /** B.HS and B.LO come out exactly the wrong way round: after a compare the
      emitted jump is taken just when the arm64 branch is not. */
  lemma CarryBranchesInverted(w: Word, pc: int, h: Host, s: ArmState)
    requires IsBcond(w) && CarryCondition(CondField(w))
    requires s.nzcv.Some? && FlagsMatch(h.flags, s.nzcv.value)
    ensures Taken(w, s).Some? && BranchOutcome(w, pc, h, !Taken(w, s).value, h)
  {
    BranchesDisjoint(w);
    ConditionTable(CondField(w), h.flags, s.nzcv.value);
    assert CondName(CondField(w)).Some?;
    hide CondName, CondField, IsB, IsBcond, IsCbz, IsTbz, ConditionHolds, Holds, Target, FlagsMatch, CarryCondition,
      Run, Loc, Rd, BranchIfSet, TestedBit;
    GotoRuns(Jcc(CondName(CondField(w)).value, Target(w, pc)), h);
  }

  lemma GotoRuns(l: Line, h: Host)
    requires l.Jmp? || (l.Jcc? && Holds(l.cc, h.flags).Some?)
    ensures Run([l], h) == if l.Jmp? || Holds(l.cc, h.flags).value then Goto(l.target, h) else Fall(h)
  {
    hide Holds;
    RunOne(l, h);
  }

  lemma ZeroTest(v: bv64)
    ensures Holds(E, CmpFlags(v, 0)) == Some(v == 0) && Holds(NE, CmpFlags(v, 0)) == Some(v != 0)
  {
    assert v - 0 == v;
  }

  lemma TestShapes(w: Word, pc: int, s: ArmState)
    requires IsCbz(w) || IsTbz(w)
    ensures IsCbz(w) ==> Taken(w, s) == Some((Get(s.r, Rd(w)) == 0) != BranchIfSet(w))
    ensures IsCbz(w) ==>
      BranchCode(w, pc)
      == TestLines(Loc(Rd(w)), Cmp(Staged(Loc(Rd(w))), Imm(0)), Jcc(if BranchIfSet(w) then NE else E, Target(w, pc)))
    ensures IsTbz(w) ==>
      Taken(w, s) == Some(BitSet(Get(s.r, Rd(w)), TestedBit(w)) == BranchIfSet(w)) && TestedBit(w) < 64
    ensures IsTbz(w) ==>
      BranchCode(w, pc)
      == TestLines(Loc(Rd(w)), Bt(Staged(Loc(Rd(w))), TestedBit(w)),
      Jcc(if BranchIfSet(w) then B else AE, Target(w, pc)))
  {
    BranchesDisjoint(w);
    assert TestedBit(w) < 64;
    hide Loc, Rd, IsB, IsCbz, IsBcond, IsTbz, Target, BranchIfSet, TestedBit, Get, BitSet, TestLines;
  }

  lemma RelatedReads(h: Host, r: Regs, n: XReg)
    requires Related(h, r) && n != X31
    ensures Read(h, Loc(n)) == Get(r, n)
  {
    hide Loc;
  }

  lemma CbzRuns(w: Word, pc: int, h: Host, s: ArmState) returns (h1: Host)
    requires IsCbz(w) && Rd(w) != X31 && Related(h, s.r)
    ensures Taken(w, s).Some? && BranchOutcome(w, pc, h, Taken(w, s).value, h1)
  {
    hide Holds, CmpFlags, Loc, Rd, IsCbz, IsTbz, Target, BranchIfSet, Related, Read, Get, TestLines, Run, SameGuest,
      Taken, BranchCode;
    TestShapes(w, pc, s);
    RelatedReads(h, s.r, Rd(w));
    ZeroTest(Get(s.r, Rd(w)));
    h1 := TestLinesRun(h, Rd(w), Cmp(Staged(Loc(Rd(w))), Imm(0)), Jcc(if BranchIfSet(w) then NE else E, Target(w, pc)));
  }

  lemma TbzRuns(w: Word, pc: int, h: Host, s: ArmState) returns (h1: Host)
    requires IsTbz(w) && Rd(w) != X31 && Related(h, s.r)
    ensures Taken(w, s).Some? && BranchOutcome(w, pc, h, Taken(w, s).value, h1)
  {
    hide BitSet, Loc, Rd, IsCbz, IsTbz, Target, BranchIfSet, TestedBit, Related, Read, Get, TestLines, Run, SameGuest,
      Taken, BranchCode;
    TestShapes(w, pc, s);
    RelatedReads(h, s.r, Rd(w));
    h1 := TestLinesRun(h, Rd(w), Bt(Staged(Loc(Rd(w))), TestedBit(w)),
      Jcc(if BranchIfSet(w) then B else AE, Target(w, pc)));
  }

  lemma BranchRuns(w: Word, pc: int, h: Host, s: ArmState) returns (h1: Host)
    requires IsBranch(w) && ProgramWord(w) && Related(h, s.r)
    requires IsBcond(w) ==> s.nzcv.Some? && FlagsMatch(h.flags, s.nzcv.value)
    ensures Taken(w, s).Some? && BranchOutcome(w, pc, h, Taken(w, s).value, h1)
    ensures IsBcond(w) ==> h1.flags == h.flags
  {
    BranchesDisjoint(w);
    if IsB(w) {
      RunOne(Jmp(Target(w, pc)), h);
      h1 := h;
      hide IsB, Target, IsBcond, IsCbz, IsTbz, Loc, Rd, Related, Is64;
    } else if IsBcond(w) {
      BcondRuns(w, pc, h, s);
      h1 := h;
      hide *;
    } else if IsCbz(w) {
      h1 := CbzRuns(w, pc, h, s);
      hide *;
    } else {
      h1 := TbzRuns(w, pc, h, s);
      hide *;
    }
  }

  /** A compare's right operand. */
  function CmpOperand(w: Word): Opnd { if IsCmpImm(w) then Imm(Imm12(w)) else Loc(Rm(w)) }

  lemma CmpShape(w: Word)
    requires PlainCmp(w)
    ensures DataForm(w) && !IsBranch(w)
    ensures DataCode(w) ==
      if Loc(Rn(w)).Slot? && CmpOperand(w).Slot? then [Mov(SCRATCH, Loc(Rn(w))), Cmp(SCRATCH, CmpOperand(w))]
      else [Cmp(Loc(Rn(w)), CmpOperand(w))]
  {
    DataClass(w); NotBranch(w); FormsDisjoint(w);
    hide Loc, ImmMask;
    if IsCmpImm(w) { PlainImmediate(w); }
    hide Imm12, IsAddImm, IsSubImm, IsSubsImm, IsMovz, IsMovk, IsMovn, IsLogicalImm, Rn, Rm, Rd;
  }

  lemma PlainImmediate(w: Word)
    requires w & 0x00400000 == 0
    ensures Imm12(w) == ((w >> 10) & 0xFFF) as bv64
  {
  }

  lemma CmpRuns(w: Word, h: Host) returns (h1: Host)
    requires PlainCmp(w)
    ensures DataForm(w) && Run(DataCode(w), h) == Fall(h1)
    ensures SameGuest(h, h1) && h1.flags == CmpFlags(Read(h, Loc(Rn(w))), Read(h, CmpOperand(w)))
  {
    CmpShape(w);
    LocInjective(Rn(w), Rn(w)); LocInjective(Rm(w), Rm(w));
    var a, b := Loc(Rn(w)), CmpOperand(w);
    hide Loc, DataCode, PlainCmp, DataForm, Rn, Rm, IsCmpImm, Imm12, CmpFlags;
    if a.Slot? && b.Slot? {
      Stage(h, a);
      h1 := Exec(Mov(SCRATCH, a), h).h;
      RunCons(Mov(SCRATCH, a), [Cmp(SCRATCH, b)], h);
      RunOne(Cmp(SCRATCH, b), h1);
      assert [Mov(SCRATCH, a), Cmp(SCRATCH, b)] == [Mov(SCRATCH, a)] + [Cmp(SCRATCH, b)];
      h1 := Exec(Cmp(SCRATCH, b), h1).h;
    } else {
      RunOne(Cmp(a, b), h);
      h1 := Exec(Cmp(a, b), h).h;
    }
  }

  lemma CmpStep(w: Word, r: Regs)
    requires PlainCmp(w)
    ensures IsCmpReg(w) ==> !IsCmpImm(w) && Operand2(w, Get(r, Rm(w))) == Get(r, Rm(w))
  {
    if IsCmpReg(w) { PlainOperand(w, Get(r, Rm(w))); }
    hide Rd, Rn, Rm, Get, Operand2, Bit21;
  }

  /** A compare leaves the host flags that stand for the arm64 ones. */
  lemma CmpSynchronises(w: Word, h: Host, r: Regs) returns (h1: Host)
    requires PlainCmp(w) && Related(h, r)
    ensures DataForm(w) && Run(DataCode(w), h) == Fall(h1)
    ensures Related(h1, r) && SameGuest(h, h1)
    ensures FlagsMatch(h1.flags, CmpNzcv(w, r))
  {
    h1 := CmpRuns(w, h);
    CmpStep(w, r);
    var b := Read(h, CmpOperand(w));
    CompareFlagsMatch(Get(r, Rn(w)), b);
    forall m: XReg ensures Read(h1, Loc(m)) == Read(h, Loc(m)) { SameGuestReads(h, h1, m); }
    assert Read(h, Loc(Rn(w))) == Get(r, Rn(w));
    hide Loc, DataCode, DataForm, Rd, Rn, Rm, Imm12, CmpFlags, FlagsMatch, SubFlags, Run, Operand2, Is64, IsSubsImm,
      IsAddSubReg;
  }

  // ---- one step and whole runs ----

  ghost predicate KeepsBase(h: Host, h': Host) {
    GetReg(h', R15) == GetReg(h, R15) && GetReg(h', RSP) == GetReg(h, RSP)
  }

  /** Both sides step, stay synchronised, and the host keeps r15 and rsp. */
  ghost predicate StepsTogether(code: Program, a: ArmState, s: HostState) {
    && ArmStep(code, a).Some? && HostStep(code, s).Some?
    && Synchronised(code, ArmStep(code, a).value, HostStep(code, s).value)
    && KeepsBase(s.h, HostStep(code, s).value.h)
  }

  lemma SameGuestRelated(h: Host, h1: Host, r: Regs)
    requires SameGuest(h, h1) && Related(h, r)
    ensures Related(h1, r) && KeepsBase(h, h1)
  {
    forall m: XReg ensures Read(h1, Loc(m)) == Read(h, Loc(m)) { SameGuestReads(h, h1, m); }
    hide Loc;
  }

  /** Falling into a conditional branch means having come from a compare or
      from another conditional branch. */
  lemma FallsIntoBcond(code: Program, pc: int)
    requires WellFormed(code) && pc in code && pc + 4 in code && IsBcond(code[pc + 4])
    ensures PlainCmp(code[pc]) || IsBcond(code[pc])
  {
    assert (pc + 4) - 4 == pc;
    hide PlainCmp, IsBcond, ProgramWord, IsBranch, Target;
  }

  lemma ArmBranches(code: Program, a: ArmState)
    requires a.pc in code && IsBranch(code[a.pc]) && Taken(code[a.pc], a).Some?
    ensures ArmStep(code, a) ==
      Some(ArmState(if Taken(code[a.pc], a).value then Target(code[a.pc], a.pc) else a.pc + 4, a.r, a.nzcv))
  {
    hide IsBranch, Taken, Target, Step;
  }

  lemma HostBranches(code: Program, s: HostState, taken: bool, h1: Host)
    requires s.at in code && IsBranch(code[s.at]) && BranchOutcome(code[s.at], s.at, s.h, taken, h1)
    ensures HostStep(code, s) == Some(HostState(if taken then Target(code[s.at], s.at) else s.at + 4, h1))
  {
    hide IsBranch, Translate, BranchCode, Target, Run;
    BranchTranslates(code[s.at], s.at);
  }

  lemma BranchStep(code: Program, a: ArmState, s: HostState)
    requires WellFormed(code) && Synchronised(code, a, s) && a.pc in code && IsBranch(code[a.pc])
    ensures StepsTogether(code, a, s)
  {
    hide ProgramWord;
    hide IsBcond, IsBranch, PlainCmp, Taken, Target, Translate, ArmStep, HostStep, Run, Related, FlagsMatch, KeepsBase,
      SameGuest;
    var w := code[a.pc];
    assert ProgramWord(w);
    var h1 := BranchRuns(w, a.pc, s.h, a);
    ArmBranches(code, a);
    HostBranches(code, s, Taken(w, a).value, h1);
    SameGuestRelated(s.h, h1, a.r);
    if !Taken(w, a).value && a.pc + 4 in code && IsBcond(code[a.pc + 4]) {
      FallsIntoBcond(code, a.pc);
      if PlainCmp(w) { CmpShape(w); }
    }
  }

  /** The flags the arm64 compare sets. */
  function CmpNzcv(w: Word, r: Regs): Nzcv {
    if IsCmpImm(w) then SubFlags(Get(r, Rn(w)), Imm12(w))
    else SubFlags(Get(r, Rn(w)), Operand2(w, Get(r, Rm(w))))
  }

  lemma ArmCompares(code: Program, a: ArmState)
    requires a.pc in code && PlainCmp(code[a.pc])
    ensures ArmStep(code, a) == Some(ArmState(a.pc + 4, a.r, Some(CmpNzcv(code[a.pc], a.r))))
  {
    CmpShape(code[a.pc]);
    CmpIsOneForm(code[a.pc]);
    if IsCmpReg(code[a.pc]) { CmpAllocated(code[a.pc]); }
    hide IsBranch, PlainCmp, SubFlags, IsCmpImm, IsCmpReg, Rn, Rm, Imm12, Operand2, DataCode, DataForm, Allocated;
  }

  lemma CmpAllocated(w: Word)
    requires PlainCmp(w) && IsCmpReg(w)
    ensures Allocated(w)
  {
    assert !IsCmpImm(w);
    hide Rd, Rn, Rm, IsAddSubReg, IsLogicalReg, IsSubsImm, Bit21;
  }

  lemma HostCompares(code: Program, s: HostState, h1: Host)
    requires s.at in code && PlainCmp(code[s.at]) && Run(DataCode(code[s.at]), s.h) == Fall(h1)
    ensures HostStep(code, s) == Some(HostState(s.at + 4, h1))
  {
    CmpShape(code[s.at]);
    TranslatesData(code[s.at], s.at);
    hide PlainCmp, Translate, DataCode, Run, DataForm, IsBranch;
  }

  lemma CompareStep(code: Program, a: ArmState, s: HostState)
    requires WellFormed(code) && Synchronised(code, a, s) && a.pc in code && PlainCmp(code[a.pc])
    ensures StepsTogether(code, a, s)
  {
    hide IsBcond, PlainCmp, ArmStep, HostStep, DataCode, Run, Related, FlagsMatch, KeepsBase, SameGuest, CmpNzcv,
      WellFormed;
    var h1 := CmpSynchronises(code[a.pc], s.h, a.r);
    ArmCompares(code, a);
    HostCompares(code, s, h1);
    SameGuestRelated(s.h, h1, a.r);
  }

  lemma CmpIsOneForm(w: Word)
    requires PlainCmp(w)
    ensures IsCmpImm(w) || IsCmpReg(w)
  {
  }

  lemma ArmMoves(code: Program, a: ArmState)
    requires a.pc in code && !IsBranch(code[a.pc]) && !IsCmpImm(code[a.pc]) && !IsCmpReg(code[a.pc]) && Is64(code[a.pc])
    requires ArchStep(code[a.pc], a.r).Some?
    ensures ArmStep(code, a) ==
      Some(ArmState(a.pc + 4, ArchStep(code[a.pc], a.r).value, if SetsFlags(code[a.pc]) then None else a.nzcv))
  {
    hide IsBranch, IsCmpImm, IsCmpReg, Is64, ArchStep, SetsFlags;
  }

  /** A data word keeps related states related, and r15 and rsp alone. */
  lemma HostMoves(code: Program, s: HostState, r: Regs)
    requires s.at in code && Covered(code[s.at]) && Sound(code[s.at]) && Related(s.h, r)
    ensures Step(code[s.at], r).Some? && HostStep(code, s).Some? && HostStep(code, s).value.at == s.at + 4
    ensures Related(HostStep(code, s).value.h, Step(code[s.at], r).value) && KeepsBase(s.h, HostStep(code, s).value.h)
  {
    var w := code[s.at];
    hide Translate, Step, Run, Related, Sound, Rd, DataForm;
    SoundWordsAgree(w, s.at, s.h, r);
    LocInjective(Rd(w), Rd(w));
    hide Loc;
  }

  lemma DataStep(code: Program, a: ArmState, s: HostState)
    requires WellFormed(code) && Synchronised(code, a, s) && a.pc in code
    requires !IsBranch(code[a.pc]) && !PlainCmp(code[a.pc])
    ensures StepsTogether(code, a, s)
  {
    assert ProgramWord(code[a.pc]);
    hide ProgramWord, PlainCmp, IsBranch, IsBcond, Covered, Sound, Step, Related, HostStep, ArmStep, KeepsBase,
      FlagsMatch, WellFormed, ArchStep, ReadAsWritten;
    DataWord(code[a.pc]);
    SoundIsRightlyRead(code[a.pc], a.r);
    HostMoves(code, s, a.r);
    ArmMoves(code, a);
    if a.pc + 4 in code && IsBcond(code[a.pc + 4]) {
      FallsIntoBcond(code, a.pc);
    }
  }

  lemma DataWord(w: Word)
    requires ProgramWord(w) && !IsBranch(w) && !PlainCmp(w)
    ensures Covered(w) && Sound(w) && ReadAsWritten(w)
    ensures !IsCmpImm(w) && !IsCmpReg(w) && !IsBcond(w) && Is64(w) && DataForm(w)
  {
    hide Sound, ReadAsWritten, IsB, IsBcond, IsCbz, IsTbz, IsCmpImm, IsCmpReg, PlainCmp, ReadsRegister31, ImmMask;
    hide IsAddImm, IsSubImm, IsSubsImm, IsMovz, IsMovk, IsMovn, IsLogicalImm, IsAddSubReg, IsLogicalReg;
  }

  lemma StepSynchronised(code: Program, a: ArmState, s: HostState)
    requires WellFormed(code) && Synchronised(code, a, s)
    ensures if a.pc in code then StepsTogether(code, a, s) else ArmStep(code, a) == None && HostStep(code, s) == None
  {
    if a.pc !in code {
    } else if IsBranch(code[a.pc]) {
      BranchStep(code, a, s);
    } else if PlainCmp(code[a.pc]) {
      CompareStep(code, a, s);
    } else {
      DataStep(code, a, s);
    }
    hide IsBranch, PlainCmp, StepsTogether, WellFormed;
  }

  /** Main result on control flow: for every well-formed program, every pair of
      synchronised states and every number of steps, the translated program is
      at the label of exactly the instruction the arm64 program has reached,
      with related registers, or both have left the program together. */
  lemma {:induction false} RunsAgree(code: Program, a: ArmState, s: HostState, n: nat)
    requires WellFormed(code) && Synchronised(code, a, s)
    ensures ArmRun(code, a, n).Some? <==> HostRun(code, s, n).Some?
    ensures ArmRun(code, a, n).Some? ==>
      && Synchronised(code, ArmRun(code, a, n).value, HostRun(code, s, n).value)
      && KeepsBase(s.h, HostRun(code, s, n).value.h)
    decreases n
  {
    hide ArmStep, HostStep, WellFormed, Synchronised, GetReg;
    if n > 0 {
      StepSynchronised(code, a, s);
      if a.pc in code {
        RunsAgree(code, ArmStep(code, a).value, HostStep(code, s).value, n - 1);
      }
    }
  }
}
