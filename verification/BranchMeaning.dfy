/** Which way each branch goes, said by the bytes of its word and the values
    compared, for the emitted lines and for the arm64 side alike. */
module BranchMeaning {
  import opened Wrappers
  import opened IntFacts
  import opened ArmFields
  import opened ArmModel
  import opened X86Lines
  import opened Translator
  import opened Simulation
  import opened ControlFlow
  import opened WordFields
  import BranchFields
  import WordSums
  import Bitmask
  import Machine = ArmMachine

  // ---- the sense of CBZ, CBNZ, TBZ and TBNZ ----

  /** Where a nineteen- or fourteen-bit branch word at an address points. */
  function Far19(n: nat, pc: int): int { pc + 4 * Machine.Signed(n / 0x20 % 0x8_0000, 0x4_0000) }
  function Far14(n: nat, pc: int): int { pc + 4 * Machine.Signed(n / 0x20 % 0x4000, 0x2000) }

  /** The emitted lines go to a target or fall out of the end. */
  ghost predicate Goes(w: Word, pc: int, h: Host, taken: bool, target: int) {
    && Translate(w, pc).Code?
    && var o := Run(Translate(w, pc).lines, h);
       if taken then o.Goto? && o.target == target else o.Fall?
  }

  lemma TestTop(w: Word)
    ensures Number(w) / 0x100_0000 == 0xB4 ==> IsCbz(w) && !BranchIfSet(w)
    ensures Number(w) / 0x100_0000 == 0xB5 ==> IsCbz(w) && BranchIfSet(w)
    ensures Number(w) / 0x100_0000 == 0x36 || Number(w) / 0x100_0000 == 0xB6 ==> IsTbz(w) && !BranchIfSet(w)
    ensures Number(w) / 0x100_0000 == 0x37 || Number(w) / 0x100_0000 == 0xB7 ==> IsTbz(w) && BranchIfSet(w)
  {
    hide *;
    BranchForms(w);
  }

  lemma TestTargets(w: Word, pc: int)
    ensures IsCbz(w) ==> Target(w, pc) == Far19(Number(w), pc)
    ensures IsTbz(w) ==> Target(w, pc) == Far14(Number(w), pc)
  {
    BranchesDisjoint(w);
    BranchFields.Fields(w as nat);
    hide IsB, IsBcond, IsCbz, IsTbz, Sextract;
  }

  lemma CbzGoes(w: Word, pc: int, h: Host, s: ArmState)
    requires IsCbz(w) && Rd(w) != X31 && Related(h, s.r)
    ensures Taken(w, s) == Some(Zero(Get(s.r, Rd(w))) != BranchIfSet(w))
    ensures Goes(w, pc, h, Taken(w, s).value, Target(w, pc))
  {
    assert IsBranch(w);
    hide *;
    var h1 := CbzRuns(w, pc, h, s);
    CbzShape(w, pc, s);
    BranchTranslates(w, pc);
    Outcomes(w, pc, h, Taken(w, s).value, h1);
  }

  lemma CbzShape(w: Word, pc: int, s: ArmState)
    requires IsCbz(w)
    ensures Taken(w, s) == Some(Zero(Get(s.r, Rd(w))) != BranchIfSet(w))
  {
    TestShapes(w, pc, s);
    hide Taken, Rd, Get, BranchIfSet;
  }

  lemma TbzGoes(w: Word, pc: int, h: Host, s: ArmState)
    requires IsTbz(w) && Rd(w) != X31 && Related(h, s.r)
    ensures Taken(w, s) == Some(BitSet(Get(s.r, Rd(w)), TestedBit(w)) == BranchIfSet(w))
    ensures Goes(w, pc, h, Taken(w, s).value, Target(w, pc))
  {
    assert IsBranch(w);
    hide *;
    var h1 := TbzRuns(w, pc, h, s);
    TestShapes(w, pc, s);
    BranchTranslates(w, pc);
    Outcomes(w, pc, h, Taken(w, s).value, h1);
  }

  lemma Outcomes(w: Word, pc: int, h: Host, taken: bool, h1: Host)
    requires BranchOutcome(w, pc, h, taken, h1) && Translate(w, pc) == Code(BranchCode(w, pc))
    ensures Goes(w, pc, h, taken, Target(w, pc))
  {
    hide Translate, BranchCode, Run, Target, SameGuest;
  }

  lemma FieldIs(w: Word)
    ensures Rd(w) == X(Number(w) % 0x20)
  {
    hide *;
    RegisterFields(w);
    assert Rd(w) == X(Rd(w).n);
  }

  lemma CompareSense(w: Word, pc: int, h: Host, s: ArmState, b: nat)
    requires Related(h, s.r) && Number(w) % 0x20 != 31 && Number(w) / 0x100_0000 == b && 0xB4 <= b <= 0xB5
    ensures IsCbz(w) && Taken(w, s) == Some(Zero(Get(s.r, X(Number(w) % 0x20))) == (b == 0xB4))
    ensures Goes(w, pc, h, Taken(w, s).value, Far19(Number(w), pc))
  {
    assert X31 == X(31);
    hide *;
    FieldIs(w);
    TestTop(w);
    TestTargets(w, pc);
    CbzGoes(w, pc, h, s);
  }

  /** CBZ and CBNZ on a 64-bit register: top byte 0xB4 goes to the target exactly
      when the register is zero, 0xB5 exactly when it is not. */
  lemma CompareBranchGoes(w: Word, pc: int, h: Host, s: ArmState)
    requires Related(h, s.r) && Number(w) % 0x20 != 31
    ensures Number(w) / 0x100_0000 == 0xB4 ==>
      Goes(w, pc, h, Get(s.r, X(Number(w) % 0x20)) == 0, Far19(Number(w), pc))
    ensures Number(w) / 0x100_0000 == 0xB5 ==>
      Goes(w, pc, h, Get(s.r, X(Number(w) % 0x20)) != 0, Far19(Number(w), pc))
  {
    var b, v := Number(w) / 0x100_0000, Get(s.r, X(Number(w) % 0x20));
    if 0xB4 <= b <= 0xB5 { CompareSense(w, pc, h, s, b); }
    hide Number, Get, Related, Goes, Far19, Taken;
  }

  lemma BitPieces(w: Word)
    ensures TestedBit(w) as nat == 0x20 * Number(Masked(w >> 31, 1)) + Number(Masked(w >> 19, 0x1F))
  {
  }

  /** The number of the tested bit: bit 31 above bits 23..19. */
  function Tested(n: nat): nat { 0x20 * (n / 0x8000_0000) + n / 0x8_0000 % 0x20 }

  /** Bit k of a number. */
  predicate BitOf(v: nat, k: nat) { v / Pow2(k) % 2 == 1 }

  lemma TestedBitNumber(w: Word)
    ensures TestedBit(w) as nat == Tested(Number(w)) < 64
  {
    assert TestedBit(w) as nat == Tested(Number(w)) by {
      assert Tested(Number(w)) == 0x20 * (Number(w) / 0x8000_0000) + Number(w) / 0x8_0000 % 0x20;
      hide *;
      BitPieces(w);
      NumberSmall(w);
      At19(w); At31(w);
    }
    NumberSmall(w);
    hide Number, TestedBit;
  }

  lemma NumberSmall(w: Word)
    ensures Number(w) / 0x8000_0000 % 2 == Number(w) / 0x8000_0000
  {
    hide Number;
    NumberBound(w);
  }

  lemma NumberBound(w: Word)
    ensures Number(w) < 0x1_0000_0000
  {
  }

  lemma ByteIs(k: bv8, i: nat)
    requires i < 64 && k as nat == i
    ensures k == Bitmask.Byte(i)
  {
    assert k as nat as bv8 == Bitmask.Byte(i) as nat as bv8;
  }

  lemma BitSetIs(v: bv64, k: bv8, i: nat)
    requires k < 64 && i < 64 && k as nat == i
    ensures BitSet(v, k) <==> BitOf(Value(v), i)
  {
    ByteIs(k, i);
    assert BitSet(v, k) <==> WordSums.HasBit(v, i) by { hide Bitmask.Byte; }
    hide BitSet, Value, WordSums.HasBit, Bitmask.Byte;
    WordSums.BitIsQuotient(v, i);
  }

  lemma BitSense(w: Word, pc: int, h: Host, s: ArmState, b: nat)
    requires Related(h, s.r) && Number(w) % 0x20 != 31 && Number(w) / 0x100_0000 == b
    requires b == 0x36 || b == 0xB6 || b == 0x37 || b == 0xB7
    ensures
      var n := Number(w);
      && IsTbz(w)
      && Taken(w, s) == Some(BitOf(Value(Get(s.r, X(n % 0x20))), Tested(n)) == (b == 0x37 || b == 0xB7))
      && Goes(w, pc, h, Taken(w, s).value, Far14(n, pc))
  {
    assert X31 == X(31);
    hide *;
    FieldIs(w);
    TestedBitNumber(w);
    BelowSixtyFour(TestedBit(w));
    BitSetIs(Get(s.r, Rd(w)), TestedBit(w), Tested(Number(w)));
    TestTop(w);
    TestTargets(w, pc);
    TbzGoes(w, pc, h, s);
  }

  lemma BelowSixtyFour(k: bv8)
    ensures k as nat < 64 ==> k < 64
  {
  }

  /** TBZ and TBNZ: top bytes 0x37 and 0xB7 go to the target exactly when the
      tested bit is set, 0x36 and 0xB6 exactly when it is clear. */
  lemma BitBranchGoes(w: Word, pc: int, h: Host, s: ArmState)
    requires Related(h, s.r) && Number(w) % 0x20 != 31
    ensures
      var n := Number(w);
      var isSet := BitOf(Value(Get(s.r, X(n % 0x20))), Tested(n));
      && (n / 0x100_0000 == 0x37 || n / 0x100_0000 == 0xB7 ==> Goes(w, pc, h, isSet, Far14(n, pc)))
      && (n / 0x100_0000 == 0x36 || n / 0x100_0000 == 0xB6 ==> Goes(w, pc, h, !isSet, Far14(n, pc)))
  {
    var n := Number(w);
    var b := n / 0x100_0000;
    hide *;
    if b == 0x36 || b == 0xB6 || b == 0x37 || b == 0xB7 { BitSense(w, pc, h, s, b); }
  }

  lemma NotBranchAlways(w: Word)
    ensures IsCbz(w) || IsTbz(w) ==> IsBranch(w)
  {
    hide IsB, IsBcond, IsCbz, IsTbz;
  }

  /** The arm64 side goes the same way: CBZ and CBNZ. */
  lemma CompareBranchSteps(code: Program, s: ArmState)
    requires s.pc in code
    ensures
      var n := Number(code[s.pc]);
      n / 0x100_0000 == 0xB4 ==>
        ArmStep(code, s) == Some(ArmState(if Get(s.r, X(n % 0x20)) == 0 then Far19(n, s.pc) else s.pc + 4, s.r, s.nzcv))
    ensures
      var n := Number(code[s.pc]);
      n / 0x100_0000 == 0xB5 ==>
        ArmStep(code, s) == Some(ArmState(if Get(s.r, X(n % 0x20)) != 0 then Far19(n, s.pc) else s.pc + 4, s.r, s.nzcv))
  {
    var w := code[s.pc];
    if IsCbz(w) { CbzShape(w, s.pc, s); CbzSteps(code, s); }
    TestTop(w);
    FieldIs(w);
    hide Number, Get, ArmStep, Far19, Taken, IsCbz, IsTbz, IsB, IsBcond, BranchIfSet, Rd;
  }

  lemma CbzSteps(code: Program, s: ArmState)
    requires s.pc in code && (IsCbz(code[s.pc]) || IsTbz(code[s.pc])) && Taken(code[s.pc], s).Some?
    ensures ArmStep(code, s) ==
      Some(ArmState(
        if !Taken(code[s.pc], s).value then s.pc + 4
        else if IsCbz(code[s.pc])
          then Far19(Number(code[s.pc]), s.pc) else Far14(Number(code[s.pc]), s.pc), s.r, s.nzcv))
  {
    var w := code[s.pc];
    hide *;
    NotBranchAlways(w);
    TestTargets(w, s.pc);
    ArmBranches(code, s);
  }

  /** The same of TBZ and TBNZ. */
  lemma BitBranchSteps(code: Program, s: ArmState)
    requires s.pc in code
    ensures
      var n := Number(code[s.pc]);
      var isSet := BitOf(Value(Get(s.r, X(n % 0x20))), Tested(n));
      && (n / 0x100_0000 == 0x37 || n / 0x100_0000 == 0xB7 ==>
            ArmStep(code, s) == Some(ArmState(if isSet then Far14(n, s.pc) else s.pc + 4, s.r, s.nzcv)))
      && (n / 0x100_0000 == 0x36 || n / 0x100_0000 == 0xB6 ==>
            ArmStep(code, s) == Some(ArmState(if !isSet then Far14(n, s.pc) else s.pc + 4, s.r, s.nzcv)))
  {
    var w := code[s.pc];
    var n := Number(w);
    hide *;
    TestTop(w);
    FieldIs(w);
    TestedBitNumber(w);
    BelowSixtyFour(TestedBit(w));
    BitSetIs(Get(s.r, Rd(w)), TestedBit(w), Tested(n));
    if IsTbz(w) { TbzShape(w, s); CbzSteps(code, s); BranchesDisjoint(w); }
  }

  lemma TbzShape(w: Word, s: ArmState)
    requires IsTbz(w)
    ensures TestedBit(w) < 64 && Taken(w, s) == Some(BitSet(Get(s.r, Rd(w)), TestedBit(w)) == BranchIfSet(w))
  {
    TestShapes(w, 0, s);
    hide Taken, Rd, Get, BranchIfSet, TestedBit, BitSet;
  }

  // ---- conditions after a compare, in the values compared ----

  /** The number a 64-bit word stands for in two's complement. */
  function Signed64(n: nat): int { if n < 0x8000_0000_0000_0000 then n else n - 0x1_0000_0000_0000_0000 }

  /** What condition c says of a compared with b. */
  predicate Compared(c: nat, a: nat, b: nat) {
    if c == 0 then a == b
    else if c == 1 then a != b
    else if c == 2 then a >= b
    else if c == 3 then a < b
    else if c == 4 then (a - b) % 0x1_0000_0000_0000_0000 >= 0x8000_0000_0000_0000
    else if c == 5 then (a - b) % 0x1_0000_0000_0000_0000 < 0x8000_0000_0000_0000
    else if c == 6 then !(-0x8000_0000_0000_0000 <= Signed64(a) - Signed64(b) < 0x8000_0000_0000_0000)
    else if c == 7 then -0x8000_0000_0000_0000 <= Signed64(a) - Signed64(b) < 0x8000_0000_0000_0000
    else if c == 8 then a > b
    else if c == 9 then a <= b
    else if c == 10 then Signed64(a) >= Signed64(b)
    else if c == 11 then Signed64(a) < Signed64(b)
    else if c == 12 then Signed64(a) > Signed64(b)
    else if c == 13 then Signed64(a) <= Signed64(b)
    else true
  }

  lemma SameBits(a: bv64, b: bv64)
    ensures Negative(a) <==> WordSums.Top(a)
    ensures Difference(a, b) == WordSums.Minus(a, b) && (AtLeast(a, b) <==> !WordSums.Less(a, b))
  {
  }

  lemma ZeroIs(v: bv64)
    ensures Zero(v) ==> Value(v) == 0
    ensures Value(v) == 0 ==> Zero(v)
  {
    WordSums.Nothing(v);
    hide Value;
  }

  predicate High(n: nat) { n >= 0x8000_0000_0000_0000 }
  function Gap(a: nat, b: nat): nat { (a - b) % 0x1_0000_0000_0000_0000 }

  /** The flags of a compare, in numbers. */
  lemma FlagsAre(a: bv64, b: bv64)
    ensures
      var x, y := Value(a), Value(b);
      SubFlags(a, b)
      == Nzcv(High(Gap(x, y)), Gap(x, y) == 0, x >= y, High(x) != High(y) && High(Gap(x, y)) != High(x))
  {
    var d := Difference(a, b);
    SameBits(a, b); SameBits(b, a); SameBits(d, d);
    WordSums.MinusIs(a, b);
    WordSums.TopIs(a); WordSums.TopIs(b); WordSums.TopIs(d);
    WordSums.LessIs(a, b);
    ZeroIs(d);
    hide Negative, Difference, Zero, AtLeast, Value, WordSums.Top, WordSums.Minus, WordSums.Less;
  }

  /** A condition by its number, over the four flags. */
  predicate ByNumber(c: nat, f: Nzcv) {
    if c == 0 then f.z else if c == 1 then !f.z else if c == 2 then f.c else if c == 3 then !f.c
    else if c == 4 then f.n else if c == 5 then !f.n else if c == 6 then f.v else if c == 7 then !f.v
    else if c == 8 then f.c && !f.z else if c == 9 then !(f.c && !f.z)
    else if c == 10 then f.n == f.v else if c == 11 then f.n != f.v
    else if c == 12 then f.n == f.v && !f.z else if c == 13 then !(f.n == f.v && !f.z)
    else true
  }

  lemma Nibble(c: bv4)
    ensures c as nat == 0 <==> c == 0
    ensures c as nat == 1 <==> c == 1
    ensures c as nat == 2 <==> c == 2
    ensures c as nat == 3 <==> c == 3
    ensures c as nat == 4 <==> c == 4
    ensures c as nat == 5 <==> c == 5
    ensures c as nat == 6 <==> c == 6
    ensures c as nat == 7 <==> c == 7
  {
  }

  lemma Nibble8(c: bv4)
    ensures c as nat == 8 <==> c == 8
    ensures c as nat == 9 <==> c == 9
    ensures c as nat == 10 <==> c == 10
    ensures c as nat == 11 <==> c == 11
    ensures c as nat == 12 <==> c == 12
    ensures c as nat == 13 <==> c == 13
    ensures c as nat == 14 <==> c == 14
    ensures c as nat == 15 <==> c == 15
  {
  }

  lemma LowConditions(c: bv4, f: Nzcv)
    requires c < 8
    ensures ConditionHolds(c, f) == ByNumber(c as nat, f)
  {
    Nibble(c);
  }

  lemma HighConditions(c: bv4, f: Nzcv)
    requires c >= 8
    ensures ConditionHolds(c, f) == ByNumber(c as nat, f)
  {
    Nibble(c); Nibble8(c);
  }

  lemma ComparedIs(c: nat, a: nat, b: nat, f: Nzcv)
    requires a < 0x1_0000_0000_0000_0000 && b < 0x1_0000_0000_0000_0000
    requires f == Nzcv(High(Gap(a, b)), Gap(a, b) == 0, a >= b, High(a) != High(b) && High(Gap(a, b)) != High(a))
    ensures ByNumber(c, f) == Compared(c, a, b)
  {
  }

  lemma NumberedIs(c: bv4, f: Nzcv)
    ensures ConditionHolds(c, f) == ByNumber(c as nat, f)
  {
    if c < 8 { LowConditions(c, f); } else { HighConditions(c, f); }
    hide ByNumber, ConditionHolds;
  }

  /** What each condition says of a compare's operands. */
  lemma ConditionMeans(c: bv4, a: bv64, b: bv64)
    ensures ConditionHolds(c, SubFlags(a, b)) == Compared(c as nat, Value(a), Value(b))
  {
    hide *;
    FlagsAre(a, b);
    WordSums.Small(a); WordSums.Small(b);
    NumberedIs(c, SubFlags(a, b));
    ComparedIs(c as nat, Value(a), Value(b), SubFlags(a, b));
  }

  // ---- B and B.cond ----

  lemma CondTop(w: Word)
    ensures Number(w) / 0x100_0000 == 0x54 && Number(w) / 0x10 % 2 == 0 ==> IsBcond(w)
    ensures Number(w) / 0x400_0000 == 5 ==> IsB(w)
    ensures CondField(w) as nat == Number(w) % 0x10
  {
    hide *;
    BranchForms(w);
  }

  lemma CondTarget(w: Word, pc: int)
    ensures IsBcond(w) ==> Target(w, pc) == Far19(Number(w), pc) && IsBranch(w)
    ensures IsB(w) ==> Target(w, pc) == pc + 4 * Machine.Signed(Number(w) % 0x400_0000, 0x200_0000) && IsBranch(w)
  {
    BranchesDisjoint(w);
    BranchFields.Fields(w as nat);
    hide IsB, IsBcond, IsCbz, IsTbz, Sextract;
  }

  lemma Carries(c: bv4)
    ensures CarryCondition(c) <==> c as nat == 2 || c as nat == 3
    ensures c >= 14 <==> c as nat >= 14
  {
    Nibble(c); Nibble8(c);
  }

  lemma BcondTaken(w: Word, s: ArmState, c: bv4)
    requires IsBcond(w) && s.nzcv.Some? && c == CondField(w)
    ensures Taken(w, s) == Some(ConditionHolds(c, s.nzcv.value))
  {
    BranchesDisjoint(w);
    AlwaysHolds(c, s.nzcv.value);
    hide IsB, IsBcond, CondField, ConditionHolds;
  }

  lemma AlwaysHolds(c: bv4, f: Nzcv)
    ensures c >= 14 ==> ConditionHolds(c, f)
  {
  }

  lemma BcondGoes(w: Word, pc: int, h: Host, s: ArmState)
    requires IsBcond(w) && s.nzcv.Some? && FlagsMatch(h.flags, s.nzcv.value) && IsBranch(w)
    ensures Taken(w, s).Some?
    ensures Goes(w, pc, h, Taken(w, s).value != CarryCondition(CondField(w)), Target(w, pc))
  {
    hide *;
    BranchTranslates(w, pc);
    if CarryCondition(CondField(w)) {
      CarryBranchesInverted(w, pc, h, s);
      Outcomes(w, pc, h, !Taken(w, s).value, h);
    } else {
      BcondRuns(w, pc, h, s);
      Outcomes(w, pc, h, Taken(w, s).value, h);
    }
  }

  /** B.cond after a compare of a with b: top byte 0x54 with bit 4 clear goes to the
      target exactly when condition n % 16 is what the values say, except that
      conditions 2 and 3 go exactly when it is not. */
  lemma ConditionBranchGoes(w: Word, pc: int, h: Host, a: bv64, b: bv64)
    requires Number(w) / 0x100_0000 == 0x54 && Number(w) / 0x10 % 2 == 0
    requires h.flags == CmpFlags(a, b)
    ensures Goes(w, pc, h, Compared(Number(w) % 0x10, Value(a), Value(b)) != (2 <= Number(w) % 0x10 <= 3),
      Far19(Number(w), pc))
  {
    hide *;
    var s := ArmState(pc, map[], Some(SubFlags(a, b)));
    CondTop(w);
    CondTarget(w, pc);
    Carries(CondField(w));
    CompareFlagsMatch(a, b);
    BcondGoes(w, pc, h, s);
    BcondTaken(w, s, CondField(w));
    ConditionMeans(CondField(w), a, b);
  }

  /** The arm64 side, without the exception. */
  lemma ConditionBranchSteps(code: Program, s: ArmState, a: bv64, b: bv64)
    requires s.pc in code && s.nzcv == Some(SubFlags(a, b))
    requires Number(code[s.pc]) / 0x100_0000 == 0x54 && Number(code[s.pc]) / 0x10 % 2 == 0
    ensures
      var n := Number(code[s.pc]);
      ArmStep(code, s)
        == Some(ArmState(if Compared(n % 0x10, Value(a), Value(b)) then Far19(n, s.pc) else s.pc + 4, s.r, s.nzcv))
  {
    hide *;
    var w := code[s.pc];
    CondTop(w);
    CondTarget(w, s.pc);
    BcondTaken(w, s, CondField(w));
    ConditionMeans(CondField(w), a, b);
    ArmBranches(code, s);
  }

  /** B: top six bits 000101, taken whatever the state, on both sides. */
  lemma BranchAlwaysGoes(w: Word, pc: int, h: Host)
    requires Number(w) / 0x400_0000 == 5
    ensures Goes(w, pc, h, true, pc + 4 * Machine.Signed(Number(w) % 0x400_0000, 0x200_0000))
  {
    hide *;
    CondTop(w);
    CondTarget(w, pc);
    BranchTranslates(w, pc);
    JumpRuns(w, pc, h);
    Outcomes(w, pc, h, true, h);
  }

  lemma JumpRuns(w: Word, pc: int, h: Host)
    requires IsB(w)
    ensures BranchOutcome(w, pc, h, true, h)
  {
    GotoRuns(Jmp(Target(w, pc)), h);
    hide IsB, Target, Loc, Rd, Run;
  }
}
