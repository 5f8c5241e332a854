/** translate_word of monitor2.py: from one arm64 word to the x86 bytes the
    bench runs, and what running those bytes does. */
module Bench {
  import opened Wrappers
  import opened ArmFields
  import opened ArmModel
  import opened X86Lines
  import opened Translator
  import opened Simulation
  import opened Encoding
  import opened Assembler

  function GroupOf(op: AluOp): Group1 {
    match op case Add => GAdd case Or => GOr case And => GAnd case Sub => GSub case Xor => GXor
  }

  function PairOf(op: AluOp): Pair {
    match op case Add => PAdd case Or => POr case And => PAnd case Sub => PSub case Xor => PXor
  }

  function ToInt(v: bv64): nat { v as nat }

  /** `alu_imm` or `alu_rr`; a memory operand is no register name, so it raises,
      and so does an immediate of 2^31 or more. */
  function AssembleAlu(g: Group1, p: Pair, dst: Opnd, src: Opnd): Option<Instr> {
    if !dst.Reg? then None
    else if src.Imm? then if ToInt(src.v) < 0x8000_0000 then Some(AluImm(g, dst.r, ToInt(src.v))) else None
    else if src.Reg? then Some(AluRR(p, dst.r, src.r))
    else None
  }

  /** The instruction for one emitted line; None where the source raises. */
  function AssembleLine(l: Line): Option<Instr> {
    match l
    case Mov(dst, src) =>
      if src.Slot? then if dst.Reg? then Some(Load(dst.r, R15, src.off)) else None
      else if dst.Slot? then if src.Reg? then Some(Store(R15, src.r, dst.off)) else None
      else if !dst.Reg? then None
      else if src.Imm? then Some(MovImm(dst.r, src.v))
      else Some(MovRR(dst.r, src.r))
    case Alu(op, dst, src) => AssembleAlu(GroupOf(op), PairOf(op), dst, src)
    case Cmp(a, b) => AssembleAlu(GCmp, PCmp, a, b)
    case _ => None
  }

  /** All lines; None as soon as one is refused. */
  function AssembleAll(lines: seq<Line>): Option<seq<Instr>> {
    if lines == [] then Some([])
    else if AssembleLine(lines[0]) == None || AssembleAll(lines[1..]) == None then None
    else Some([AssembleLine(lines[0]).value] + AssembleAll(lines[1..]).value)
  }

  datatype Result = Code(bytes: Bytes) | Refused | Outside

  /** The bytes of a word: its lines assembled, then RET. Outside is a word
      whose translation this model leaves out. */
  function WordBytes(w: Word): Result {
    match Translate(w, 0)
    case NotModelled => Outside
    case Unsupported => Refused
    case Code(lines) =>
      if AssembleAll(lines) == None then Refused
      else
        match EncodeAll(AssembleAll(lines).value + [Ret])
        case None => Refused
        case Some(bytes) => Result.Code(bytes)
  }

  /** The instructions a line can become. */
  predicate Assembled(i: Instr) {
    match i
    case MovImm(_, _) => true
    case MovRR(_, _) => true
    case Load(_, base, _) => base == R15
    case Store(base, _, _) => base == R15
    case AluImm(_, _, n) => 0 <= n < 0x8000_0000
    case AluRR(_, _, _) => true
    case _ => false
  }

  lemma LineAssembles(l: Line)
    requires AssembleLine(l).Some?
    ensures Assembled(AssembleLine(l).value)
  {
    hide GroupOf, PairOf, ToInt;
  }

  lemma EmitterAccepts(i: Instr)
    requires Assembled(i)
    ensures Encode(i).Some?
  {
    hide Num, Le8, Le4, ModDirect, ModMem, RexW, RexWB, PairOpcode, Digit, Rex, PrefixB, Num8, RotateDigit;
    if i.Load? { SlotEncodes(Num(i.d), i.disp); }
    if i.Store? { SlotEncodes(Num(i.s), i.disp); }
  }

  /** No line's instruction is one the emitters refuse. */
  lemma AssembledEncodes(l: Line)
    requires AssembleLine(l).Some?
    ensures Encode(AssembleLine(l).value).Some?
  {
    hide AssembleLine, Encode;
    LineAssembles(l);
    EmitterAccepts(AssembleLine(l).value);
  }

  lemma SlotEncodes(reg: bv8, disp: int)
    ensures ModMem(reg, R15, disp).Some?
  {
    RegisterBase();
    hide Num;
  }

  lemma RegisterBase()
    ensures Num(R15) & 7 != 4
  {
  }

  lemma {:induction false} AssembleAllAt(lines: seq<Line>, k: nat)
    requires k < |lines|
    ensures AssembleAll(lines[..k + 1]) ==
      if AssembleAll(lines[..k]) == None || AssembleLine(lines[k]) == None then None
      else Some(AssembleAll(lines[..k]).value + [AssembleLine(lines[k]).value])
    ensures AssembleAll(lines[..k + 1]) == None ==> AssembleAll(lines) == None
    decreases k
  {
    hide AssembleLine;
    if k == 0 {
      assert lines[..1][1..] == [] && lines[..0] == [];
      if AssembleLine(lines[0]).Some? {
        var x := AssembleLine(lines[0]).value;
        assert [x] + [] == [x] == [] + [x];
      }
    } else {
      assert lines[..k + 1][1..] == lines[1..][..k];
      assert lines[..k][1..] == lines[1..][..k - 1];
      AssembleAllAt(lines[1..], k - 1);
      if AssembleAll(lines[..k + 1]).Some? {
        var x := AssembleLine(lines[0]).value;
        assert [x] + (AssembleAll(lines[1..][..k - 1]).value + [AssembleLine(lines[k]).value])
          == AssembleAll(lines[..k]).value + [AssembleLine(lines[k]).value];
      }
    }
  }

  /** The driver: one emitter call per line, RET, link. */
  method TranslateWord(w: Word) returns (r: Result)
    ensures r == WordBytes(w)
  {
    hide AssembleLine, AssembleAll, EncodeAll, Encode, Translate;
    var t := Translate(w, 0);
    if t.NotModelled? { return Outside; }
    if t.Unsupported? { return Refused; }
    var a := new Asm(0);
    var k := 0;
    AssembleNone();
    while k < |t.lines|
      invariant 0 <= k <= |t.lines| && a.Valid() && fresh(a) && a.fixups == []
      invariant AssembleAll(t.lines[..k]).Some? && EncodeAll(AssembleAll(t.lines[..k]).value) == Some(a.buf)
    {
      AssembleAllAt(t.lines, k);
      var i := AssembleLine(t.lines[k]);
      if i == None { return Refused; }
      AssembledEncodes(t.lines[k]);
      EncodeSnoc(AssembleAll(t.lines[..k]).value, i.value);
      var ok := a.Instruction(i.value);
      k := k + 1;
    }
    assert t.lines[..k] == t.lines;
    RetEncodes();
    EncodeSnoc(AssembleAll(t.lines).value, Ret);
    var ok := a.Instruction(Ret);
    var image := a.Link();
    return Result.Code(image.value);
  }

  lemma AssembleNone()
    ensures forall lines: seq<Line> :: AssembleAll(lines[..0]) == Some([])
    ensures EncodeAll([]) == Some([])
  {
  }

  lemma RetEncodes()
    ensures Encode(Ret).Some?
  {
  }

  // ---- running the bytes ----

  /** A 32-bit immediate is sign-extended to 64 bits. */
  function Extend(n: int): bv64 { (n % 0x1_0000_0000_0000_0000) as bv64 }

  function AluOfGroup(g: Group1): Option<AluOp> {
    match g
    case GAdd => Some(Add) case GOr => Some(Or) case GAnd => Some(And) case GSub => Some(Sub) case GXor => Some(Xor)
    case _ => None
  }

  function AluOfPair(p: Pair): Option<AluOp> {
    match p
    case PAdd => Some(Add) case POr => Some(Or) case PAnd => Some(And) case PSub => Some(Sub) case PXor => Some(Xor)
    case PCmp => None
  }

  /** What a decoded instruction does, for those that act on registers and the
      register file only. */
  function Meaning(i: Instr): Option<Line> {
    match i
    case MovImm(r, imm) => Some(Mov(Opnd.Reg(r), Imm(imm)))
    case MovRR(d, s) => Some(Mov(Opnd.Reg(d), Opnd.Reg(s)))
    case Load(d, base, disp) => if base == R15 then Some(Mov(Opnd.Reg(d), Slot(disp))) else None
    case Store(base, s, disp) => if base == R15 then Some(Mov(Slot(disp), Opnd.Reg(s))) else None
    case AluImm(g, r, n) =>
      if g == GCmp then Some(Cmp(Opnd.Reg(r), Imm(Extend(n))))
      else if AluOfGroup(g).Some? then Some(Alu(AluOfGroup(g).value, Opnd.Reg(r), Imm(Extend(n)))) else None
    case AluRR(p, d, s) =>
      if p == PCmp then Some(Cmp(Opnd.Reg(d), Opnd.Reg(s)))
      else if AluOfPair(p).Some? then Some(Alu(AluOfPair(p).value, Opnd.Reg(d), Opnd.Reg(s))) else None
    case _ => None
  }

  /** Fetch, decode and execute up to RET. */
  function RunBytes(s: Bytes, h: Host): Option<Host>
    decreases |s|
  {
    match Decode(s)
    case None => None
    case Some(d) =>
      if d.i == Ret then Some(h)
      else if !(0 < d.len <= |s|) || Meaning(d.i) == None || !Exec(Meaning(d.i).value, h).Fall? then None
      else RunBytes(s[d.len..], Exec(Meaning(d.i).value, h).h)
  }

  lemma Modulo(n: nat)
    requires n < 0x8000_0000
    ensures n % 0x1_0000_0000_0000_0000 == n
  {
  }

  lemma ThroughInt(v: bv64)
    ensures (v as int) as bv64 == v
  {
  }

  lemma ExtendSmall(v: bv64)
    requires ToInt(v) < 0x8000_0000
    ensures Extend(ToInt(v)) == v
  {
    Modulo(v as nat);
    ThroughInt(v);
  }

  function SeenOperand(o: Opnd): Opnd { if o.Slot? then Slot(Seen(o.off)) else o }

  /** An assembled line as the processor reads it: its offset wrapped to one byte. */
  function SeenLine(l: Line): Line {
    match l case Mov(dst, src) => Mov(SeenOperand(dst), SeenOperand(src)) case _ => l
  }

  function SeenLines(lines: seq<Line>): seq<Line> {
    if lines == [] then [] else [SeenLine(lines[0])] + SeenLines(lines[1..])
  }

  lemma AluMeans(op: AluOp)
    ensures AluOfGroup(GroupOf(op)) == Some(op) && GroupOf(op) != GCmp
    ensures AluOfPair(PairOf(op)) == Some(op) && PairOf(op) != PCmp
  {
  }

  lemma MovMeans(l: Line)
    requires l.Mov? && AssembleLine(l).Some?
    ensures Meaning(AsRead(AssembleLine(l).value)) == Some(SeenLine(l)) && AssembleLine(l).value != Ret
  {
    hide Seen;
  }

  lemma ArithmeticMeans(l: Line)
    requires (l.Alu? || l.Cmp?) && AssembleLine(l).Some?
    ensures Meaning(AsRead(AssembleLine(l).value)) == Some(l) && AssembleLine(l).value != Ret
  {
    hide Extend, ToInt, GroupOf, PairOf, AluOfGroup, AluOfPair;
    var src := if l.Alu? then l.src else l.b;
    if src.Imm? { ExtendSmall(src.v); }
    if l.Alu? { AluMeans(l.op); }
  }

  /** An assembled line, read back, means the line with its offset wrapped. */
  lemma AssembledMeans(l: Line)
    requires AssembleLine(l).Some?
    ensures Meaning(AsRead(AssembleLine(l).value)) == Some(SeenLine(l)) && AssembleLine(l).value != Ret
  {
    hide Meaning, AsRead, SeenOperand;
    if l.Mov? { MovMeans(l); } else { ArithmeticMeans(l); }
  }

  /** The bytes of any list of lines do what the lines say with every offset
      wrapped to one byte. */
  lemma {:induction false} BytesRunLines(lines: seq<Line>, h: Host)
    requires AssembleAll(lines).Some?
    ensures EncodeAll(AssembleAll(lines).value + [Ret]).Some?
    ensures RunBytes(EncodeAll(AssembleAll(lines).value + [Ret]).value, h)
      == if Run(SeenLines(lines), h).Fall? then Some(Run(SeenLines(lines), h).h) else None
    decreases |lines|
  {
    hide AssembleLine, Encode, Decode, Exec, Meaning, AsRead, SeenLine;
    RetEncodes();
    var code := AssembleAll(lines).value;
    if lines == [] {
      assert code + [Ret] == [Ret] && [Ret][1..] == [];
      ReadsBack(Ret, []);
      RetReadsRet();
    } else {
      var i, l := AssembleLine(lines[0]).value, SeenLine(lines[0]);
      AssembledEncodes(lines[0]);
      AssembledMeans(lines[0]);
      var tail := AssembleAll(lines[1..]).value + [Ret];
      assert code + [Ret] == [i] + tail;
      assert ([i] + tail)[1..] == tail;
      assert SeenLines(lines)[0] == l && SeenLines(lines)[1..] == SeenLines(lines[1..]);
      NoJump(lines[0], h);
      BytesRunLines(lines[1..], if Exec(l, h).Fall? then Exec(l, h).h else h);
      var rest := EncodeAll(tail).value;
      ReadsBack(i, rest);
      AsReadRet(i);
      assert (Encode(i).value + rest)[|Encode(i).value|..] == rest;
    }
  }

  lemma RetReadsRet()
    ensures AsRead(Ret) == Ret
  {
  }

  lemma AsReadRet(i: Instr)
    requires i != Ret
    ensures AsRead(i) != Ret
  {
  }

  lemma NoJump(l: Line, h: Host)
    requires AssembleLine(l).Some?
    ensures !Exec(SeenLine(l), h).Goto?
  {
  }

  // ---- translate_word either refuses or is right ----

  predicate Low(n: XReg) { n.n < 16 }

  /** Only compares: Rd is the zero register and is not written. */
  predicate ComparesOnly(w: Word) {
    Rd(w) == X31 && (IsSubsImm(w) || (RegForm(w) && !IsShifted(w) && !MovAlias(w) && Opc(w) & 1 != 0))
  }

  /** The register fields in use are below 16, so every cell lies within a
      signed byte of r15. */
  predicate LowFields(w: Word) {
    && (Low(Rd(w)) || ComparesOnly(w))
    && (ImmForm(w) ==> Low(Rn(w)))
    && (RegForm(w) ==> Low(Rm(w)) && (Low(Rn(w)) || MovAlias(w)))
  }

  /** Every register-file offset in the line survives a one-byte displacement. */
  predicate Plain(l: Line) {
    match l
    case Mov(dst, src) => (dst.Slot? ==> -128 <= dst.off <= 127) && (src.Slot? ==> -128 <= src.off <= 127)
    case _ => true
  }
  predicate AllPlain(lines: seq<Line>) { forall l :: l in lines ==> Plain(l) }

  lemma {:induction false} PlainIsSeen(lines: seq<Line>)
    requires AllPlain(lines)
    ensures SeenLines(lines) == lines
    decreases |lines|
  {
    if lines != [] {
      assert lines[0] in lines && forall l :: l in lines[1..] ==> l in lines;
      PlainIsSeen(lines[1..]);
      if lines[0].Mov? && lines[0].dst.Slot? { SeenExactly(lines[0].dst.off); }
      if lines[0].Mov? && lines[0].src.Slot? { SeenExactly(lines[0].src.off); }
      hide Seen;
    }
  }

  lemma AppendPlain(a: seq<Line>, b: seq<Line>)
    requires AllPlain(a) && AllPlain(b)
    ensures AllPlain(a + b)
  {
  }

  lemma MovePlain(n: XReg, m: XReg)
    requires Low(n) && Low(m)
    ensures AllPlain(Move(Loc(n), Loc(m)))
  {
    LocOffset(n); LocOffset(m);
    hide Loc;
  }

  lemma LocOffset(n: XReg)
    ensures Loc(n).Slot? ==> Loc(n).off == 8 * n.n
    ensures !Loc(n).Imm?
  {
  }

  lemma ImmediatePlain(op: AluOp, rd: XReg, rn: XReg, imm: bv64)
    requires Low(rd) && Low(rn)
    ensures AllPlain(ImmediateOp(op, rd, rn, imm))
  {
    MovePlain(rd, rn);
    hide Loc, Move;
    AppendPlain(if rd == rn then [] else Move(Loc(rd), Loc(rn)), [Alu(op, Loc(rd), Imm(imm))]);
  }

  lemma RegisterPlain(w: Word)
    requires RegForm(w) && LowFields(w)
    ensures AllPlain(RegisterForm(w))
  {
    var rd, rn, rm := Rd(w), Rn(w), Rm(w);
    var op := if IsLogicalReg(w) then LogicalOp(Opc(w)) else AddSubOp(Opc(w));
    var copy := if rd != rn then Move(Loc(rd), Loc(rn)) else [];
    LocOffset(rm); LocOffset(rn);
    FlagBit(Opc(w));
    if Low(rd) && Low(rn) {
      MovePlain(rd, rn);
      var front := [Mov(SCRATCH, Loc(rm)), Shift(ShiftName(ShiftKind(w)), SCRATCH, Imm6(w))];
      AppendPlain(front, copy);
      AppendPlain(front + copy, [Alu(op, Loc(rd), SCRATCH)]);
      AppendPlain(copy, [Mov(SCRATCH, Loc(rm)), Alu(op, Loc(rd), SCRATCH)]);
      AppendPlain(copy, [Alu(op, Loc(rd), Loc(rm))]);
    }
    if Low(rd) { MovePlain(rd, rm); }
    hide Loc, Move, Rd, Rn, Rm, IsShifted, ShiftKind, ShiftName, Imm6, LogicalOp, AddSubOp, IsAddSubReg, IsLogicalReg;
    hide IsAddImm, IsSubImm, IsSubsImm, IsLogicalImm, Opc;
  }

  lemma DataPlain(w: Word)
    requires DataForm(w) && LowFields(w)
    requires AssembleAll(DataCode(w)).Some?
    ensures AllPlain(DataCode(w))
  {
    hide Loc, Move, Rd, Rn, Rm, ImmediateOp, RegisterForm, LogicalOp, AddSubOp, IsAddSubReg, IsLogicalReg, ImmMask,
      WideImm, WideKeep, Imm12;
    hide IsAddImm, IsSubImm, IsSubsImm, IsLogicalImm, IsMovz, IsMovk, IsMovn, Opc, AssembleAll;
    FormsDisjoint(w);
    if RegForm(w) {
      RegisterPlain(w);
    } else if ImmForm(w) && Low(Rd(w)) {
      ImmediatePlain(Add, Rd(w), Rn(w), Imm12(w));
      ImmediatePlain(Sub, Rd(w), Rn(w), Imm12(w));
      if IsLogicalImm(w) { ImmediatePlain(LogicalOp(Opc(w)), Rd(w), Rn(w), ImmMask(w).value); }
    }
    LocOffset(Rd(w));
  }

  /** Running the bytes leaves the guest as the oracle says. */
  ghost predicate BytesAgree(w: Word, bytes: Bytes, h: Host, r: Regs)
    requires DataForm(w)
  {
    && RunBytes(bytes, h).Some? && Step(w, r).Some?
    && Related(RunBytes(bytes, h).value, Step(w, r).value)
    && OnlyTouches(h, RunBytes(bytes, h).value, Rd(w))
  }

  lemma BytesRunWord(w: Word, h: Host)
    requires DataForm(w) && WordBytes(w).Code?
    ensures AssembleAll(DataCode(w)).Some?
    ensures RunBytes(WordBytes(w).bytes, h)
      == if Run(SeenLines(DataCode(w)), h).Fall? then Some(Run(SeenLines(DataCode(w)), h).h) else None
  {
    TranslatesData(w, 0);
    BytesRunLines(DataCode(w), h);
    hide Translate, DataCode, DataForm, AssembleAll, EncodeAll, RunBytes, Run, SeenLines;
  }

  /** When all offsets fit, the bytes agree with the oracle just when the lines do. */
  lemma AgreeTogether(w: Word, h: Host, r: Regs)
    requires DataForm(w) && WordBytes(w).Code? && AllPlain(DataCode(w))
    ensures Agrees(w, 0, h, r) <==> BytesAgree(w, WordBytes(w).bytes, h, r)
  {
    hide Translate, DataCode, DataForm, AllPlain, WordBytes, RunBytes, Run, Related, OnlyTouches, Step, Rd, Emitted,
      SeenLines;
    TranslatesData(w, 0);
    PlainIsSeen(DataCode(w));
    DataRuns(w, h);
    BytesRunWord(w, h);
  }

  lemma CoveredIsData(w: Word)
    requires Covered(w)
    ensures DataForm(w)
  {
    hide DataForm;
  }

  /** `translate_word` on a covered word whose offsets all fit: if it returns bytes,
      running them gives the oracle's registers from every related state exactly
      when the word is Sound. */
  lemma PlainWordsExact(w: Word)
    requires Covered(w) && WordBytes(w).Code? && AllPlain(DataCode(w))
    ensures Sound(w) <==> forall h: Host, r: Regs :: Related(h, r) ==> BytesAgree(w, WordBytes(w).bytes, h, r)
  {
    hide *;
    CoveredIsData(w);
    TranslationIsExact(w, 0);
    forall h: Host, r: Regs
      ensures Agrees(w, 0, h, r) <==> BytesAgree(w, WordBytes(w).bytes, h, r)
    {
      AgreeTogether(w, h, r);
    }
  }
}
