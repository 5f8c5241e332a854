/** The x86 lines the translator emits, and what running them does to a host
    machine. A line has 64-bit operands; memory operands are 8-byte cells off
    the register file base r15. A flag no line here defines is None, and a
    conditional jump on an unknown flag is Stuck, so nothing proved below
    leans on a flag the hardware leaves undefined. */
module X86Lines {
  import opened Wrappers

  datatype HReg = RAX | RCX | RDX | RBX | RSP | RBP | RSI | RDI
                | R8 | R9 | R10 | R11 | R12 | R13 | R14 | R15

  datatype Opnd = Reg(r: HReg) | Slot(off: int) | Imm(v: bv64)

  datatype AluOp = Add | Or | And | Sub | Xor
  datatype ShiftOp = Shl | Shr | Sar | Ror
  datatype Cond = E | NE | B | AE | S | NS | O | NO | A | BE | GE | L | G | LE

  datatype Line =
    | Mov(dst: Opnd, src: Opnd)
    | Alu(op: AluOp, dst: Opnd, src: Opnd)
    | Shift(sh: ShiftOp, dst: Opnd, count: bv8)
    | Cmp(a: Opnd, b: Opnd)
    | Test(a: Opnd, b: Opnd)
    | Bt(a: Opnd, bit: bv8)
    | Jmp(target: int)
    | Jcc(cc: Cond, target: int)

  datatype Flags = Flags(zf: Option<bool>, sf: Option<bool>, cf: Option<bool>, of: Option<bool>)
  const UNKNOWN := Flags(None, None, None, None)

  /** An 8-byte cell of the guest register file, as an offset from r15. */
  type Offset = int

  datatype Host = Host(regs: map<HReg, bv64>, mem: map<Offset, bv64>, flags: Flags)

  datatype Outcome = Fall(h: Host) | Goto(target: int, h: Host) | Stuck

  function GetReg(h: Host, r: HReg): bv64 { if r in h.regs then h.regs[r] else 0 }
  function GetMem(h: Host, a: Offset): bv64 { if a in h.mem then h.mem[a] else 0 }

  function Read(h: Host, o: Opnd): bv64 {
    match o
    case Reg(r) => GetReg(h, r)
    case Slot(off) => GetMem(h, off)
    case Imm(v) => v
  }

  function Write(h: Host, o: Opnd, v: bv64): Host {
    match o
    case Reg(r) => h.(regs := h.regs[r := v])
    case Slot(off) => h.(mem := h.mem[off := v])
    case Imm(_) => h
  }

  function AluValue(op: AluOp, a: bv64, b: bv64): bv64 {
    match op case Add => a + b case Or => a | b case And => a & b case Sub => a - b case Xor => a ^ b
  }

  function Sar64(v: bv64, k: bv8): bv64
    requires k < 64
  {
    if v >> 63 == 1 then (v >> k) | !(0xFFFF_FFFF_FFFF_FFFF >> k) else v >> k
  }

  function ShiftValue(op: ShiftOp, v: bv64, k: bv8): bv64
    requires k < 64
  {
    match op
    case Shl => v << k
    case Shr => v >> k
    case Sar => Sar64(v, k)
    case Ror => (v >> k) | (v << (64 - k))
  }

  predicate Negative(v: bv64) { v >> 63 == 1 }

  predicate BitSet(v: bv64, k: bv8)
    requires k < 64
  {
    (v >> k) & 1 == 1
  }

  predicate Zero(v: bv64) { v == 0 }
  predicate Below(a: bv64, b: bv64) { a < b }
  function Difference(a: bv64, b: bv64): bv64 { a - b }

  /** CMP: the flags of a - b. */
  function CmpFlags(a: bv64, b: bv64): Flags {
    var d := Difference(a, b);
    Flags(Some(Zero(d)), Some(Negative(d)), Some(Below(a, b)),
          Some(Negative(a) != Negative(b) && Negative(d) != Negative(a)))
  }

  function TestFlags(a: bv64, b: bv64): Flags {
    Flags(Some(a & b == 0), Some(Negative(a & b)), Some(false), Some(false))
  }

  function Not(x: Option<bool>): Option<bool> { if x.Some? then Some(!x.value) else None }
  function Or2(x: Option<bool>, y: Option<bool>): Option<bool> {
    if x.Some? && y.Some? then Some(x.value || y.value) else None
  }
  function Differ(x: Option<bool>, y: Option<bool>): Option<bool> {
    if x.Some? && y.Some? then Some(x.value != y.value) else None
  }

  /** Whether a condition holds, per the Jcc table of the Intel SDM. */
  function Holds(cc: Cond, f: Flags): Option<bool> {
    match cc
    case E => f.zf
    case NE => Not(f.zf)
    case B => f.cf
    case AE => Not(f.cf)
    case S => f.sf
    case NS => Not(f.sf)
    case O => f.of
    case NO => Not(f.of)
    case BE => Or2(f.cf, f.zf)
    case A => Not(Or2(f.cf, f.zf))
    case L => Differ(f.sf, f.of)
    case GE => Not(Differ(f.sf, f.of))
    case LE => Or2(f.zf, Differ(f.sf, f.of))
    case G => Not(Or2(f.zf, Differ(f.sf, f.of)))
  }

  /** No x86 instruction has two memory operands or an immediate destination;
      and cells are named relative to r15, so a line that moved r15 is refused. */
  predicate Encodable(dst: Opnd, src: Opnd) {
    !dst.Imm? && dst != Reg(R15) && !(dst.Slot? && src.Slot?)
  }

  function Exec(l: Line, h: Host): Outcome {
    match l
    case Mov(dst, src) =>
      if Encodable(dst, src) then Fall(Write(h, dst, Read(h, src))) else Stuck
    case Alu(op, dst, src) =>
      if Encodable(dst, src) then
        Fall(Write(h, dst, AluValue(op, Read(h, dst), Read(h, src))).(flags := UNKNOWN))
      else Stuck
    case Shift(op, dst, count) =>
      if Encodable(dst, Imm(0)) && count < 64 then
        Fall(Write(h, dst, ShiftValue(op, Read(h, dst), count)).(flags := UNKNOWN))
      else Stuck
    case Cmp(a, b) =>
      if Encodable(a, b) then Fall(h.(flags := CmpFlags(Read(h, a), Read(h, b)))) else Stuck
    case Test(a, b) =>
      if Encodable(a, b) then Fall(h.(flags := TestFlags(Read(h, a), Read(h, b)))) else Stuck
    case Bt(a, bit) =>
      if a.Reg? && bit < 64 then
        Fall(h.(flags := UNKNOWN.(cf := Some(BitSet(Read(h, a), bit)))))
      else Stuck
    case Jmp(t) => Goto(t, h)
    case Jcc(cc, t) =>
      var taken := Holds(cc, h.flags);
      if taken == None then Stuck else if taken.value then Goto(t, h) else Fall(h)
  }

  function Run(lines: seq<Line>, h: Host): Outcome {
    if lines == [] then Fall(h)
    else
      var o := Exec(lines[0], h);
      if o.Fall? then Run(lines[1..], o.h) else o
  }

  lemma {:induction false} RunAppend(a: seq<Line>, b: seq<Line>, h: Host)
    ensures Run(a + b, h) == if Run(a, h).Fall? then Run(b, Run(a, h).h) else Run(a, h)
  {
    if a == [] {
      assert a + b == b;
    } else {
      assert (a + b)[1..] == a[1..] + b;
      var o := Exec(a[0], h);
      if o.Fall? { RunAppend(a[1..], b, o.h); }
    }
  }
}
