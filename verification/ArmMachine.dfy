/** A small Arm machine: the instructions the boot stubs and patches are made of,
    byte-addressed RAM, and a trace of what happens on device addresses. */
module ArmMachine {
  import opened Wrappers
  import opened Octets

  const TWO_16 := 0x1_0000
  const TWO_32 := 0x1_0000_0000
  const TWO_64 := 0x1_0000_0000_0000_0000

  // ---- instruction words ----

  datatype Insn =
    | Movz(wide: bool, rd: nat, imm: nat, hw: nat)
    | Movk(wide: bool, rd: nat, imm: nat, hw: nat)
    | StrW(rt: nat, rn: nat, off: nat)
    | StrhW(rt: nat, rn: nat, off: nat)
    | LdrW(rt: nat, rn: nat, off: nat)
    | LdrWPost(rt: nat, rn: nat, step: int)
    | StrWPost(rt: nat, rn: nat, step: int)
    | LdrbPost(rt: nat, rn: nat, step: int)
    | SubsW(rd: nat, rn: nat, imm: nat)
    | Bne(delta: int)
    | Cbz(wide: bool, rt: nat, delta: int)
    | TbnzW(rt: nat, bit: nat, delta: int)
    | B(delta: int)
    | Bl(delta: int)
    | Br(rn: nat)
    | Ret(rn: nat)
    | MovReg(rd: nat, rm: nat)
    | LdpPost(rt: nat, rt2: nat, rn: nat, step: int)
    | Retab
    | Nop
    | MaskDaif(imm: nat)
    | ClearMdscr
    | Other

  /** Two's complement reading of a field whose sign bit weighs half. */
  function Signed(v: nat, half: nat): int { if v < half then v else v - 2 * half }

  /** The instruction a word stands for (Arm ARM DDI 0487, chapter C4). */
  function Decode(w: nat): Insn { Form(w / 0x20_0000, w % 0x20_0000) }

  /** The form is decided by the eleven top bits, apart from a few fixed low ones. */
  function Form(top: nat, low: nat): Insn {
    if 0x694 <= top < 0x698 then Movz(true, low % 32, low / 32, top - 0x694)
    else if 0x794 <= top < 0x798 then Movk(true, low % 32, low / 32, top - 0x794)
    else if 0x294 <= top < 0x296 then Movz(false, low % 32, low / 32, top - 0x294)
    else if 0x394 <= top < 0x396 then Movk(false, low % 32, low / 32, top - 0x394)
    else if 0x5C8 <= top < 0x5CA then StrW(low % 32, low / 32 % 32, 4 * Imm12(top - 0x5C8, low))
    else if 0x3C8 <= top < 0x3CA then StrhW(low % 32, low / 32 % 32, 2 * Imm12(top - 0x3C8, low))
    else if 0x5CA <= top < 0x5CC then LdrW(low % 32, low / 32 % 32, 4 * Imm12(top - 0x5CA, low))
    else if top == 0x5C2 && low / 0x400 % 4 == 1 then LdrWPost(low % 32, low / 32 % 32, Signed(low / 0x1000, 0x100))
    else if top == 0x5C0 && low / 0x400 % 4 == 1 then StrWPost(low % 32, low / 32 % 32, Signed(low / 0x1000, 0x100))
    else if top == 0x1C2 && low / 0x400 % 4 == 1 then LdrbPost(low % 32, low / 32 % 32, Signed(low / 0x1000, 0x100))
    else if 0x388 <= top < 0x38A then SubsW(low % 32, low / 32 % 32, Imm12(top - 0x388, low))
    else if 0x2A0 <= top < 0x2A8 && low % 32 == 1 then Bne(4 * Imm19(top - 0x2A0, low))
    else if 0x1A0 <= top < 0x1A8 then Cbz(false, low % 32, 4 * Imm19(top - 0x1A0, low))
    else if 0x5A0 <= top < 0x5A8 then Cbz(true, low % 32, 4 * Imm19(top - 0x5A0, low))
    else if 0x1B8 <= top < 0x1C0 then
      TbnzW(low % 32, 4 * (top - 0x1B8) + low / 0x8_0000, 4 * Signed(low / 32 % 0x4000, 0x2000))
    else if 0x0A0 <= top < 0x0C0 then B(4 * Signed(0x20_0000 * (top - 0xA0) + low, 0x200_0000))
    else if 0x4A0 <= top < 0x4C0 then Bl(4 * Signed(0x20_0000 * (top - 0x4A0) + low, 0x200_0000))
    else if top == 0x6B0 && low / 0x400 == 0x7C0 && low % 32 == 0 then Br(low / 32 % 32)
    else if top == 0x6B2 && low / 0x400 == 0x7C0 && low % 32 == 0 then Ret(low / 32 % 32)
    else if top == 0x550 && low / 32 % 0x800 == 31 then MovReg(low % 32, low / 0x1_0000)
    else if 0x546 <= top < 0x548 then
      LdpPost(low % 32, low / 0x400 % 32, low / 32 % 32, 8 * Signed(0x40 * (top - 0x546) + low / 0x8000, 0x40))
    else if top == 0x6B2 && low == 0x1F_0FFF then Retab
    else if top == 0x6A8 && low == 0x03_201F then Nop
    else if top == 0x6A8 && low / 0x1000 == 0x34 && low % 0x100 == 0xDF then MaskDaif(low / 0x100 % 16)
    else if top == 0x6A8 && low == 0x10_025F then ClearMdscr
    else Other
  }

  function Imm12(high: nat, low: nat): nat { 0x800 * high + low / 0x400 }

  function Imm19(high: nat, low: nat): int { Signed(0x1_0000 * high + low / 32, 0x4_0000) }

  lemma Parts(w: nat, top: nat, low: nat)
    requires low < 0x20_0000 && w == 0x20_0000 * top + low
    ensures Decode(w) == Form(top, low)
  {
    hide Form;
  }

  // ---- state ----

  type Regs = x: seq<nat> | |x| == 31 witness seq(31, _ => 0)

  /** An access to an address where there is no RAM. */
  datatype Event = Wrote(at: nat, size: nat, value: nat) | Read(at: nat, size: nat, value: nat)

  datatype Nzcv = Nzcv(n: bool, z: bool, c: bool, v: bool)

  /** masked: the DAIF bits set (F, I, A, D are 0 to 3). others: SIMD and system
      registers under any numbering, which no modelled instruction touches. */
  datatype Cpu = Cpu(pc: nat, x: Regs, sp: nat, flags: Nzcv, masked: set<nat>, mdscr: nat,
                     others: map<nat, nat>, ram: map<nat, byte>, trace: seq<Event>)

  /** What the machine does not determine: the value a device read returns after
      a given number of device accesses, and pointer authentication. */
  datatype Env = Env(read: nat -> nat, auth: (nat, nat) -> nat)

  /** The flags of a 32-bit SUBS. */
  function Subtracted(a: nat, b: nat): Nzcv {
    var x := a % TWO_32;
    var d, half := (x - b) % TWO_32, TWO_32 / 2;
    Nzcv(d >= half, d == 0, x >= b, (x >= half) != (b >= half) && (d >= half) != (x >= half))
  }

  function Wrap(n: int): (r: nat) ensures r < TWO_64 { n % TWO_64 }

  function Get(s: Cpu, r: nat): nat { if r < 31 then s.x[r] else 0 }

  function Put(s: Cpu, r: nat, v: nat): Cpu { if r < 31 then s.(x := s.x[r := v]) else s }

  /** Register 31 as a base address is the stack pointer. */
  function Base(s: Cpu, r: nat): nat { if r < 31 then s.x[r] else s.sp }

  function PutBase(s: Cpu, r: nat, v: nat): Cpu { if r < 31 then s.(x := s.x[r := v]) else s.(sp := v) }

  function Next(s: Cpu): Cpu { s.(pc := Wrap(s.pc + 4)) }

  function Jump(s: Cpu, delta: int): Cpu { s.(pc := Wrap(s.pc + delta)) }

  predicate InRam(ram: map<nat, byte>, at: nat, n: nat) { forall k :: at <= k < at + n ==> k in ram }

  predicate OffRam(ram: map<nat, byte>, at: nat, n: nat) { forall k :: at <= k < at + n ==> k !in ram }

  function BytesAt(ram: map<nat, byte>, at: nat, n: nat): (b: octets)
    requires InRam(ram, at, n)
    ensures |b| == n && forall i :: 0 <= i < n ==> b[i] == ram[at + i]
  {
    seq(n, i requires 0 <= i < n => ram[at + i])
  }

  function Write(ram: map<nat, byte>, at: nat, b: octets): (r: map<nat, byte>)
    ensures forall k :: k in r <==> k in ram || at <= k < at + |b|
    ensures forall k :: k in r ==> r[k] == if at <= k < at + |b| then b[k - at] else ram[k]
    decreases |b|
  {
    if b == [] then ram else Write(ram[at := b[0]], at + 1, b[1..])
  }

  function Store(s: Cpu, at: nat, b: octets, v: nat): Option<Cpu> {
    if InRam(s.ram, at, |b|) then Some(s.(ram := Write(s.ram, at, b)))
    else if OffRam(s.ram, at, |b|) then Some(s.(trace := s.trace + [Wrote(at, |b|, v)]))
    else None
  }

  /** A load of one or four bytes, and the state with the access noted. */
  datatype Loaded = Loaded(value: nat, after: Cpu)

  function Load(s: Cpu, env: Env, at: nat, n: nat): Option<Loaded>
    requires n == 1 || n == 4
  {
    if InRam(s.ram, at, n) then
      Some(Loaded(if n == 1 then s.ram[at] as nat else Word32(BytesAt(s.ram, at, 4), 0), s))
    else if OffRam(s.ram, at, n) then
      var v := env.read(|s.trace|) % (if n == 1 then 0x100 else TWO_32);
      Some(Loaded(v, s.(trace := s.trace + [Read(at, n, v)])))
    else None
  }

  function Insert16(v: nat, hw: nat, imm: nat): int {
    if hw == 0 then v - v % TWO_16 + imm
    else if hw == 1 then v - v / TWO_16 % TWO_16 * TWO_16 + imm * TWO_16
    else if hw == 2 then v - v / TWO_32 % TWO_16 * TWO_32 + imm * TWO_32
    else v - v / 0x1_0000_0000_0000 % TWO_16 * 0x1_0000_0000_0000 + imm * 0x1_0000_0000_0000
  }

  function Shifted16(imm: nat, hw: nat): nat {
    if hw == 0 then imm else if hw == 1 then imm * TWO_16
      else if hw == 2 then imm * TWO_32 else imm * 0x1_0000_0000_0000
  }

  function Bit(v: nat, bit: nat): nat
    decreases bit
  {
    if bit == 0 then v % 2 else Bit(v / 2, bit - 1)
  }

  function MaskBits(imm: nat): set<nat> { set k | 0 <= k < 4 && Bit(imm, k) == 1 }

  function Width(wide: bool, v: nat): nat { if wide then v else v % TWO_32 }

  /** One instruction. None where the machine has no answer. */
  function Exec(i: Insn, s: Cpu, env: Env): Option<Cpu> {
    match i
    case Movz(wide, rd, imm, hw) => Some(Next(Put(s, rd, Shifted16(imm, hw))))
    case Movk(wide, rd, imm, hw) => Some(Next(Put(s, rd, Wrap(Insert16(Width(wide, Get(s, rd)), hw, imm)))))
    case StrW(rt, rn, off) => Then(Store(s, Wrap(Base(s, rn) + off), Put32(Get(s, rt) % TWO_32), Get(s, rt) % TWO_32))
    case StrhW(rt, rn, off) => Then(Store(s, Wrap(Base(s, rn) + off), Put16(Get(s, rt) % TWO_16), Get(s, rt) % TWO_16))
    case LdrW(rt, rn, off) => Take(Load(s, env, Wrap(Base(s, rn) + off), 4), rt)
    case LdrWPost(rt, rn, step) => Post(Take(Load(s, env, Base(s, rn), 4), rt), rn, Wrap(Base(s, rn) + step))
    case LdrbPost(rt, rn, step) => Post(Take(Load(s, env, Base(s, rn), 1), rt), rn, Wrap(Base(s, rn) + step))
    case StrWPost(rt, rn, step) =>
      Post(Then(Store(s, Base(s, rn), Put32(Get(s, rt) % TWO_32), Get(s, rt) % TWO_32)), rn, Wrap(Base(s, rn) + step))
    case SubsW(rd, rn, imm) =>
      var v := (Base(s, rn) - imm) % TWO_32;
      Some(Next(Put(s.(flags := Subtracted(Base(s, rn), imm)), rd, v)))
    case Bne(delta) => Some(if s.flags.z then Next(s) else Jump(s, delta))
    case Cbz(wide, rt, delta) => Some(if Width(wide, Get(s, rt)) == 0 then Jump(s, delta) else Next(s))
    case TbnzW(rt, bit, delta) => Some(if Bit(Get(s, rt), bit) == 1 then Jump(s, delta) else Next(s))
    case B(delta) => Some(Jump(s, delta))
    case Bl(delta) => Some(Jump(Put(s, 30, Wrap(s.pc + 4)), delta))
    case Br(rn) => Some(s.(pc := Wrap(Get(s, rn))))
    case Ret(rn) => Some(s.(pc := Wrap(Get(s, rn))))
    case MovReg(rd, rm) => Some(Next(Put(s, rd, Get(s, rm))))
    case LdpPost(rt, rt2, rn, step) =>
      if InRam(s.ram, Base(s, rn), 16) then
        var b := BytesAt(s.ram, Base(s, rn), 16);
        Some(Next(PutBase(Put(Put(s, rt, Word64(b, 0)), rt2, Word64(b, 8)), rn, Wrap(Base(s, rn) + step))))
      else None
    case Retab => Some(s.(pc := Wrap(env.auth(Get(s, 30), s.sp))))
    case Nop => Some(Next(s))
    case MaskDaif(imm) => Some(Next(s.(masked := s.masked + MaskBits(imm))))
    case ClearMdscr => Some(Next(s.(mdscr := 0)))
    case Other => None
  }

  function Then(s: Option<Cpu>): Option<Cpu> { if s.Some? then Some(Next(s.value)) else None }

  function Take(l: Option<Loaded>, rt: nat): Option<Cpu> {
    if l.Some? then Some(Next(Put(l.value.after, rt, l.value.value))) else None
  }

  function Post(s: Option<Cpu>, rn: nat, at: nat): Option<Cpu> {
    if s.Some? then Some(PutBase(s.value, rn, at)) else None
  }

  // ---- runs, fetching from RAM ----

  function Step(s: Cpu, env: Env): Option<Cpu> {
    if s.pc % 4 == 0 && InRam(s.ram, s.pc, 4) then Exec(Decode(Word32(BytesAt(s.ram, s.pc, 4), 0)), s, env) else None
  }

  function Run(s: Cpu, env: Env, n: nat): Option<Cpu>
    decreases n
  {
    if n == 0 then Some(s)
    else
      match Step(s, env)
      case None => None
      case Some(s1) => Run(s1, env, n - 1)
  }

  lemma {:induction false} RunOn(s: Cpu, env: Env, m: nat, n: nat)
    requires Run(s, env, m).Some?
    ensures Run(s, env, m + n) == Run(Run(s, env, m).value, env, n)
    decreases m
  {
    hide Step;
    if m > 0 { RunOn(Step(s, env).value, env, m - 1, n); }
  }

  /** RAM holds these words from an address on. */
  ghost predicate Holds(ram: map<nat, byte>, at: nat, words: seq<nat>) {
    InRam(ram, at, 4 * |words|) && forall i :: 0 <= i < |words| ==> WordIs(ram, at + 4 * i, words[i])
  }

  ghost predicate WordIs(ram: map<nat, byte>, at: nat, w: nat) {
    InRam(ram, at, 4) && Word32(BytesAt(ram, at, 4), 0) == w
  }

  /** One step when the word under the program counter is known. */
  lemma StepIs(s: Cpu, env: Env, w: nat)
    requires s.pc % 4 == 0 && WordIs(s.ram, s.pc, w)
    ensures Step(s, env) == Exec(Decode(w), s, env)
    ensures Run(s, env, 1) == Exec(Decode(w), s, env)
  {
    hide Decode, Exec, Word32, BytesAt;
    if Step(s, env).Some? { assert Run(Step(s, env).value, env, 0) == Step(s, env); }
  }
}
