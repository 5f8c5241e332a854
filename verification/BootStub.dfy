/** bochs_fb.py and trampoline.py: the stub that brings up the display, paints it
    and enters the kernel; and what every run of the emitted words does. */
module BootStub {
  import opened Wrappers
  import opened IntFacts
  import opened Octets
  import opened ArmMachine
  import opened ArmWords

  // ---- what is emitted ----

  const CFG_COMMAND := 0x04
  const CFG_BAR0 := 0x10
  const CFG_BAR2 := 0x18
  const CMD_MEMORY := 0x02
  const VBE_XRES := 1
  const VBE_YRES := 2
  const VBE_BPP := 3
  const VBE_ENABLE := 4
  const VBE_VIRT_WIDTH := 6
  const VBE_VIRT_HEIGHT := 7
  const VBE_X_OFFSET := 8
  const VBE_Y_OFFSET := 9
  const VBE_ON := 0x41

  function Vbe(index: nat): nat { 0x500 + index * 2 }

  /** The pieces the generators append, in terms of what they are for. */
  datatype Op =
    | Set64(rd: nat, value: nat)
    | Set32(rd: nat, value: nat)
    | Poke32(rt: nat, rn: nat, off: nat)
    | Poke16(rt: nat, rn: nat, off: nat)

  predicate Emittable(o: Op) {
    match o
    case Set64(rd, _) => rd < 31
    case Set32(rd, _) => rd < 31
    case Poke32(rt, rn, off) => rt < 31 && rn < 31 && off % 4 == 0 && off < 16384
    case Poke16(rt, rn, off) => rt < 31 && rn < 31 && off % 2 == 0 && off < 8192
  }

  function Emit(o: Op): (words: seq<nat>)
    requires Emittable(o)
    ensures |words| > 0 && forall w <- words :: w < TWO_32
  {
    match o
    case Set64(rd, value) => Load64(rd, value)
    case Set32(rd, value) => Load32(rd, value)
    case Poke32(rt, rn, off) => [StrWord(rt, rn, off)]
    case Poke16(rt, rn, off) => [StrHalf(rt, rn, off)]
  }

  function EmitAll(ops: seq<Op>): (words: seq<nat>)
    requires forall o <- ops :: Emittable(o)
    ensures forall w <- words :: w < TWO_32
  {
    if ops == [] then [] else Emit(ops[0]) + EmitAll(ops[1..])
  }

  /** One piece carried out, where its store meets no RAM. */
  function Perform(o: Op, s: Cpu): Option<Cpu> {
    match o
    case Set64(rd, value) => Some(Put(s, rd, value % TWO_64).(pc := Wrap(s.pc + 16)))
    case Set32(rd, value) => Some(Put(s, rd, value % TWO_32).(pc := Wrap(s.pc + 8)))
    case Poke32(rt, rn, off) => Poke(s, Wrap(Base(s, rn) + off), 4, Get(s, rt) % TWO_32)
    case Poke16(rt, rn, off) => Poke(s, Wrap(Base(s, rn) + off), 2, Get(s, rt) % TWO_16)
  }

  function Poke(s: Cpu, at: nat, size: nat, v: nat): Option<Cpu> {
    if OffRam(s.ram, at, size) then Some(Next(s.(trace := s.trace + [Wrote(at, size, v)]))) else None
  }

  function PerformAll(ops: seq<Op>, s: Cpu): Option<Cpu> {
    if ops == [] then Some(s)
    else
      match Perform(ops[0], s)
      case None => None
      case Some(s1) => PerformAll(ops[1..], s1)
  }

  // ---- emitted pieces run as performed ----

  lemma HalvesSum(value: nat)
    ensures value % TWO_16 + value / TWO_16 % TWO_16 * TWO_16 == value % TWO_32
    ensures value % TWO_32 + value / TWO_32 % TWO_16 * TWO_32 == value % 0x1_0000_0000_0000
    ensures value % 0x1_0000_0000_0000 + value / 0x1_0000_0000_0000 % TWO_16 * 0x1_0000_0000_0000 == value % TWO_64
  {
    var a, b, c := value / TWO_16, value / TWO_32, value / 0x1_0000_0000_0000;
    Quotient(value, TWO_32, a / TWO_16, value % TWO_16 + a % TWO_16 * TWO_16);
    Quotient(value, 0x1_0000_0000_0000, b / TWO_16, value % TWO_32 + b % TWO_16 * TWO_32);
    Quotient(value, TWO_64, c / TWO_16, value % 0x1_0000_0000_0000 + c % TWO_16 * 0x1_0000_0000_0000);
  }

  /** The half-words of a value, and how MOVK puts them together again. */
  lemma Halves(rd: nat, value: nat) returns (v0: nat, v1: nat, v2: nat, v3: nat)
    ensures v0 < TWO_16 && v1 < TWO_16 && v2 < TWO_16 && v3 < TWO_16
    ensures v0 + v1 * TWO_16 == value % TWO_32
    ensures v0 + v1 * TWO_16 + v2 * TWO_32 + v3 * 0x1_0000_0000_0000 == value % TWO_64
    ensures Load32(rd, value) == [Movz32(rd, v0, 0)] + [Movk32(rd, v1, 1)]
    ensures Load64(rd, value)
      == [Movz64(rd, v0, 0)] + ([Movk64(rd, v1, 1)] + ([Movk64(rd, v2, 2)] + [Movk64(rd, v3, 3)]))
  {
    hide Movz32, Movk32, Movz64, Movk64;
    HalvesSum(value);
    v0, v1 := value % TWO_16, value / TWO_16 % TWO_16;
    v2, v3 := value / TWO_32 % TWO_16, value / 0x1_0000_0000_0000 % TWO_16;
  }

  lemma Inserts(v0: nat, v1: nat, v2: nat, v3: nat)
    requires v0 < TWO_16 && v1 < TWO_16 && v2 < TWO_16 && v3 < TWO_16
    ensures Insert16(v0, 1, v1) == v0 + v1 * TWO_16
    ensures Insert16(v0 + v1 * TWO_16, 2, v2) == v0 + v1 * TWO_16 + v2 * TWO_32
    ensures Insert16(v0 + v1 * TWO_16 + v2 * TWO_32, 3, v3) == v0 + v1 * TWO_16 + v2 * TWO_32 + v3 * 0x1_0000_0000_0000
  {
  }

  lemma HoldsSplit(ram: map<nat, byte>, at: nat, a: seq<nat>, b: seq<nat>)
    requires Holds(ram, at, a + b)
    ensures Holds(ram, at, a) && Holds(ram, at + 4 * |a|, b)
  {
    hide WordIs;
    forall i | 0 <= i < |a| ensures WordIs(ram, at + 4 * i, a[i]) { assert (a + b)[i] == a[i]; }
    forall i | 0 <= i < |b| ensures WordIs(ram, at + 4 * |a| + 4 * i, b[i]) {
      assert (a + b)[|a| + i] == b[i];
      assert at + 4 * (|a| + i) == at + 4 * |a| + 4 * i;
    }
  }

  lemma OneStep(s: Cpu, env: Env, w: nat)
    requires s.pc % 4 == 0 && Holds(s.ram, s.pc, [w])
    ensures Run(s, env, 1) == Exec(Decode(w), s, env)
  {
    hide Decode, Exec, WordIs;
    assert WordIs(s.ram, s.pc + 4 * 0, [w][0]);
    StepIs(s, env, w);
  }

  lemma ZeroRuns(s: Cpu, env: Env, rd: nat, value: nat, wide: bool)
    requires s.pc % 4 == 0 && rd < 31
    requires Holds(s.ram, s.pc, [if wide then Movz64(rd, value, 0) else Movz32(rd, value, 0)])
    ensures Run(s, env, 1) == Some(Next(Put(s, rd, value % TWO_16)))
  {
    hide Decode, Movz64, Movz32, Holds, Run, Put;
    Movz64Decodes(rd, value, 0);
    Movz32Decodes(rd, value, 0);
    OneStep(s, env, if wide then Movz64(rd, value, 0) else Movz32(rd, value, 0));
  }

  lemma ExecKeep(s: Cpu, env: Env, rd: nat, imm: nat, hw: nat, wide: bool, v: nat)
    requires (!wide ==> Get(s, rd) < TWO_32) && v < TWO_64 && v == Insert16(Get(s, rd), hw, imm)
    ensures Exec(Movk(wide, rd, imm, hw), s, env) == Some(Next(Put(s, rd, v)))
  {
    assert Width(wide, Get(s, rd)) == Get(s, rd);
    assert Wrap(v) == v;
    hide Width, Wrap, Insert16, Get, Put;
  }

  lemma KeepRuns(s: Cpu, env: Env, rd: nat, value: nat, hw: nat, wide: bool, v: nat)
    requires s.pc % 4 == 0 && rd < 31 && hw < 4 && (!wide ==> hw < 2 && Get(s, rd) < TWO_32)
    requires Holds(s.ram, s.pc, [if wide then Movk64(rd, value, hw) else Movk32(rd, value, hw)])
    requires value < TWO_16 && v < TWO_64 && v == Insert16(Get(s, rd), hw, value)
    ensures Run(s, env, 1) == Some(Next(Put(s, rd, v)))
  {
    hide *;
    Movk64Decodes(rd, value, hw);
    if !wide { Movk32Decodes(rd, value, hw); }
    OneStep(s, env, if wide then Movk64(rd, value, hw) else Movk32(rd, value, hw));
    assert value % TWO_16 == value;
    ExecKeep(s, env, rd, value, hw, wide, v);
  }

  /** A MOVK after something that left old in the register. */
  lemma KeepAfter(s: Cpu, env: Env, n: nat, rd: nat, value: nat, hw: nat, wide: bool, was: nat, v: nat)
    requires rd < 31 && hw < 4 && s.pc % 4 == 0 && s.pc + 4 * n < TWO_64 && n > 0
    requires Run(s, env, n) == Some(Put(s, rd, was).(pc := s.pc + 4 * n))
    requires !wide ==> hw < 2 && was < TWO_32
    requires Holds(s.ram, s.pc + 4 * n, [if wide then Movk64(rd, value, hw) else Movk32(rd, value, hw)])
    requires value < TWO_16 && v < TWO_64 && v == Insert16(was, hw, value)
    ensures Run(s, env, n + 1) == Some(Put(s, rd, v).(pc := Wrap(s.pc + 4 * n + 4)))
  {
    hide Run, Holds, Insert16, Movk64, Movk32, Wrap;
    var s1 := Put(s, rd, was).(pc := s.pc + 4 * n);
    Aligned(s.pc, n);
    KeepRuns(s1, env, rd, value, hw, wide, v);
    RunOn(s, env, n, 1);
    assert s1.x[rd := v] == s.x[rd := v];
  }

  lemma Aligned(pc: nat, n: nat)
    requires pc % 4 == 0
    ensures (pc + 4 * n) % 4 == 0
  {
  }

  lemma Set32Runs(s: Cpu, env: Env, rd: nat, value: nat)
    requires s.pc % 4 == 0 && rd < 31 && Holds(s.ram, s.pc, Load32(rd, value)) && s.pc + 8 <= TWO_64
    ensures Run(s, env, 2) == Perform(Set32(rd, value), s)
  {
    hide Run, Insert16, Movz32, Movk32, Movz64, Movk64, Holds, Load32, Load64;
    var v0, v1, v2, v3 := Halves(rd, value);
    var v := value % TWO_32;
    Inserts(v0, v1, v2, v3);
    HoldsSplit(s.ram, s.pc, [Movz32(rd, v0, 0)], [Movk32(rd, v1, 1)]);
    ZeroRuns(s, env, rd, v0, false);
    KeepAfter(s, env, 1, rd, v1, 1, false, v0, v);
  }

  lemma Set64Runs(s: Cpu, env: Env, rd: nat, value: nat)
    requires s.pc % 4 == 0 && rd < 31 && Holds(s.ram, s.pc, Load64(rd, value)) && s.pc + 16 <= TWO_64
    ensures Run(s, env, 4) == Perform(Set64(rd, value), s)
  {
    hide Run, Insert16, Movz32, Movk32, Movz64, Movk64, Holds, Load32, Load64;
    var v0, v1, v2, v3 := Halves(rd, value);
    var v := value % TWO_64;
    Inserts(v0, v1, v2, v3);
    var w0, w1, w2, w3 := [Movz64(rd, v0, 0)], [Movk64(rd, v1, 1)], [Movk64(rd, v2, 2)], [Movk64(rd, v3, 3)];
    HoldsSplit(s.ram, s.pc, w0, w1 + (w2 + w3));
    HoldsSplit(s.ram, s.pc + 4, w1, w2 + w3);
    HoldsSplit(s.ram, s.pc + 8, w2, w3);
    ZeroRuns(s, env, rd, v0, true);
    KeepAfter(s, env, 1, rd, v1, 1, true, v0, v0 + v1 * TWO_16);
    KeepAfter(s, env, 2, rd, v2, 2, true, v0 + v1 * TWO_16, v0 + v1 * TWO_16 + v2 * TWO_32);
    KeepAfter(s, env, 3, rd, v3, 3, true, v0 + v1 * TWO_16 + v2 * TWO_32, v);
  }

  lemma ExecPoke(s: Cpu, env: Env, rt: nat, rn: nat, off: nat)
    ensures Perform(Poke32(rt, rn, off), s).Some? ==> Exec(StrW(rt, rn, off), s, env) == Perform(Poke32(rt, rn, off), s)
    ensures Perform(Poke16(rt, rn, off), s).Some? ==>
      Exec(StrhW(rt, rn, off), s, env) == Perform(Poke16(rt, rn, off), s)
  {
    var at := Wrap(Base(s, rn) + off);
    hide Wrap, Base, Put32, Put16, Get, Write;
    if OffRam(s.ram, at, 2) || OffRam(s.ram, at, 4) { assert at !in s.ram; }
  }

  lemma PokeRuns(s: Cpu, env: Env, o: Op)
    requires s.pc % 4 == 0 && (o.Poke32? || o.Poke16?) && Emittable(o)
    requires Holds(s.ram, s.pc, Emit(o)) && Perform(o, s).Some?
    ensures Run(s, env, 1) == Perform(o, s)
  {
    hide Run, Holds, Perform, StrWord, StrHalf, Decode, Exec;
    ExecPoke(s, env, o.rt, o.rn, o.off);
    if o.Poke32? {
      StrWordDecodes(o.rt, o.rn, o.off);
      OneStep(s, env, StrWord(o.rt, o.rn, o.off));
    } else {
      StrHalfDecodes(o.rt, o.rn, o.off);
      OneStep(s, env, StrHalf(o.rt, o.rn, o.off));
    }
  }

  lemma OpRuns(s: Cpu, env: Env, o: Op)
    requires s.pc % 4 == 0 && Emittable(o) && s.pc + 4 * |Emit(o)| <= TWO_64
    requires Holds(s.ram, s.pc, Emit(o)) && Perform(o, s).Some?
    ensures Run(s, env, |Emit(o)|) == Perform(o, s)
  {
    hide Run, Holds, Perform, StrWord, StrHalf, Load32, Load64;
    match o {
      case Set64(rd, value) => Set64Runs(s, env, rd, value);
      case Set32(rd, value) => Set32Runs(s, env, rd, value);
      case Poke32(_, _, _) => PokeRuns(s, env, o);
      case Poke16(_, _, _) => PokeRuns(s, env, o);
    }
  }

  /** A piece only moves the program counter, registers and the trace. */
  lemma PerformKeeps(s: Cpu, o: Op)
    requires Emittable(o) && Perform(o, s).Some?
    ensures
      var t := Perform(o, s).value;
      t == s.(pc := Wrap(s.pc + 4 * |Emit(o)|), x := t.x, trace := t.trace)
  {
    hide Wrap, OffRam, StrWord, StrHalf, Movz64, Movz32, Movk64, Movk32;
  }

  lemma {:induction false} OpsRun(s: Cpu, env: Env, ops: seq<Op>)
    requires s.pc % 4 == 0 && (forall o <- ops :: Emittable(o)) && s.pc + 4 * |EmitAll(ops)| < TWO_64
    requires Holds(s.ram, s.pc, EmitAll(ops)) && PerformAll(ops, s).Some?
    ensures Run(s, env, |EmitAll(ops)|) == PerformAll(ops, s)
    ensures
      var t := PerformAll(ops, s).value;
      t == s.(pc := s.pc + 4 * |EmitAll(ops)|, x := t.x, trace := t.trace)
    decreases |ops|
  {
    hide Run, Perform, Holds, Emit;
    if ops == [] {
      assert Run(s, env, 0) == Some(s) by { RunZero(s, env); }
    } else {
      var o, rest := ops[0], ops[1..];
      var n := |Emit(o)|;
      HoldsSplit(s.ram, s.pc, Emit(o), EmitAll(rest));
      OpRuns(s, env, o);
      PerformKeeps(s, o);
      Within(s.pc, n, |EmitAll(rest)|);
      var s1 := Perform(o, s).value;
      OpsRun(s1, env, rest);
      RunOn(s, env, n, |EmitAll(rest)|);
    }
  }

  lemma RunZero(s: Cpu, env: Env)
    ensures Run(s, env, 0) == Some(s)
  {
  }

  lemma Within(pc: nat, n: nat, m: nat)
    requires pc % 4 == 0 && pc + 4 * (n + m) < TWO_64
    ensures Wrap(pc + 4 * n) == pc + 4 * n && (pc + 4 * n) % 4 == 0 && pc + 4 * n + 4 * m < TWO_64
  {
  }

  // ---- bringing up the display ----

  /** PCI configuration: both base addresses, then memory decode. */
  function ConfigOps(cfg: nat, fb: nat, mmio: nat): seq<Op> {
    [Set64(2, cfg), Set32(3, fb), Poke32(3, 2, CFG_BAR0), Set32(4, mmio), Poke32(4, 2, CFG_BAR2),
     Set32(5, CMD_MEMORY), Poke32(5, 2, CFG_COMMAND)]
  }

  /** One value into some of the mode registers. */
  function VbePokes(indices: seq<nat>): (ops: seq<Op>)
    ensures |ops| == |indices|
  {
    if indices == [] then [] else [Poke16(7, 6, Vbe(indices[0]))] + VbePokes(indices[1..])
  }

  function VbeOps(value: nat, indices: seq<nat>): seq<Op> { [Set32(7, value)] + VbePokes(indices) }

  function ModeOps(mmio: nat, width: nat, height: nat): seq<Op> {
    [Set64(6, mmio)] + (VbeOps(0, [VBE_ENABLE]) + (VbeOps(width, [VBE_XRES, VBE_VIRT_WIDTH])
      + (VbeOps(height, [VBE_YRES, VBE_VIRT_HEIGHT]) + (VbeOps(32, [VBE_BPP])
      + (VbeOps(0, [VBE_X_OFFSET, VBE_Y_OFFSET]) + VbeOps(VBE_ON, [VBE_ENABLE]))))))
  }

  function VbeEvents(mmio: nat, value: nat, indices: seq<nat>): (e: seq<Event>)
    ensures |e| == |indices| && forall i :: 0 <= i < |indices| ==> e[i] == Wrote(mmio + Vbe(indices[i]), 2, value)
  {
    seq(|indices|, i requires 0 <= i < |indices| => Wrote(mmio + Vbe(indices[i]), 2, value))
  }

  /** Everything the bring-up does to the devices, in order. */
  function ConfigEvents(cfg: nat, fb: nat, mmio: nat): seq<Event> {
    [Wrote(cfg + CFG_BAR0, 4, fb % TWO_32), Wrote(cfg + CFG_BAR2, 4, mmio % TWO_32),
      Wrote(cfg + CFG_COMMAND, 4, CMD_MEMORY)]
  }

  function ModeEvents(mmio: nat, width: nat, height: nat): seq<Event> {
    var w, h := width % TWO_16, height % TWO_16;
    VbeEvents(mmio, 0, [VBE_ENABLE]) + (VbeEvents(mmio, w, [VBE_XRES, VBE_VIRT_WIDTH])
      + (VbeEvents(mmio, h, [VBE_YRES, VBE_VIRT_HEIGHT]) + (VbeEvents(mmio, 32, [VBE_BPP])
      + (VbeEvents(mmio, 0, [VBE_X_OFFSET, VBE_Y_OFFSET]) + VbeEvents(mmio, VBE_ON, [VBE_ENABLE])))))
  }

  lemma {:induction false} PerformAppend(a: seq<Op>, b: seq<Op>, s: Cpu)
    ensures PerformAll(a + b, s) == if PerformAll(a, s).None? then None else PerformAll(b, PerformAll(a, s).value)
    decreases |a|
  {
    hide Perform;
    if a == [] {
      assert a + b == b;
    } else {
      assert (a + b)[1..] == a[1..] + b;
      if Perform(a[0], s).Some? { PerformAppend(a[1..], b, Perform(a[0], s).value); }
    }
  }

  /** State after a sequence of pieces, leaving the program counter aside. */
  ghost predicate Leaves(ops: seq<Op>, s: Cpu, x: Regs, events: seq<Event>) {
    var t := PerformAll(ops, s);
    t.Some? && t.value == s.(pc := t.value.pc, x := x, trace := s.trace + events)
  }

  lemma LeavesAppend(a: seq<Op>, b: seq<Op>, s: Cpu, x: Regs, e: seq<Event>, y: Regs, f: seq<Event>)
    requires Leaves(a, s, x, e) && Leaves(b, PerformAll(a, s).value, y, f)
    ensures Leaves(a + b, s, y, e + f)
  {
    PerformAppend(a, b, s);
    hide PerformAll;
    assert s.trace + e + f == s.trace + (e + f);
  }

  lemma {:induction false} VbePokesLeave(s: Cpu, mmio: nat, v: nat, indices: seq<nat>)
    requires s.x[6] == mmio && mmio + 0x520 <= TWO_64 && OffRam(s.ram, mmio + 0x500, 0x20)
    requires forall i <- indices :: i < 16
    requires v == s.x[7] % TWO_16
    ensures Leaves(VbePokes(indices), s, s.x, VbeEvents(mmio, v, indices))
    decreases |indices|
  {
    if indices == [] {
      NothingLeaves(s);
      assert VbeEvents(mmio, v, indices) == [];
    } else {
      var rest := indices[1..];
      assert indices[0] in indices && forall i <- rest :: i in indices;
      VbePokeLeaves(s, mmio, indices[0]);
      VbePokesJoin(s, mmio, v, indices);
    }
  }

  lemma VbePokesJoin(s: Cpu, mmio: nat, v: nat, indices: seq<nat>)
    requires s.x[6] == mmio && mmio + 0x520 <= TWO_64 && OffRam(s.ram, mmio + 0x500, 0x20)
    requires forall i <- indices :: i < 16
    requires v == s.x[7] % TWO_16 && indices != []
    requires Leaves([Poke16(7, 6, Vbe(indices[0]))], s, s.x, VbeEvents(mmio, v, [indices[0]]))
    ensures Leaves(VbePokes(indices), s, s.x, VbeEvents(mmio, v, indices))
    decreases |indices|, 0
  {
    hide Perform, PerformAll, Vbe, OffRam, VbeEvents;
    var e, rest := VbeEvents(mmio, v, [indices[0]]), indices[1..];
    var s1 := PerformAll([Poke16(7, 6, Vbe(indices[0]))], s).value;
    assert s1.x == s.x && s1.ram == s.ram;
    assert forall i <- rest :: i in indices;
    VbePokesLeave(s1, mmio, v, rest);
    hide *;
    LeavesAppend([Poke16(7, 6, Vbe(indices[0]))], VbePokes(rest), s, s.x, e, s.x, VbeEvents(mmio, v, rest));
    assert e + VbeEvents(mmio, v, rest) == VbeEvents(mmio, v, indices);
    assert VbePokes(indices) == [Poke16(7, 6, Vbe(indices[0]))] + VbePokes(rest);
  }

  lemma NothingLeaves(s: Cpu)
    ensures Leaves([], s, s.x, [])
  {
    assert s.trace + [] == s.trace;
  }

  lemma VbePokeLeaves(s: Cpu, mmio: nat, index: nat)
    requires s.x[6] == mmio && mmio + 0x520 <= TWO_64 && OffRam(s.ram, mmio + 0x500, 0x20) && index < 16
    ensures Leaves([Poke16(7, 6, Vbe(index))], s, s.x, VbeEvents(mmio, s.x[7] % TWO_16, [index]))
  {
    var o, v := Poke16(7, 6, Vbe(index)), s.x[7] % TWO_16;
    assert Wrap(mmio + Vbe(index)) == mmio + Vbe(index);
    assert OffRam(s.ram, mmio + Vbe(index), 2);
    assert VbeEvents(mmio, v, [index]) == [Wrote(mmio + Vbe(index), 2, v)];
    hide Wrap, Vbe;
    assert PerformAll([o], s) == Perform(o, s);
  }

  lemma VbeOpsLeave(s: Cpu, mmio: nat, value: nat, indices: seq<nat>)
    requires s.x[6] == mmio && mmio + 0x520 <= TWO_64 && OffRam(s.ram, mmio + 0x500, 0x20)
    requires forall i <- indices :: i < 16
    ensures Leaves(VbeOps(value, indices), s, s.x[7 := value % TWO_32], VbeEvents(mmio, value % TWO_16, indices))
  {
    var o := Set32(7, value);
    assert PerformAll([o], s) == Perform(o, s);
    var s1 := Perform(o, s).value;
    assert s.trace + [] == s.trace;
    assert Leaves([o], s, s.x[7 := value % TWO_32], []);
    assert value % TWO_32 % TWO_16 == value % TWO_16;
    hide Perform, PerformAll;
    VbePokesLeave(s1, mmio, value % TWO_16, indices);
    var e := VbeEvents(mmio, value % TWO_16, indices);
    LeavesAppend([o], VbePokes(indices), s, s1.x, [], s1.x, e);
    assert [] + e == e;
  }

  /** The display's devices are not RAM, and do not overlap. */
  ghost predicate Devices(ram: map<nat, byte>, cfg: nat, mmio: nat) {
    && cfg + 0x20 <= TWO_64 && mmio + 0x520 <= TWO_64
    && OffRam(ram, cfg, 0x20) && OffRam(ram, mmio + 0x500, 0x20)
    && (cfg + 0x20 <= mmio + 0x500 || mmio + 0x520 <= cfg)
  }

  lemma RegisterPokeLeaves(s: Cpu, rd: nat, value: nat, off: nat)
    requires 2 < rd < 31 && off % 4 == 0 && off <= 0x1C && s.x[2] + 0x20 <= TWO_64 && OffRam(s.ram, s.x[2], 0x20)
    ensures Leaves([Set32(rd, value), Poke32(rd, 2, off)], s, s.x[rd := value % TWO_32],
      [Wrote(s.x[2] + off, 4, value % TWO_32)])
  {
    var o, p := Set32(rd, value), Poke32(rd, 2, off);
    assert Wrap(s.x[2] + off) == s.x[2] + off;
    assert OffRam(s.ram, s.x[2] + off, 4);
    assert value % TWO_32 % TWO_32 == value % TWO_32;
    hide Wrap;
    assert [o, p][1..] == [p];
    assert PerformAll([p], Perform(o, s).value) == Perform(p, Perform(o, s).value);
  }

  lemma ConfigLeaves(s: Cpu, cfg: nat, fb: nat, mmio: nat) returns (x: Regs)
    requires Devices(s.ram, cfg, mmio)
    ensures Leaves(ConfigOps(cfg, fb, mmio), s, x, ConfigEvents(cfg, fb, mmio))
    ensures forall r :: 6 <= r < 31 ==> x[r] == s.x[r]
  {
    hide Perform, Wrap;
    var o := Set64(2, cfg);
    assert Leaves([o], s, s.x[2 := cfg], []) by {
      assert PerformAll([o], s) == Perform(o, s);
      SetLeaves(s, 2, cfg);
    }
    hide PerformAll, OffRam;
    var a, b, c :=
      [Set32(3, fb), Poke32(3, 2, CFG_BAR0)], [Set32(4, mmio), Poke32(4, 2, CFG_BAR2)],
      [Set32(5, CMD_MEMORY), Poke32(5, 2, CFG_COMMAND)];
    var e, f, g :=
      [Wrote(cfg + CFG_BAR0, 4, fb % TWO_32)], [Wrote(cfg + CFG_BAR2, 4, mmio % TWO_32)],
      [Wrote(cfg + CFG_COMMAND, 4, CMD_MEMORY)];
    var s0 := PerformAll([o], s).value;
    RegisterPokeLeaves(s0, 3, fb, CFG_BAR0);
    LeavesAppend([o], a, s, s.x[2 := cfg], [], s0.x[3 := fb % TWO_32], e);
    var s1 := PerformAll([o] + a, s).value;
    RegisterPokeLeaves(s1, 4, mmio, CFG_BAR2);
    LeavesAppend([o] + a, b, s, s1.x, [] + e, s1.x[4 := mmio % TWO_32], f);
    var s2 := PerformAll([o] + a + b, s).value;
    RegisterPokeLeaves(s2, 5, CMD_MEMORY, CFG_COMMAND);
    x := s2.x[5 := CMD_MEMORY];
    LeavesAppend([o] + a + b, c, s, s2.x, [] + e + f, x, g);
    assert [o] + a + b + c == ConfigOps(cfg, fb, mmio) && [] + e + f + g == ConfigEvents(cfg, fb, mmio);
  }

  lemma SetLeaves(s: Cpu, rd: nat, value: nat)
    requires rd < 31 && value < TWO_64
    ensures Leaves([Set64(rd, value)], s, s.x[rd := value], [])
  {
    assert PerformAll([Set64(rd, value)], s) == Perform(Set64(rd, value), s);
    assert s.trace + [] == s.trace;
    hide Wrap;
  }

  lemma ModeLeaves(s: Cpu, mmio: nat, width: nat, height: nat) returns (x: Regs)
    requires mmio + 0x520 <= TWO_64 && OffRam(s.ram, mmio + 0x500, 0x20)
    ensures Leaves(ModeOps(mmio, width, height), s, x, ModeEvents(mmio, width, height))
    ensures forall r :: 0 <= r < 31 && r != 6 && r != 7 ==> x[r] == s.x[r]
  {
    hide Perform, PerformAll, OffRam, VbeOps, VbeEvents;
    hide Leaves;
    var w, h := width % TWO_16, height % TWO_16;
    var ops := [Set64(6, mmio)];
    SetLeaves(s, 6, mmio);
    x := s.x[6 := mmio];
    var ev: seq<Event> := [];
    assert 0 % TWO_16 == 0 && 32 % TWO_16 == 32 && VBE_ON % TWO_16 == VBE_ON;
    ops, x, ev := ThenVbe(s, mmio, ops, x, ev, 0, [VBE_ENABLE]);
    ops, x, ev := ThenVbe(s, mmio, ops, x, ev, width, [VBE_XRES, VBE_VIRT_WIDTH]);
    ops, x, ev := ThenVbe(s, mmio, ops, x, ev, height, [VBE_YRES, VBE_VIRT_HEIGHT]);
    ops, x, ev := ThenVbe(s, mmio, ops, x, ev, 32, [VBE_BPP]);
    ops, x, ev := ThenVbe(s, mmio, ops, x, ev, 0, [VBE_X_OFFSET, VBE_Y_OFFSET]);
    ops, x, ev := ThenVbe(s, mmio, ops, x, ev, VBE_ON, [VBE_ENABLE]);
    Reassociate([Set64(6, mmio)], VbeOps(0, [VBE_ENABLE]), VbeOps(width, [VBE_XRES, VBE_VIRT_WIDTH]),
      VbeOps(height, [VBE_YRES, VBE_VIRT_HEIGHT]), VbeOps(32, [VBE_BPP]), VbeOps(0, [VBE_X_OFFSET, VBE_Y_OFFSET]),
        VbeOps(VBE_ON, [VBE_ENABLE]));
    Reassociate([], VbeEvents(mmio, 0, [VBE_ENABLE]), VbeEvents(mmio, w, [VBE_XRES, VBE_VIRT_WIDTH]),
      VbeEvents(mmio, h, [VBE_YRES, VBE_VIRT_HEIGHT]), VbeEvents(mmio, 32, [VBE_BPP]),
      VbeEvents(mmio, 0, [VBE_X_OFFSET, VBE_Y_OFFSET]), VbeEvents(mmio, VBE_ON, [VBE_ENABLE]));
    assert [] + ModeEvents(mmio, width, height) == ModeEvents(mmio, width, height);
  }

  lemma Reassociate<T>(a: seq<T>, b: seq<T>, c: seq<T>, d: seq<T>, e: seq<T>, f: seq<T>, g: seq<T>)
    ensures a + b + c + d + e + f + g == a + (b + (c + (d + (e + (f + g)))))
  {
  }

  /** One more group of mode-register writes after what has been done so far. */
  lemma ThenVbe(s: Cpu, mmio: nat, ops: seq<Op>, x: Regs, ev: seq<Event>, value: nat, indices: seq<nat>)
    returns (ops1: seq<Op>, x1: Regs, ev1: seq<Event>)
    requires Leaves(ops, s, x, ev) && x[6] == mmio && mmio + 0x520 <= TWO_64 && OffRam(s.ram, mmio + 0x500, 0x20)
    requires forall i <- indices :: i < 16
    ensures ops1 == ops + VbeOps(value, indices) && x1 == x[7 := value % TWO_32]
      && ev1 == ev + VbeEvents(mmio, value % TWO_16, indices)
    ensures Leaves(ops1, s, x1, ev1)
  {
    hide Perform, PerformAll, OffRam, VbeOps, VbeEvents;
    var s1 := PerformAll(ops, s).value;
    VbeOpsLeave(s1, mmio, value, indices);
    ops1, x1, ev1 :=
      ops + VbeOps(value, indices), x[7 := value % TWO_32], ev + VbeEvents(mmio, value % TWO_16, indices);
    hide Leaves;
    LeavesAppend(ops, VbeOps(value, indices), s, x, ev, x1, VbeEvents(mmio, value % TWO_16, indices));
  }
}
