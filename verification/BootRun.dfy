/** What a run of the whole boot stub does, from its load address to the kernel's
    entry: bochs_fb.py, trampoline.py, and their assembly in build_image.py. */
module BootRun {
  import opened Wrappers
  import opened IntFacts
  import opened Octets
  import opened ArmMachine
  import opened ArmWords
  import opened BootStub

  // ---- memory ----

  predicate Disjoint(a: nat, n: nat, b: nat, m: nat) { a + n <= b || b + m <= a }

  lemma WriteTwice(ram: map<nat, byte>, at: nat, a: octets, b: octets)
    ensures Write(Write(ram, at, a), at + |a|, b) == Write(ram, at, a + b)
  {
    hide Write;
    var l, r := Write(Write(ram, at, a), at + |a|, b), Write(ram, at, a + b);
    assert forall k :: k in l <==> k in r;
    forall k | k in l ensures l[k] == r[k] {
      if at <= k < at + |a| { assert (a + b)[k - at] == a[k - at]; }
    }
  }

  /** Code stays in place when something else is written. */
  lemma HoldsKeeps(ram: map<nat, byte>, at: nat, words: seq<nat>, p: nat, b: octets)
    requires Holds(ram, at, words) && Disjoint(at, 4 * |words|, p, |b|)
    ensures Holds(Write(ram, p, b), at, words)
  {
    var after := Write(ram, p, b);
    forall i | 0 <= i < |words| ensures WordIs(after, at + 4 * i, words[i]) {
      assert WordIs(ram, at + 4 * i, words[i]);
      hide Write, Word32;
      assert BytesAt(after, at + 4 * i, 4) == BytesAt(ram, at + 4 * i, 4);
    }
  }

  /** count copies of a four-byte value. */
  function Solid(v: nat, count: nat): (b: octets)
    requires v < TWO_32
    ensures |b| == 4 * count
  {
    if count == 0 then [] else Put32(v) + Solid(v, count - 1)
  }

  lemma {:induction false} SolidIsConstant(v: nat, count: nat, i: nat)
    requires v < TWO_32 && i < count
    ensures Solid(v, count)[4 * i..4 * i + 4] == Put32(v)
    decreases count
  {
    hide Put32;
    var rest := Solid(v, count - 1);
    if i > 0 {
      SolidIsConstant(v, count - 1, i - 1);
      assert Solid(v, count)[4 * i..4 * i + 4] == rest[4 * (i - 1)..4 * (i - 1) + 4];
    }
  }

  // ---- the painting loops ----

  function FillLoop(loop: nat): (words: seq<nat>)
    ensures |words| == 3 && forall w <- words :: w < TWO_32
  {
    [StrWordPost(9, 8, 4), SubsImm32(10, 10, 1), BNe(loop + 8, loop)]
  }

  function BlitLoop(loop: nat): (words: seq<nat>)
    ensures |words| == 4 && forall w <- words :: w < TWO_32
  {
    [LdrWordPost(9, 11, 4), StrWordPost(9, 8, 4), SubsImm32(10, 10, 1), BNe(loop + 12, loop)]
  }

  /** STR W9, [X8], #4 into RAM. */
  function Stored(s: Cpu): Cpu {
    s.(pc := Wrap(s.pc + 4), x := s.x[8 := Wrap(s.x[8] + 4)], ram := Write(s.ram, s.x[8], Put32(s.x[9] % TWO_32)))
  }

  lemma ExecStore(s: Cpu, env: Env)
    requires InRam(s.ram, s.x[8], 4)
    ensures Exec(StrWPost(9, 8, 4), s, env) == Some(Stored(s))
  {
    hide Write, Put32, Wrap, Word32;
  }

  lemma StoreStep(s: Cpu, env: Env)
    requires s.pc % 4 == 0 && Holds(s.ram, s.pc, [StrWordPost(9, 8, 4)]) && InRam(s.ram, s.x[8], 4)
    ensures Run(s, env, 1) == Some(Stored(s))
  {
    hide *;
    PostsDecode(9, 8, 4);
    OneStep(s, env, StrWordPost(9, 8, 4));
    ExecStore(s, env);
  }

  /** SUBS W10, W10, #1 then B.NE: the count goes down, and the branch is taken until it is zero. */
  function Counted(s: Cpu, loop: nat): Cpu
    requires s.x[10] > 0
  {
    s.(pc := if s.x[10] == 1
      then Wrap(s.pc + 8) else loop, x := s.x[10 := s.x[10] - 1], flags := Subtracted(s.x[10], 1))
  }

  lemma OneLeft(count: nat)
    requires 0 < count < TWO_32
    ensures Subtracted(count, 1).z <==> count == 1
  {
  }

  lemma ExecCount(s: Cpu, env: Env, loop: nat)
    requires loop <= s.pc < loop + 64 && s.pc + 8 < TWO_64 && 0 < s.x[10] < TWO_32
    ensures
      var s1 := s.(pc := s.pc + 4, x := s.x[10 := s.x[10] - 1], flags := Subtracted(s.x[10], 1));
      Exec(SubsW(10, 10, 1), s, env) == Some(s1) && Exec(Bne(loop - (s.pc + 4)), s1, env) == Some(Counted(s, loop))
  {
    assert Wrap(s.pc + 4) == s.pc + 4 && Wrap(loop) == loop && (s.x[10] - 1) % TWO_32 == s.x[10] - 1;
    OneLeft(s.x[10]);
    hide Wrap, Decode, Subtracted;
  }

  lemma CountSteps(s: Cpu, env: Env, loop: nat)
    requires s.pc % 4 == 0 && loop % 4 == 0 && loop <= s.pc < loop + 64 && s.pc + 8 < TWO_64 && 0 < s.x[10] < TWO_32
    requires Holds(s.ram, s.pc, [SubsImm32(10, 10, 1), BNe(s.pc + 4, loop)])
    ensures Run(s, env, 2) == Some(Counted(s, loop))
  {
    hide Decode, Holds, SubsImm32, BNe, Run, Exec, Wrap, Subtracted;
    var a, b := SubsImm32(10, 10, 1), BNe(s.pc + 4, loop);
    SubsDecodes(10, 10, 1);
    BNeDecodes(s.pc + 4, loop);
    ExecCount(s, env, loop);
    assert [a, b] == [a] + [b];
    HoldsSplit(s.ram, s.pc, [a], [b]);
    OneStep(s, env, a);
    OneStep(Run(s, env, 1).value, env, b);
    RunOn(s, env, 1, 1);
  }

  /** State when the fill loop is done: count words stored from x8 on. */
  function Filled(s: Cpu, loop: nat): Cpu {
    s.(pc := Wrap(loop + 12), flags := Subtracted(1, 1), x := s.x[8 := Wrap(s.x[8] + 4 * s.x[10])][10 := 0],
       ram := Write(s.ram, s.x[8], Solid(s.x[9] % TWO_32, s.x[10])))
  }

  /** Ready to go round: the code is in place, and apart from what is painted. */
  ghost predicate AtLoop(s: Cpu, loop: nat, words: seq<nat>) {
    && s.pc == loop && loop % 4 == 0 && loop + 4 * |words| < TWO_64 && Holds(s.ram, loop, words)
    && 0 < s.x[10] < TWO_32 && s.x[8] + 4 * s.x[10] <= TWO_64
    && InRam(s.ram, s.x[8], 4 * s.x[10]) && Disjoint(loop, 4 * |words|, s.x[8], 4 * s.x[10])
  }

  /** One turn of the fill loop. */
  function Turned(s: Cpu, loop: nat): Cpu
    requires s.x[10] > 0
  {
    Counted(Stored(s), loop)
  }

  lemma FillTurn(s: Cpu, env: Env, loop: nat)
    requires AtLoop(s, loop, FillLoop(loop))
    ensures Run(s, env, 3) == Some(Turned(s, loop)) && Holds(Turned(s, loop).ram, loop, FillLoop(loop))
  {
    hide Run, Holds, StrWordPost, SubsImm32, BNe, Wrap, Write, Put32, Subtracted, Solid;
    var a, b := [StrWordPost(9, 8, 4)], [SubsImm32(10, 10, 1), BNe(loop + 8, loop)];
    assert FillLoop(loop) == a + b;
    HoldsSplit(s.ram, loop, a, b);
    StoreStep(s, env);
    HoldsKeeps(s.ram, loop, FillLoop(loop), s.x[8], Put32(s.x[9] % TWO_32));
    HoldsSplit(Stored(s).ram, loop, a, b);
    assert Wrap(loop + 4) == loop + 4 by { InRange(loop + 4); }
    CountSteps(Stored(s), env, loop);
    RunOn(s, env, 1, 2);
  }

  lemma InRange(n: nat)
    requires n < TWO_64
    ensures Wrap(n) == n
  {
  }

  /** One turn and then the rest is the whole. */
  lemma FilledOn(s: Cpu, loop: nat)
    requires AtLoop(s, loop, FillLoop(loop)) && s.x[10] > 1
    ensures
      var s1 := Turned(s, loop);
      s1 == s.(pc := loop, flags := s1.flags, x := s1.x, ram := s1.ram) && s1.x[8] == s.x[8] + 4
        && s1.x[10] == s.x[10] - 1
        && s1.x[9] == s.x[9]
      && s1.ram == Write(s.ram, s.x[8], Put32(s.x[9] % TWO_32)) && Filled(s1, loop) == Filled(s, loop)
  {
    hide Holds, FillLoop, Put32, Write, InRam, Disjoint, Subtracted;
    var s1, v := Turned(s, loop), s.x[9] % TWO_32;
    InRange(s.x[8] + 4);
    hide Wrap;
    WriteTwice(s.ram, s.x[8], Put32(v), Solid(v, s.x[10] - 1));
    assert Filled(s1, loop).x == Filled(s, loop).x;
  }

  lemma FilledLast(s: Cpu, loop: nat)
    requires s.pc == loop && loop + 12 < TWO_64 && s.x[10] == 1
    ensures Turned(s, loop) == Filled(s, loop)
  {
    InRange(loop + 4);
    InRange(loop + 12);
    hide Wrap, Put32, Write;
    var v := s.x[9] % TWO_32;
    assert Solid(v, 1) == Put32(v) by { assert Solid(v, 0) == []; }
  }

  lemma {:induction false} FillRuns(s: Cpu, env: Env, loop: nat)
    requires AtLoop(s, loop, FillLoop(loop))
    ensures Run(s, env, 3 * s.x[10]) == Some(Filled(s, loop))
    decreases s.x[10]
  {
    hide Run, Holds, FillLoop, Put32, Wrap, Write, Turned, Filled, Solid;
    FillTurn(s, env, loop);
    var s1, count := Turned(s, loop), s.x[10];
    if count == 1 {
      FilledLast(s, loop);
    } else {
      FilledOn(s, loop);
      StillThere(s.ram, s.x[8], Put32(s.x[9] % TWO_32), s.x[8] + 4, 4 * (count - 1));
      FillRuns(s1, env, loop);
      RunOn(s, env, 3, 3 * (count - 1));
    }
  }

  lemma StillThere(ram: map<nat, byte>, at: nat, b: octets, p: nat, n: nat)
    requires InRam(ram, p, n)
    ensures InRam(Write(ram, at, b), p, n)
  {
    hide Write;
  }

  // ---- the blit ----

  function Copied(s: Cpu, loop: nat, last: nat): Cpu
    requires InRam(s.ram, s.x[11], 4 * s.x[10])
  {
    s.(pc := Wrap(loop + 16), flags := Subtracted(1, 1),
       x := LastRegs(s.x, last),
       ram := Write(s.ram, s.x[8], BytesAt(s.ram, s.x[11], 4 * s.x[10])))
  }

  /** LDR W9, [X11], #4 from RAM. */
  function Fetched(s: Cpu): Cpu
    requires InRam(s.ram, s.x[11], 4)
  {
    s.(pc := Wrap(s.pc + 4), x := s.x[9 := Word32(BytesAt(s.ram, s.x[11], 4), 0)][11 := Wrap(s.x[11] + 4)])
  }

  lemma ExecFetch(s: Cpu, env: Env)
    requires InRam(s.ram, s.x[11], 4)
    ensures Exec(LdrWPost(9, 11, 4), s, env) == Some(Fetched(s))
  {
    hide Word32, Wrap, BytesAt;
  }

  lemma FetchStep(s: Cpu, env: Env)
    requires s.pc % 4 == 0 && Holds(s.ram, s.pc, [LdrWordPost(9, 11, 4)]) && InRam(s.ram, s.x[11], 4)
    ensures Run(s, env, 1) == Some(Fetched(s))
  {
    hide *;
    PostsDecode(9, 11, 4);
    OneStep(s, env, LdrWordPost(9, 11, 4));
    ExecFetch(s, env);
  }

  lemma WordBytes(b: octets)
    requires |b| == 4
    ensures Put32(Word32(b, 0) % TWO_32) == b
  {
    var n := Word32(b, 0);
    assert n % TWO_32 == n && n % 0x1_0000 == Word16(b, 0) && n / 0x1_0000 == Word16(b, 2);
    hide Word16, Put16, Word32;
    HalfBytes(b, 0);
    HalfBytes(b, 2);
  }

  lemma HalfBytes(b: octets, i: nat)
    requires i + 2 <= |b|
    ensures Put16(Word16(b, i)) == b[i..i + 2]
  {
  }

  /** The picture is in RAM, clear of where it goes. */
  ghost predicate HasPicture(s: Cpu) {
    && InRam(s.ram, s.x[11], 4 * s.x[10]) && s.x[11] + 4 * s.x[10] <= TWO_64
    && Disjoint(s.x[11], 4 * s.x[10], s.x[8], 4 * s.x[10])
  }

  function Moved(s: Cpu, loop: nat): Cpu
    requires InRam(s.ram, s.x[11], 4) && s.x[10] > 0
  {
    Counted(Stored(Fetched(s)), loop)
  }

  lemma BlitTurn(s: Cpu, env: Env, loop: nat)
    requires AtLoop(s, loop, BlitLoop(loop)) && HasPicture(s)
    ensures Run(s, env, 4) == Some(Moved(s, loop)) && Holds(Moved(s, loop).ram, loop, BlitLoop(loop))
  {
    hide Run, Holds, StrWordPost, LdrWordPost, SubsImm32, BNe, Wrap, Write, Put32, Word32, BytesAt;
    var a, b, c := [LdrWordPost(9, 11, 4)], [StrWordPost(9, 8, 4)], [SubsImm32(10, 10, 1), BNe(loop + 12, loop)];
    assert BlitLoop(loop) == a + (b + c);
    HoldsSplit(s.ram, loop, a, b + c);
    HoldsSplit(s.ram, loop + 4, b, c);
    FetchStep(s, env);
    InRange(loop + 4);
    InRange(loop + 8);
    var s1 := Fetched(s);
    StoreStep(s1, env);
    HoldsKeeps(s.ram, loop, BlitLoop(loop), s.x[8], Put32(s1.x[9] % TWO_32));
    var s2 := Stored(s1);
    HoldsSplit(s2.ram, loop, a, b + c);
    HoldsSplit(s2.ram, loop + 4, b, c);
    CountSteps(s2, env, loop);
    RunOn(s, env, 1, 1);
    RunOn(s, env, 2, 2);
  }

  /** The registers after one turn; w is the word carried over. */
  function NextRegs(x: Regs, w: nat): Regs
    requires x[10] > 0
  {
    x[9 := w][11 := Wrap(x[11] + 4)][8 := Wrap(x[8] + 4)][10 := x[10] - 1]
  }

  /** The registers after all turns. */
  function LastRegs(x: Regs, last: nat): Regs {
    x[8 := Wrap(x[8] + 4 * x[10])][9 := last][10 := 0][11 := Wrap(x[11] + 4 * x[10])]
  }

  /** One turn of the blit loop as one change of state. */
  function AfterMove(s: Cpu, loop: nat, w: nat): Cpu
    requires InRam(s.ram, s.x[11], 4) && s.x[10] > 0
  {
    hide Wrap, Write, NextRegs;
    s.(pc := if s.x[10] == 1 then Wrap(loop + 16) else loop, flags := Subtracted(s.x[10], 1), x := NextRegs(s.x, w),
       ram := Write(s.ram, s.x[8], BytesAt(s.ram, s.x[11], 4)))
  }

  lemma MovedIs(s: Cpu, loop: nat) returns (w: nat)
    requires s.pc == loop && loop + 16 < TWO_64 && s.x[10] > 0 && InRam(s.ram, s.x[11], 4)
    ensures Moved(s, loop) == AfterMove(s, loop, w)
  {
    hide Wrap, Word32, Put32, BytesAt, Write, InRam;
    w := Word32(BytesAt(s.ram, s.x[11], 4), 0);
    WordBytes(BytesAt(s.ram, s.x[11], 4));
    InRange(loop + 4);
    InRange(loop + 8);
  }

  /** After one word, what is left to copy is the rest of the same picture. */
  lemma RestOfPicture(ram: map<nat, byte>, p: nat, q: nat, n: nat)
    requires InRam(ram, q, 4 + n) && Disjoint(q, 4 + n, p, 4 + n)
    ensures
      var after := Write(ram, p, BytesAt(ram, q, 4));
      InRam(after, q + 4, n) && Write(after, p + 4, BytesAt(after, q + 4, n)) == Write(ram, p, BytesAt(ram, q, 4 + n))
  {
    hide Write;
    var a := BytesAt(ram, q, 4);
    var after := Write(ram, p, a);
    assert BytesAt(after, q + 4, n) == BytesAt(ram, q + 4, n);
    assert a + BytesAt(ram, q + 4, n) == BytesAt(ram, q, 4 + n);
    WriteTwice(ram, p, a, BytesAt(ram, q + 4, n));
  }

  lemma PictureGoesOn(s: Cpu, loop: nat, w: nat)
    requires s.pc == loop && s.x[10] > 1 && s.x[8] + 4 * s.x[10] <= TWO_64 && InRam(s.ram, s.x[8], 4 * s.x[10])
      && HasPicture(s)
    ensures
      var s1 := AfterMove(s, loop, w);
      && HasPicture(s1) && s1.x[8] == s.x[8] + 4 && s1.x[10] == s.x[10] - 1 && s1.x[11] == s.x[11] + 4
         && InRam(s1.ram, s1.x[8], 4 * s1.x[10])
  {
    hide Write, BytesAt, Wrap;
    InRange(s.x[8] + 4);
    InRange(s.x[11] + 4);
  }

  lemma CopiedRegs(x: Regs, w: nat, last: nat)
    requires x[10] > 1 && x[8] + 4 < TWO_64 && x[11] + 4 < TWO_64
    ensures LastRegs(NextRegs(x, w), last) == LastRegs(x, last)
  {
    InRange(x[8] + 4);
    InRange(x[11] + 4);
    hide Wrap;
  }

  lemma CopiedOn(s: Cpu, loop: nat, w: nat, last: nat)
    requires s.pc == loop && s.x[10] > 1 && s.x[8] + 4 * s.x[10] <= TWO_64 && InRam(s.ram, s.x[8], 4 * s.x[10])
      && HasPicture(s)
    ensures InRam(AfterMove(s, loop, w).ram, AfterMove(s, loop, w).x[11], 4 * AfterMove(s, loop, w).x[10])
    ensures Copied(AfterMove(s, loop, w), loop, last) == Copied(s, loop, last)
  {
    hide Wrap, Write, BytesAt, InRam, Disjoint, NextRegs, LastRegs;
    var n := 4 * (s.x[10] - 1);
    assert 4 + n == 4 * s.x[10];
    FirstWord(s.ram, s.x[11], n);
    PictureGoesOn(s, loop, w);
    RestOfPicture(s.ram, s.x[8], s.x[11], n);
    CopiedRegs(s.x, w, last);
  }

  lemma FirstWord(ram: map<nat, byte>, at: nat, n: nat)
    requires InRam(ram, at, 4 + n)
    ensures InRam(ram, at, 4)
  {
  }

  lemma CopiedLast(s: Cpu, loop: nat, w: nat)
    requires s.pc == loop && s.x[10] == 1 && InRam(s.ram, s.x[11], 4 * s.x[10])
    ensures AfterMove(s, loop, w) == Copied(s, loop, w)
  {
    hide Wrap, Write, BytesAt;
    assert AfterMove(s, loop, w).x == Copied(s, loop, w).x;
  }

  lemma {:induction false} BlitRuns(s: Cpu, env: Env, loop: nat) returns (last: nat)
    requires AtLoop(s, loop, BlitLoop(loop)) && HasPicture(s)
    ensures Run(s, env, 4 * s.x[10]) == Some(Copied(s, loop, last))
    decreases s.x[10]
  {
    hide Run, Holds, BlitLoop, Moved, Write, BytesAt, Copied, Wrap;
    BlitTurn(s, env, loop);
    last := MovedIs(s, loop);
    var s1, count := Moved(s, loop), s.x[10];
    if count == 1 {
      CopiedLast(s, loop, last);
    } else {
      PictureGoesOn(s, loop, last);
      var w := last;
      last := BlitRuns(s1, env, loop);
      CopiedOn(s, loop, w, last);
      RunOn(s, env, 4, 4 * (count - 1));
    }
  }

  // ---- the whole stub ----

  /** What the display is left showing. */
  datatype Paint = Fill(colour: nat) | Blit(from: nat) | Leave

  datatype Display = Display(ecam: nat, device: nat, fb: nat, mmio: nat, width: nat, height: nat) {
    function Cfg(): nat { ecam + device * 0x8000 }
    function Pixels(): nat { width * height }
  }

  function SetupOps(d: Display): seq<Op> { ConfigOps(d.Cfg(), d.fb, d.mmio) + ModeOps(d.mmio, d.width, d.height) }

  function PaintOps(d: Display, paint: Paint): seq<Op> {
    match paint
    case Fill(colour) => [Set64(8, d.fb), Set32(9, colour), Set32(10, d.Pixels())]
    case Blit(from) => [Set64(8, d.fb), Set64(11, from), Set32(10, d.Pixels())]
    case Leave => []
  }

  lemma OpsAreEmittable(d: Display, paint: Paint)
    ensures forall o <- SetupOps(d) :: Emittable(o)
    ensures forall o <- PaintOps(d, paint) :: Emittable(o)
  {
    PokesAreEmittable([VBE_ENABLE]);
    PokesAreEmittable([VBE_XRES, VBE_VIRT_WIDTH]);
    PokesAreEmittable([VBE_YRES, VBE_VIRT_HEIGHT]);
    PokesAreEmittable([VBE_BPP]);
    PokesAreEmittable([VBE_X_OFFSET, VBE_Y_OFFSET]);
    hide VbePokes;
  }

  lemma {:induction false} PokesAreEmittable(indices: seq<nat>)
    requires forall i <- indices :: i < 16
    ensures forall o <- VbePokes(indices) :: Emittable(o)
    decreases |indices|
  {
    if indices != [] {
      assert indices[0] in indices && forall i <- indices[1..] :: i in indices;
      PokesAreEmittable(indices[1..]);
    }
  }

  function Loop(paint: Paint, loop: nat): (words: seq<nat>)
    ensures |words| <= 4 && forall w <- words :: w < TWO_32
  {
    match paint
    case Fill(_) => FillLoop(loop)
    case Blit(_) => BlitLoop(loop)
    case Leave => []
  }

  /** bochs_fb.build. */
  function DisplayWords(d: Display, at: nat, paint: Paint): (words: seq<nat>)
    ensures forall w <- words :: w < TWO_32
  {
    OpsAreEmittable(d, paint);
    var straight := EmitAll(SetupOps(d)) + EmitAll(PaintOps(d, paint));
    straight + Loop(paint, at + 4 * |straight|)
  }

  const MSR_DAIFSET_ALL := 0xD503_4FDF
  const MSR_MDSCR_EL1_ZERO := 0xD510_025F
  const BR_X1 := 0xD61F_0020

  /** trampoline.build after the display words. */
  function EntryWords(x0: nat, entry: nat, mask: bool): (words: seq<nat>)
    ensures forall w <- words :: w < TWO_32
  {
    (if mask then [MSR_DAIFSET_ALL, MSR_MDSCR_EL1_ZERO] else []) + (Load64(0, x0) + (Load64(1, entry) + [BR_X1]))
  }

  lemma EntryDecodes()
    ensures Decode(MSR_DAIFSET_ALL) == MaskDaif(15)
    ensures Decode(MSR_MDSCR_EL1_ZERO) == ClearMdscr
    ensures Decode(BR_X1) == ArmMachine.Br(1)
  {
    Parts(MSR_DAIFSET_ALL, 0x6A8, 0x03_4FDF);
    Parts(MSR_MDSCR_EL1_ZERO, 0x6A8, 0x10_025F);
    Parts(BR_X1, 0x6B0, 0x1F_0020);
    hide Decode;
  }

  /** The state in which the kernel is entered. */
  function Entered(s: Cpu, x0: nat, entry: nat, mask: bool): Cpu {
    s.(pc := entry % TWO_64, x := s.x[0 := x0 % TWO_64][1 := entry % TWO_64],
       masked := if mask then s.masked + {0, 1, 2, 3} else s.masked, mdscr := if mask then 0 else s.mdscr)
  }

  lemma MaskSteps(s: Cpu, env: Env)
    requires s.pc % 4 == 0 && s.pc + 8 < TWO_64 && Holds(s.ram, s.pc, [MSR_DAIFSET_ALL] + [MSR_MDSCR_EL1_ZERO])
    ensures Run(s, env, 2) == Some(s.(pc := s.pc + 8, masked := s.masked + {0, 1, 2, 3}, mdscr := 0))
  {
    EntryDecodes();
    ExecMasks(s, env);
    hide Decode, Exec, Run, Holds, Wrap;
    InRange(s.pc + 4);
    InRange(s.pc + 8);
    HoldsSplit(s.ram, s.pc, [MSR_DAIFSET_ALL], [MSR_MDSCR_EL1_ZERO]);
    OneStep(s, env, MSR_DAIFSET_ALL);
    var s1 := s.(pc := s.pc + 4, masked := s.masked + {0, 1, 2, 3});
    ExecClear(s1, env);
    OneStep(s1, env, MSR_MDSCR_EL1_ZERO);
    RunOn(s, env, 1, 1);
  }

  lemma ExecMasks(s: Cpu, env: Env)
    ensures Exec(MaskDaif(15), s, env) == Some(Next(s).(masked := s.masked + {0, 1, 2, 3}))
  {
    assert Bit(15, 1) == Bit(7, 0) && Bit(15, 2) == Bit(7, 1) == Bit(3, 0)
      && Bit(15, 3) == Bit(7, 2) == Bit(3, 1) == Bit(1, 0);
    assert MaskBits(15) == {0, 1, 2, 3};
    hide Bit, Wrap, MaskBits;
  }

  lemma ExecClear(s: Cpu, env: Env)
    ensures Exec(ClearMdscr, s, env) == Some(Next(s).(mdscr := 0))
  {
    hide Wrap;
  }

  lemma EntryLength(x0: nat, entry: nat, mask: bool)
    ensures |EntryWords(x0, entry, mask)| == if mask then 11 else 9
    ensures !mask ==> EntryWords(x0, entry, mask) == Load64(0, x0) + (Load64(1, entry) + [BR_X1])
  {
    hide Load64;
  }

  lemma EntryRuns(s: Cpu, env: Env, x0: nat, entry: nat, mask: bool)
    requires s.pc % 4 == 0 && s.pc + 4 * |EntryWords(x0, entry, mask)| < TWO_64
      && Holds(s.ram, s.pc, EntryWords(x0, entry, mask))
    ensures Run(s, env, |EntryWords(x0, entry, mask)|) == Some(Entered(s, x0, entry, mask))
  {
    hide Run, Holds, EntryWords;
    EntryLength(x0, entry, mask);
    if mask {
      MaskedEntryRuns(s, env, x0, entry);
    } else {
      JumpRuns(s, env, x0, entry);
      assert Run(s, env, 9) == Some(Entered(s, x0, entry, mask));
    }
  }

  lemma MaskedEntryRuns(s: Cpu, env: Env, x0: nat, entry: nat)
    requires s.pc % 4 == 0 && s.pc + 44 < TWO_64 && Holds(s.ram, s.pc, EntryWords(x0, entry, true))
    ensures |EntryWords(x0, entry, true)| == 11 && Run(s, env, 11) == Some(Entered(s, x0, entry, true))
  {
    hide Decode, Exec, Run, Holds, Wrap, Load64;
    var masks, rest := [MSR_DAIFSET_ALL] + [MSR_MDSCR_EL1_ZERO], Load64(0, x0) + (Load64(1, entry) + [BR_X1]);
    assert EntryWords(x0, entry, true) == masks + rest;
    HoldsSplit(s.ram, s.pc, masks, rest);
    MaskSteps(s, env);
    JumpRuns(s.(pc := s.pc + 8, masked := s.masked + {0, 1, 2, 3}, mdscr := 0), env, x0, entry);
    RunOn(s, env, 2, 9);
  }

  lemma JumpRuns(s: Cpu, env: Env, x0: nat, entry: nat)
    requires s.pc % 4 == 0 && s.pc + 36 < TWO_64 && Holds(s.ram, s.pc, Load64(0, x0) + (Load64(1, entry) + [BR_X1]))
    ensures Run(s, env, 9) == Some(s.(pc := entry % TWO_64, x := s.x[0 := x0 % TWO_64][1 := entry % TWO_64]))
  {
    hide Decode, Exec, Run, Holds, Wrap, Load64;
    EntryDecodes();
    HoldsSplit(s.ram, s.pc, Load64(0, x0), Load64(1, entry) + [BR_X1]);
    HoldsSplit(s.ram, s.pc + 16, Load64(1, entry), [BR_X1]);
    InRange(s.pc + 16);
    InRange(s.pc + 32);
    Set64Runs(s, env, 0, x0);
    var s1 := s.(pc := s.pc + 16, x := s.x[0 := x0 % TWO_64]);
    Set64Runs(s1, env, 1, entry);
    RunOn(s, env, 4, 4);
    var s2 := s1.(pc := s.pc + 32, x := s1.x[1 := entry % TWO_64]);
    OneStep(s2, env, BR_X1);
    ExecBr(s2, env);
    RunOn(s, env, 8, 1);
  }

  lemma ExecBr(s: Cpu, env: Env)
    requires s.x[1] < TWO_64
    ensures Exec(ArmMachine.Br(1), s, env) == Some(s.(pc := s.x[1]))
  {
  }

  /** Room for the picture, clear of the code, and of the source when one is copied. */
  ghost predicate CanPaint(ram: map<nat, byte>, at: nat, codeLen: nat, d: Display, paint: Paint) {
    var size := 4 * d.Pixels();
    !paint.Leave? ==>
      && 0 < d.Pixels() < TWO_32 && d.fb + size <= TWO_64
      && InRam(ram, d.fb, size) && Disjoint(at, codeLen, d.fb, size)
      && (paint.Blit? ==>
         InRam(ram, paint.from, size) && paint.from + size <= TWO_64 && Disjoint(paint.from, size, d.fb, size))
  }

  /** The bytes the framebuffer ends up with. */
  function Picture(ram: map<nat, byte>, d: Display, paint: Paint): octets
    requires paint.Blit? ==> InRam(ram, paint.from, 4 * d.Pixels())
  {
    match paint
    case Fill(colour) => Solid(colour % TWO_32, d.Pixels())
    case Blit(from) => BytesAt(ram, from, 4 * d.Pixels())
    case Leave => []
  }

  function DisplayEvents(d: Display): seq<Event> {
    ConfigEvents(d.Cfg(), d.fb, d.mmio) + ModeEvents(d.mmio, d.width, d.height)
  }

  lemma Set32Leaves(s: Cpu, rd: nat, value: nat)
    requires rd < 31
    ensures Leaves([Set32(rd, value)], s, s.x[rd := value % TWO_32], [])
  {
    assert PerformAll([Set32(rd, value)], s) == Perform(Set32(rd, value), s);
    assert s.trace + [] == s.trace;
    hide Wrap;
  }

  lemma PaintLeaves(s: Cpu, d: Display, paint: Paint) returns (x: Regs)
    requires !paint.Leave? && d.fb < TWO_64 && d.Pixels() < TWO_32 && (paint.Blit? ==> paint.from < TWO_64)
    ensures Leaves(PaintOps(d, paint), s, x, [])
    ensures x[8] == d.fb && x[10] == d.Pixels()
    ensures if paint.Fill? then x[9] == paint.colour % TWO_32 else x[11] == paint.from
  {
    var a := [Set64(8, d.fb)];
    var b := if paint.Fill? then [Set32(9, paint.colour)] else [Set64(11, paint.from)];
    var c := [Set32(10, d.Pixels())];
    var n := d.Pixels();
    hide Display.Pixels, Perform, PerformAll;
    SetLeaves(s, 8, d.fb);
    var x1 := s.x[8 := d.fb];
    var s1 := PerformAll(a, s).value;
    if paint.Fill? { Set32Leaves(s1, 9, paint.colour); } else { SetLeaves(s1, 11, paint.from); }
    var x2 := if paint.Fill? then x1[9 := paint.colour % TWO_32] else x1[11 := paint.from];
    LeavesAppend(a, b, s, x1, [], x2, []);
    var s2 := PerformAll(a + b, s).value;
    Set32Leaves(s2, 10, n);
    assert n % TWO_32 == n;
    x := x2[10 := n];
    LeavesAppend(a + b, c, s, x2, [], x, []);
    assert a + b + c == PaintOps(d, paint);
    var none: seq<Event> := [];
    assert none + none == none;
  }

  lemma SetupLeaves(s: Cpu, d: Display) returns (x: Regs)
    requires Devices(s.ram, d.Cfg(), d.mmio)
    ensures Leaves(SetupOps(d), s, x, DisplayEvents(d))
  {
    hide Perform, PerformAll, ConfigOps, ModeOps, ConfigEvents, ModeEvents, OffRam, Display.Cfg;
    x := ConfigLeaves(s, d.Cfg(), d.fb, d.mmio);
    var a, b := ConfigOps(d.Cfg(), d.fb, d.mmio), ModeOps(d.mmio, d.width, d.height);
    var y := ModeLeaves(PerformAll(a, s).value, d.mmio, d.width, d.height);
    LeavesAppend(a, b, s, x, ConfigEvents(d.Cfg(), d.fb, d.mmio), y, ModeEvents(d.mmio, d.width, d.height));
    x := y;
  }

  /** A run of straight-line pieces whose effect is known. */
  lemma StraightRuns(s: Cpu, env: Env, ops: seq<Op>, x: Regs, e: seq<Event>)
    requires s.pc % 4 == 0 && (forall o <- ops :: Emittable(o)) && s.pc + 4 * |EmitAll(ops)| < TWO_64
    requires Holds(s.ram, s.pc, EmitAll(ops)) && Leaves(ops, s, x, e)
    ensures Run(s, env, |EmitAll(ops)|) == Some(s.(pc := s.pc + 4 * |EmitAll(ops)|, x := x, trace := s.trace + e))
  {
    hide Run, Holds, EmitAll, PerformAll;
    OpsRun(s, env, ops);
  }

  lemma LoopRuns(s: Cpu, env: Env, d: Display, paint: Paint) returns (n: nat, t: Cpu)
    requires !paint.Leave? && s.pc % 4 == 0 && s.pc + 4 * |Loop(paint, s.pc)| < TWO_64
      && Holds(s.ram, s.pc, Loop(paint, s.pc))
    requires CanPaint(s.ram, s.pc, 4 * |Loop(paint, s.pc)|, d, paint)
    requires s.x[8] == d.fb && s.x[10] == d.Pixels()
    requires if paint.Fill? then s.x[9] == paint.colour % TWO_32 else s.x[11] == paint.from
    ensures Run(s, env, n) == Some(t)
    ensures t == s.(pc := s.pc + 4 * |Loop(paint, s.pc)|, x := t.x, flags := t.flags,
      ram := Write(s.ram, d.fb, Picture(s.ram, d, paint)))
  {
    hide Run, Holds, FillLoop, BlitLoop, Write, BytesAt, Solid, Wrap, Display.Pixels;
    if paint.Fill? {
      FillRuns(s, env, s.pc);
      InRange(s.pc + 12);
      n, t := 3 * s.x[10], Filled(s, s.pc);
    } else {
      var last := BlitRuns(s, env, s.pc);
      InRange(s.pc + 16);
      n, t := 4 * s.x[10], Copied(s, s.pc, last);
    }
  }

  lemma EmptyIsWritten(ram: map<nat, byte>, at: nat)
    ensures Write(ram, at, []) == ram
  {
  }

  /** bochs_fb.build, run from where it is loaded: the devices see exactly the
      bring-up, and RAM changes only by the picture. */
  lemma DisplayRuns(s: Cpu, env: Env, d: Display, paint: Paint) returns (n: nat, t: Cpu)
    requires s.pc % 4 == 0 && s.pc + 4 * |DisplayWords(d, s.pc, paint)| < TWO_64
    requires Holds(s.ram, s.pc, DisplayWords(d, s.pc, paint)) && Devices(s.ram, d.Cfg(), d.mmio)
    requires CanPaint(s.ram, s.pc, 4 * |DisplayWords(d, s.pc, paint)|, d, paint)
    ensures Run(s, env, n) == Some(t)
    ensures t == s.(pc := s.pc + 4 * |DisplayWords(d, s.pc, paint)|, x := t.x, flags := t.flags,
                    trace := s.trace + DisplayEvents(d), ram := Write(s.ram, d.fb, Picture(s.ram, d, paint)))
  {
    OpsAreEmittable(d, paint);
    NothingEmitted(d);
    hide Run, Holds, EmitAll, PerformAll, SetupOps, PaintOps, Loop, Write, Solid, BytesAt, DisplayEvents, OffRam,
      Leaves, Display.Pixels, Display.Cfg;
    var a, b := EmitAll(SetupOps(d)), EmitAll(PaintOps(d, paint));
    var at := s.pc + 4 * |a + b|;
    var loop := Loop(paint, at);
    assert DisplayWords(d, s.pc, paint) == (a + b) + loop;
    HoldsSplit(s.ram, s.pc, a + b, loop);
    HoldsSplit(s.ram, s.pc, a, b);
    var x := SetupLeaves(s, d);
    StraightRuns(s, env, SetupOps(d), x, DisplayEvents(d));
    var s1 := s.(pc := s.pc + 4 * |a|, x := x, trace := s.trace + DisplayEvents(d));
    Aligned(s.pc, |a|);
    if paint.Leave? {
      n, t := |a|, s1;
      EmptyIsWritten(s.ram, d.fb);
    } else {
      var m: nat;
      assert CanPaint(s1.ram, at, 4 * |loop|, d, paint);
      m, t := PaintRuns(s1, env, d, paint);
      RunOn(s, env, |a|, m);
      n := |a| + m;
    }
  }

  lemma NothingEmitted(d: Display)
    ensures EmitAll([]) == [] && PaintOps(d, Leave) == [] && Loop(Leave, 0) == []
    ensures forall at :: Loop(Leave, at) == []
  {
  }

  /** The second half: load the operands, then go round the loop. */
  lemma PaintRuns(s: Cpu, env: Env, d: Display, paint: Paint) returns (n: nat, t: Cpu)
    requires !paint.Leave? && s.pc % 4 == 0 && forall o <- PaintOps(d, paint) :: Emittable(o)
    requires
      var b := EmitAll(PaintOps(d, paint));
      var at := s.pc + 4 * |b|;
      && at + 4 * |Loop(paint, at)| < TWO_64 && Holds(s.ram, s.pc, b) && Holds(s.ram, at, Loop(paint, at))
      && CanPaint(s.ram, at, 4 * |Loop(paint, at)|, d, paint)
    ensures Run(s, env, n) == Some(t)
    ensures
      var at := s.pc + 4 * |EmitAll(PaintOps(d, paint))|;
      t == s.(pc := at + 4 * |Loop(paint, at)|, x := t.x, flags := t.flags, ram :=
        Write(s.ram, d.fb, Picture(s.ram, d, paint)))
  {
    hide Run, Holds, EmitAll, PerformAll, PaintOps, Loop, Write, Solid, BytesAt, OffRam;
    var b := EmitAll(PaintOps(d, paint));
    var x := PaintLeaves(s, d, paint);
    hide Leaves;
    StraightRuns(s, env, PaintOps(d, paint), x, []);
    Aligned(s.pc, |b|);
    assert s.trace + [] == s.trace;
    var s1 := s.(pc := s.pc + 4 * |b|, x := x);
    var m: nat;
    m, t := LoopRuns(s1, env, d, paint);
    RunOn(s, env, |b|, m);
    n := |b| + m;
  }

  /** trampoline.build with a display to bring up, or none. */
  function StubWords(display: Option<Display>, at: nat, paint: Paint, x0: nat, entry: nat,
    mask: bool): (words: seq<nat>)
    ensures forall w <- words :: w < TWO_32
  {
    (if display.Some? then DisplayWords(display.value, at, paint) else []) + EntryWords(x0, entry, mask)
  }

  /** The stub, run from where it is loaded, enters the kernel. The framebuffer
      holds the picture and no other byte of RAM changes; the devices see exactly
      the bring-up; interrupts and debug are off when masking was asked for. */
  lemma StubRuns(s: Cpu, env: Env, d: Display, paint: Paint, x0: nat, entry: nat, mask: bool) returns (n: nat, t: Cpu)
    requires s.pc % 4 == 0 && s.pc + 4 * |StubWords(Some(d), s.pc, paint, x0, entry, mask)| < TWO_64
    requires Holds(s.ram, s.pc, StubWords(Some(d), s.pc, paint, x0, entry, mask))
    requires Devices(s.ram, d.Cfg(), d.mmio)
    requires CanPaint(s.ram, s.pc, 4 * |StubWords(Some(d), s.pc, paint, x0, entry, mask)|, d, paint)
    ensures Run(s, env, n) == Some(t)
    ensures t.pc == entry % TWO_64 && t.x[0] == x0 % TWO_64
    ensures t.ram == Write(s.ram, d.fb, Picture(s.ram, d, paint))
    ensures t.trace == s.trace + DisplayEvents(d)
    ensures mask ==> {0, 1, 2, 3} <= t.masked && t.mdscr == 0
  {
    hide Run, Holds, DisplayWords, EntryWords, Write, Solid, BytesAt, DisplayEvents, OffRam, Display.Pixels,
      Display.Cfg;
    var a, b := DisplayWords(d, s.pc, paint), EntryWords(x0, entry, mask);
    assert StubWords(Some(d), s.pc, paint, x0, entry, mask) == a + b;
    HoldsSplit(s.ram, s.pc, a, b);
    var m, s1 := DisplayRuns(s, env, d, paint);
    PictureFits(s.ram, d, paint);
    if paint.Leave? {
      EmptyIsWritten(s.ram, d.fb);
    } else {
      HoldsKeeps(s.ram, s.pc + 4 * |a|, b, d.fb, Picture(s.ram, d, paint));
    }
    Aligned(s.pc, |a|);
    EntryRuns(s1, env, x0, entry, mask);
    RunOn(s, env, m, |b|);
    n, t := m + |b|, Entered(s1, x0, entry, mask);
  }

  lemma PictureFits(ram: map<nat, byte>, d: Display, paint: Paint)
    requires paint.Blit? ==> InRam(ram, paint.from, 4 * d.Pixels())
    ensures |Picture(ram, d, paint)| == if paint.Leave? then 0 else 4 * d.Pixels()
  {
    hide BytesAt, Solid, Display.Pixels;
  }

  /** Without a display the stub only enters the kernel. */
  lemma BareStubRuns(s: Cpu, env: Env, x0: nat, entry: nat, mask: bool) returns (n: nat, t: Cpu)
    requires s.pc % 4 == 0 && s.pc + 4 * |StubWords(None, s.pc, Leave, x0, entry, mask)| < TWO_64
    requires Holds(s.ram, s.pc, StubWords(None, s.pc, Leave, x0, entry, mask))
    ensures Run(s, env, n) == Some(t)
    ensures t == s.(pc := entry % TWO_64, x := t.x, masked := t.masked, mdscr := t.mdscr) && t.x[0] == x0 % TWO_64
  {
    hide Run, Holds, EntryWords;
    assert StubWords(None, s.pc, Leave, x0, entry, mask) == EntryWords(x0, entry, mask);
    EntryRuns(s, env, x0, entry, mask);
    n, t := |EntryWords(x0, entry, mask)|, Entered(s, x0, entry, mask);
  }

  // ---- the mode registers are quiet ----

  /** A mode register is one of the 16-bit ones other than the enable register. */
  predicate SetsMode(e: Event, mmio: nat) {
    e.Wrote? && mmio + 0x500 <= e.at < mmio + 0x520 && e.at != mmio + 0x508
  }

  predicate SetsEnable(e: Event, mmio: nat) { e.Wrote? && e.at == mmio + 0x508 }

  /** Each mode write follows a disabling write with no enable write between. */
  ghost predicate QuietModes(trace: seq<Event>, mmio: nat) {
    forall i :: 0 <= i < |trace| && SetsMode(trace[i], mmio) ==> DisabledAt(trace, i, mmio)
  }

  ghost predicate DisabledAt(trace: seq<Event>, i: nat, mmio: nat)
    requires i <= |trace|
  {
    exists j :: 0 <= j < i && SetsEnable(trace[j], mmio) && trace[j].value % 2 == 0 && forall k ::
      j < k < i ==> !SetsEnable(trace[k], mmio)
  }

  /** The bring-up writes the mode only while the display is off, and ends with it
      on: linear framebuffer, 32 bits deep, of the size asked for modulo 2^16. */
  lemma ModeSetWhileDisabled(d: Display)
    requires d.Cfg() + 0x20 <= d.mmio + 0x500 || d.mmio + 0x520 <= d.Cfg()
    ensures QuietModes(DisplayEvents(d), d.mmio)
    ensures LastValue(DisplayEvents(d), d.mmio + 0x508) == Some(0x41)
    ensures LastValue(DisplayEvents(d), d.mmio + 0x506) == Some(32)
    ensures LastValue(DisplayEvents(d), d.mmio + 0x502) == Some(d.width % 0x1_0000)
    ensures LastValue(DisplayEvents(d), d.mmio + 0x504) == Some(d.height % 0x1_0000)
  {
    var e := DisplayEvents(d);
    CfgIs(d);
    BringUpIs(d);
    hide DisplayEvents, Display.Cfg, LastValue;
    assert forall i :: 0 <= i < 12 && SetsEnable(e[i], d.mmio) ==> i == 3 || i == 11;
    forall i | 0 <= i < |e| && SetsMode(e[i], d.mmio) ensures DisabledAt(e, i, d.mmio) {
      assert SetsEnable(e[3], d.mmio);
    }
    LastIs(e, d.mmio + 0x508, 11);
    LastIs(e, d.mmio + 0x506, 8);
    LastIs(e, d.mmio + 0x502, 4);
    LastIs(e, d.mmio + 0x504, 6);
  }

  lemma CfgIs(d: Display)
    ensures d.Cfg() == d.ecam + 0x8000 * d.device
  {
  }

  lemma BasesAreSet(d: Display)
    requires d.Cfg() + 0x20 <= d.mmio + 0x500 || d.mmio + 0x520 <= d.Cfg()
    ensures LastValue(DisplayEvents(d), d.ecam + 0x8000 * d.device + 0x10) == Some(d.fb % TWO_32)
    ensures LastValue(DisplayEvents(d), d.ecam + 0x8000 * d.device + 0x18) == Some(d.mmio % TWO_32)
  {
    var e := DisplayEvents(d);
    CfgIs(d);
    BringUpIs(d);
    hide DisplayEvents, Display.Cfg, LastValue;
    LastIs(e, d.ecam + 0x8000 * d.device + 0x10, 0);
    LastIs(e, d.ecam + 0x8000 * d.device + 0x18, 1);
  }

  /** The display ends up at the addresses and in the size asked for if and only if
      the addresses fit 32 bits and the sizes 16. */
  lemma DisplayIsAsAsked(d: Display)
    requires d.Cfg() + 0x20 <= d.mmio + 0x500 || d.mmio + 0x520 <= d.Cfg()
    ensures
      var e, cfg := DisplayEvents(d), d.ecam + 0x8000 * d.device;
      && LastValue(e, cfg + 0x10) == Some(d.fb) && LastValue(e, cfg + 0x18) == Some(d.mmio)
      && LastValue(e, d.mmio + 0x502) == Some(d.width) && LastValue(e, d.mmio + 0x504) == Some(d.height)
      <==> d.fb < TWO_32 && d.mmio < TWO_32 && d.width < TWO_16 && d.height < TWO_16
  {
    hide DisplayEvents, Display.Cfg, LastValue;
    ModeSetWhileDisabled(d);
    BasesAreSet(d);
    Truncated(d.fb, d.mmio, d.width, d.height);
  }

  lemma Truncated(a: nat, b: nat, c: nat, e: nat)
    ensures a % TWO_32 == a <==> a < TWO_32
    ensures b % TWO_32 == b <==> b < TWO_32
    ensures c % TWO_16 == c <==> c < TWO_16
    ensures e % TWO_16 == e <==> e < TWO_16
  {
  }

  function LastValue(trace: seq<Event>, at: nat): Option<nat>
    decreases |trace|
  {
    if trace == [] then None
    else
      var e := trace[|trace| - 1];
      if e.Wrote? && e.at == at then Some(e.value) else LastValue(trace[..|trace| - 1], at)
  }

  lemma {:induction false} LastIs(trace: seq<Event>, at: nat, i: nat)
    requires i < |trace| && trace[i].Wrote? && trace[i].at == at
    requires forall k :: i < k < |trace| ==> trace[k].at != at
    ensures LastValue(trace, at) == Some(trace[i].value)
    decreases |trace|
  {
    if i < |trace| - 1 { LastIs(trace[..|trace| - 1], at, i); }
  }

  /** The bring-up write by write: the base addresses and memory decode in the
      configuration space of the device, then the mode registers from 0x500 on. */
  lemma BringUpIs(d: Display)
    ensures
      var cfg, m, w, h := d.ecam + 0x8000 * d.device, d.mmio, d.width % 0x1_0000, d.height % 0x1_0000;
      DisplayEvents(d) ==
        [Wrote(cfg + 0x10, 4, d.fb % 0x1_0000_0000), Wrote(cfg + 0x18, 4, m % 0x1_0000_0000), Wrote(cfg + 0x04, 4, 2),
         Wrote(m + 0x508, 2, 0), Wrote(m + 0x502, 2, w), Wrote(m + 0x50C, 2, w), Wrote(m + 0x504, 2, h),
         Wrote(m + 0x50E, 2, h), Wrote(m + 0x506, 2, 32), Wrote(m + 0x510, 2, 0), Wrote(m + 0x512, 2, 0),
         Wrote(m + 0x508, 2, 0x41)]
  {
    var m, w, h := d.mmio, d.width % TWO_16, d.height % TWO_16;
    assert VbeEvents(m, 0, [VBE_ENABLE]) == [Wrote(m + 0x508, 2, 0)];
    assert VbeEvents(m, w, [VBE_XRES, VBE_VIRT_WIDTH]) == [Wrote(m + 0x502, 2, w), Wrote(m + 0x50C, 2, w)];
    assert VbeEvents(m, h, [VBE_YRES, VBE_VIRT_HEIGHT]) == [Wrote(m + 0x504, 2, h), Wrote(m + 0x50E, 2, h)];
    assert VbeEvents(m, 32, [VBE_BPP]) == [Wrote(m + 0x506, 2, 32)];
    assert VbeEvents(m, 0, [VBE_X_OFFSET, VBE_Y_OFFSET]) == [Wrote(m + 0x510, 2, 0), Wrote(m + 0x512, 2, 0)];
    assert VbeEvents(m, VBE_ON, [VBE_ENABLE]) == [Wrote(m + 0x508, 2, 0x41)];
  }

  /** What is on the screen: pixel i of width * height is the colour, low byte first,
      or the four bytes at 4 i in the source. */
  lemma PictureShows(ram: map<nat, byte>, d: Display, paint: Paint, i: nat)
    requires !paint.Leave? && i < d.width * d.height
    requires paint.Blit? ==> InRam(ram, paint.from, 4 * d.Pixels())
    ensures |Picture(ram, d, paint)| == 4 * (d.width * d.height)
    ensures paint.Fill? ==>
      Picture(ram, d, paint)[4 * i..4 * i + 4] == [paint.colour % 0x100, paint.colour / 0x100 % 0x100,
      paint.colour / 0x1_0000 % 0x100, paint.colour / 0x100_0000 % 0x100]
    ensures paint.Blit? ==> forall k :: 4 * i <= k < 4 * i + 4 ==>
      paint.from + k in ram && Picture(ram, d, paint)[k] == ram[paint.from + k]
  {
    PixelsAre(d);
    if paint.Fill? {
      SolidIsConstant(paint.colour % TWO_32, d.Pixels(), i);
      ColourBytes(paint.colour);
    }
    hide Solid, Put32, Display.Pixels;
  }

  lemma PixelsAre(d: Display)
    ensures d.Pixels() == d.width * d.height
  {
  }

  lemma ColourBytes(c: nat)
    ensures Put32(c % TWO_32) ==
      [c % 0x100, c / 0x100 % 0x100, c / 0x1_0000 % 0x100, c / 0x100_0000 % 0x100]
  {
    var b0, b1, b2, b3 := c % 0x100, c / 0x100 % 0x100, c / 0x1_0000 % 0x100, c / 0x100_0000 % 0x100;
    Digits4(c);
    Quotient(c % TWO_32, 0x1_0000, b2 + 0x100 * b3, b0 + 0x100 * b1);
    Quotient(b0 + 0x100 * b1, 0x100, b1, b0);
    Quotient(b2 + 0x100 * b3, 0x100, b3, b2);
  }

  // ---- the boot screen rides behind the code ----

  function PackWords(words: seq<nat>): (b: octets)
    requires forall w <- words :: w < TWO_32
    ensures |b| == 4 * |words|
  {
    if words == [] then []
    else
      assert words[0] in words && forall w <- words[1..] :: w in words;
      Put32(words[0]) + PackWords(words[1..])
  }

  function Align16(n: nat): (r: nat)
    ensures n <= r < n + 16 && r % 16 == 0
  {
    (n + 15) / 16 * 16
  }

  lemma {:induction false} EmitAllLength(a: seq<Op>, b: seq<Op>)
    requires |a| == |b| && (forall o <- a :: Emittable(o)) && (forall o <- b :: Emittable(o))
    requires forall i :: 0 <= i < |a| ==> |Emit(a[i])| == |Emit(b[i])|
    ensures |EmitAll(a)| == |EmitAll(b)|
    decreases |a|
  {
    hide Emit;
    if a != [] {
      assert forall i :: 0 <= i < |a| - 1 ==> a[1..][i] == a[i + 1] && b[1..][i] == b[i + 1];
      EmitAllLength(a[1..], b[1..]);
    }
  }

  /** The probe and the real build are the same length, whatever the data address. */
  lemma ProbeIsRight(d: Display, at: nat, from: nat, actual: nat, x0: nat, entry: nat, mask: bool)
    ensures |StubWords(Some(d), at, Blit(from), x0, entry, mask)|
      == |StubWords(Some(d), at, Blit(actual), x0, entry, mask)|
  {
    OpsAreEmittable(d, Blit(from));
    OpsAreEmittable(d, Blit(actual));
    hide SetupOps, EmitAll, BlitLoop, EntryWords, Load64, Load32;
    EmitAllLength(PaintOps(d, Blit(from)), PaintOps(d, Blit(actual)));
  }

  /** RAM holds these bytes from an address on. */
  ghost predicate Placed(ram: map<nat, byte>, at: nat, b: octets) { InRam(ram, at, |b|) && BytesAt(ram, at, |b|) == b }

  lemma PlacedSplit(ram: map<nat, byte>, at: nat, a: octets, b: octets)
    requires Placed(ram, at, a + b)
    ensures Placed(ram, at, a) && Placed(ram, at + |a|, b)
  {
    forall k | at <= k < at + |a| + |b|
      ensures k in ram && ram[k] == (a + b)[k - at]
    {
      assert BytesAt(ram, at, |a + b|)[k - at] == ram[k];
    }
    forall k | at + |a| <= k < at + |a| + |b|
      ensures ram[k] == b[k - at - |a|]
    {
      assert (a + b)[k - at] == b[k - at - |a|];
    }
  }

  lemma WordReadsBack(w: nat)
    requires w < TWO_32
    ensures Word32(Put32(w), 0) == w
  {
    ReadBack32([], w, []);
    assert [] + Put32(w) + [] == Put32(w);
  }

  lemma {:induction false} PlacedHolds(ram: map<nat, byte>, at: nat, words: seq<nat>)
    requires (forall w <- words :: w < TWO_32) && Placed(ram, at, PackWords(words))
    ensures Holds(ram, at, words)
    decreases |words|
  {
    hide Put32, Word32;
    if words != [] {
      var first, rest := words[0], words[1..];
      assert first in words && forall w <- rest :: w in words;
      WordReadsBack(first);
      PlacedSplit(ram, at, Put32(first), PackWords(rest));
      PlacedHolds(ram, at + 4, rest);
      HoldsCons(ram, at, first, rest);
      assert words == [first] + rest;
    }
  }

  lemma HoldsCons(ram: map<nat, byte>, at: nat, first: nat, rest: seq<nat>)
    requires WordIs(ram, at, first) && Holds(ram, at + 4, rest)
    ensures Holds(ram, at, [first] + rest)
  {
    hide WordIs;
    forall i | 0 <= i < |rest| + 1 ensures WordIs(ram, at + 4 * i, ([first] + rest)[i]) {
      if i > 0 { assert WordIs(ram, at + 4 + 4 * (i - 1), rest[i - 1]); }
    }
    assert InRam(ram, at, 4) by { InWord(ram, at, first); }
  }

  lemma InWord(ram: map<nat, byte>, at: nat, w: nat)
    requires WordIs(ram, at, w)
    ensures InRam(ram, at, 4)
  {
  }

  /** The file written for a build with a boot logo, as build_image.py puts it
      together: size a probe, place the screen behind it, build again. */
  method LogoStub(d: Display, at: nat, x0: nat, entry: nat, screen: octets) returns (file: octets, dataAt: nat)
    ensures dataAt % 16 == 0 && dataAt >= at + 4 * |StubWords(Some(d), at, Blit(dataAt), x0, entry, true)|
    ensures |file| == dataAt - at + |screen|
    ensures PackWords(StubWords(Some(d), at, Blit(dataAt), x0, entry, true)) <= file && file[dataAt - at..] == screen
  {
    hide StubWords, Zeros;
    var probe := PackWords(StubWords(Some(d), at, Blit(0), x0, entry, true));
    dataAt := Align16(at + |probe|);
    ProbeIsRight(d, at, 0, dataAt, x0, entry, true);
    var blob := PackWords(StubWords(Some(d), at, Blit(dataAt), x0, entry, true));
    var pad := dataAt - at - |blob|;
    file := blob + Zeros(pad) + screen;
  }

  /** That file, loaded at its address and run, copies the screen to the
      framebuffer and enters the kernel with the address of boot_args in x0. */
  lemma LogoStubBoots(s: Cpu, env: Env, d: Display, dataAt: nat, x0: nat, entry: nat, screen: octets, file: octets)
    returns (n: nat, t: Cpu)
    requires s.pc % 4 == 0 && dataAt >= s.pc + 4 * |StubWords(Some(d), s.pc, Blit(dataAt), x0, entry, true)|
    requires PackWords(StubWords(Some(d), s.pc, Blit(dataAt), x0, entry, true)) <= file
    requires |file| == dataAt - s.pc + |screen| && file[dataAt - s.pc..] == screen
    requires Placed(s.ram, s.pc, file) && s.pc + |file| <= TWO_64 && Devices(s.ram, d.Cfg(), d.mmio)
    requires |screen| == 4 * d.Pixels() && 0 < d.Pixels() < TWO_32
    requires InRam(s.ram, d.fb, |screen|) && d.fb + |screen| <= TWO_64 && Disjoint(s.pc, |file|, d.fb, |screen|)
    requires x0 < TWO_64 && entry < TWO_64
    ensures Run(s, env, n) == Some(t) && t.pc == entry && t.x[0] == x0 && t.masked >= {0, 1, 2, 3} && t.mdscr == 0
    ensures t.ram == Write(s.ram, d.fb, screen) && t.trace == s.trace + DisplayEvents(d)
  {
    hide *;
    var words := StubWords(Some(d), s.pc, Blit(dataAt), x0, entry, true);
    FileParts(s.ram, s.pc, file, PackWords(words), dataAt, screen);
    PlacedHolds(s.ram, s.pc, words);
    PictureIs(s.ram, s.pc, 4 * |words|, d, dataAt, screen);
    n, t := StubRuns(s, env, d, Blit(dataAt), x0, entry, true);
    SmallMod(x0);
    SmallMod(entry);
  }

  lemma SmallMod(n: nat)
    requires n < TWO_64
    ensures n % TWO_64 == n
  {
  }

  lemma FileParts(ram: map<nat, byte>, at: nat, file: octets, blob: octets, dataAt: nat, screen: octets)
    requires blob <= file && Placed(ram, at, file) && at + |blob| <= dataAt
    requires |file| == dataAt - at + |screen| && file[dataAt - at..] == screen
    ensures Placed(ram, at, blob) && Placed(ram, dataAt, screen)
  {
    hide Placed;
    assert file == blob + file[|blob|..];
    PlacedSplit(ram, at, blob, file[|blob|..]);
    assert file == file[..dataAt - at] + screen;
    PlacedSplit(ram, at, file[..dataAt - at], screen);
  }

  lemma PictureIs(ram: map<nat, byte>, at: nat, codeLen: nat, d: Display, from: nat, screen: octets)
    requires |screen| == 4 * d.Pixels() && 0 < d.Pixels() < TWO_32 && Placed(ram, from, screen) && at + codeLen <= from
    requires InRam(ram, d.fb, |screen|) && d.fb + |screen| <= TWO_64 && from + |screen| <= TWO_64
    requires Disjoint(at, from - at + |screen|, d.fb, |screen|)
    ensures CanPaint(ram, at, codeLen, d, Blit(from)) && InRam(ram, from, 4 * d.Pixels())
      && Picture(ram, d, Blit(from)) == screen
  {
    hide Display.Pixels;
  }
}
