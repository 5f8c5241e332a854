/** cond_trap.py: a call diverted through a stub that freezes the machine when an
    argument register is zero, and otherwise makes the call. */
module CondTrap {
  import opened Wrappers
  import opened Octets
  import opened ArmMachine
  import opened ArmWords
  import opened Padding
  import opened Diversion

  const NOP := 0xD503_201F

  /** mov xDST, xSRC. */
  function MovWord(dst: nat, src: nat): (w: nat)
    requires dst < 31 && src < 31
    ensures w < TWO_32
  {
    0xAA00_03E0 + src * 0x1_0000 + dst
  }

  /** The eight words of the stub, or None where an encoder raises. */
  function TrapStub(reg: nat, stub: nat, site: nat, callee: int): (r: Option<seq<nat>>)
    ensures r.Some? ==> |r.value| == 8 && forall w <- r.value :: w < TWO_32
  {
    var cbz, call := EncodeCbz(reg, stub, stub + 16), EncodeB(stub + 4, callee, true);
    var back, self := EncodeB(stub + 8, site + 4, false), EncodeB(stub + 28, stub + 28, false);
    if cbz.None? || call.None? || back.None? || self.None? then None
    else Some([cbz.value, call.value, back.value, NOP, MovWord(25, 8), MovWord(26, 9), MovWord(27, 1), self.value])
  }

  /** b is a with the call at site diverted through a trap at stub. */
  ghost predicate Trapped(a: Kernel, b: Kernel, site: nat, stub: nat, reg: nat, callee: int) {
    && site + 4 < TWO_64 && stub + 32 < TWO_64 && 0 <= callee < TWO_64
    && Does(a, site, Bl(callee - site)) && Does(b, site, B(stub - site))
    && Does(b, stub, Cbz(true, reg, 16)) && Does(b, stub + 4, Bl(callee - (stub + 4)))
       && Does(b, stub + 8, B(site + 4 - (stub + 8)))
    && Does(b, stub + 16, MovReg(25, 8)) && Does(b, stub + 20, MovReg(26, 9)) && Does(b, stub + 24, MovReg(27, 1))
    && Does(b, stub + 28, B(0))
    && SameCode(a, b, site, stub, 32)
  }

  /** A callee entered from s with its link address. */
  function Entered(s: Cpu, callee: nat, link: nat): Cpu { s.(pc := callee, x := s.x[30 := link]) }

  lemma ExecBl(s: Cpu, env: Env, target: nat)
    requires target < TWO_64 && s.pc + 4 < TWO_64
    ensures Exec(Bl(target - s.pc), s, env) == Some(Entered(s, target, s.pc + 4))
  {
    FitsWrap(s.pc + 4);
    FitsWrap(target);
    hide Wrap;
  }

  lemma ExecMov(s: Cpu, env: Env, rd: nat, rm: nat)
    requires rd < 31 && rm < 31 && s.pc + 4 < TWO_64
    ensures Exec(MovReg(rd, rm), s, env) == Some(s.(pc := s.pc + 4, x := s.x[rd := s.x[rm]]))
  {
    FitsWrap(s.pc + 4);
    hide Wrap;
  }

  lemma TrapForks(a: Kernel, b: Kernel, sem: Semantics, env: Env, site: nat, stub: nat, reg: nat, callee: int, s: Cpu)
    requires Extends(sem, env) && Trapped(a, b, site, stub, reg, callee) && s.pc == site
    ensures RunIn(b, sem, s, 2) == Some(s.(pc := if Get(s, reg) == 0 then stub + 16 else stub + 4))
  {
    hide Exec, Does, Get, SameCode, RunIn, Extends, WordAt;
    var s1 := s.(pc := stub);
    GetAt(s, reg, stub);
    ExecB(s, env, stub);
    ExecCbz(s1, env, reg, 16);
    TwoKnown(b, sem, env, s, B(stub - site), s1, Cbz(true, reg, 16));
  }

  /** A non-zero register: the same callee is entered, in the same state but for
      the link register. */
  lemma TrapCalls(a: Kernel, b: Kernel, sem: Semantics, env: Env, site: nat, stub: nat, reg: nat, callee: int, s: Cpu)
    requires Extends(sem, env) && Trapped(a, b, site, stub, reg, callee) && s.pc == site && Get(s, reg) != 0
    ensures StepIn(a, sem, s) == Some(Entered(s, callee, site + 4))
    ensures RunIn(b, sem, s, 3) == Some(Entered(s, callee, stub + 8))
  {
    hide Exec, Does, Get, SameCode, RunIn, StepIn, Extends, WordAt;
    StepKnown(a, sem, env, s, Bl(callee - site));
    ExecBl(s, env, callee);
    TrapForks(a, b, sem, env, site, stub, reg, callee, s);
    var s2 := s.(pc := stub + 4);
    StepKnown(b, sem, env, s2, Bl(callee - (stub + 4)));
    ExecBl(s2, env, callee);
    RunInOn(b, sem, s, 2, 1);
  }

  /** However the callee gets back to its link address, the caller resumes after
      the call with everything else as the callee left it. */
  lemma TrapResumes(a: Kernel, b: Kernel, sem: Semantics, env: Env, site: nat, stub: nat, reg: nat, callee: int, s: Cpu,
    k: nat, u: Cpu)
    requires Extends(sem, env) && Trapped(a, b, site, stub, reg, callee) && s.pc == site && Get(s, reg) != 0
    requires RunIn(b, sem, Entered(s, callee, stub + 8), k) == Some(u) && u.pc == stub + 8
    ensures RunIn(b, sem, s, 3 + k + 1) == Some(u.(pc := site + 4))
  {
    hide Exec, Does, Get, SameCode, RunIn, StepIn, Extends, WordAt;
    TrapCalls(a, b, sem, env, site, stub, reg, callee, s);
    RunInOn(b, sem, s, 3, k);
    StepKnown(b, sem, env, u, B(site + 4 - (stub + 8)));
    ExecB(u, env, site + 4);
    RunInOn(b, sem, s, 3 + k, 1);
  }

  /** The state the machine is frozen in. */
  function Frozen(s: Cpu, stub: nat): Cpu { s.(pc := stub + 28, x := s.x[25 := s.x[8]][26 := s.x[9]][27 := s.x[1]]) }

  lemma Saves(b: Kernel, sem: Semantics, env: Env, stub: nat, s: Cpu)
    requires Extends(sem, env) && s.pc == stub + 16 && stub + 32 < TWO_64
    requires Does(b, stub + 16, MovReg(25, 8)) && Does(b, stub + 20, MovReg(26, 9)) && Does(b, stub + 24, MovReg(27, 1))
    ensures RunIn(b, sem, s, 3) == Some(Frozen(s, stub))
  {
    hide Exec, Does, RunIn, Extends;
    var s1 := s.(pc := stub + 20, x := s.x[25 := s.x[8]]);
    var s2 := s1.(pc := stub + 24, x := s1.x[26 := s.x[9]]);
    ExecMov(s, env, 25, 8);
    ExecMov(s1, env, 26, 9);
    ExecMov(s2, env, 27, 1);
    TwoKnown(b, sem, env, s, MovReg(25, 8), s1, MovReg(26, 9));
    StepKnown(b, sem, env, s2, MovReg(27, 1));
    RunInOn(b, sem, s, 2, 1);
  }

  lemma {:induction false} Spins(b: Kernel, sem: Semantics, env: Env, s: Cpu, n: nat)
    requires Extends(sem, env) && Does(b, s.pc, B(0)) && s.pc < TWO_64
    ensures RunIn(b, sem, s, n) == Some(s)
    decreases n
  {
    hide Exec, Does, Extends;
    if n > 0 {
      StepKnown(b, sem, env, s, B(0));
      ExecB(s, env, s.pc);
      assert s.pc - s.pc == 0;
      Spins(b, sem, env, s, n - 1);
    }
  }

  /** A zero register: after five instructions, and for ever after, the machine
      stands still with x8, x9 and x1 kept in x25, x26 and x27 and nothing else changed. */
  lemma TrapFreezes(a: Kernel, b: Kernel, sem: Semantics, env: Env, site: nat, stub: nat, reg: nat, callee: int, s: Cpu,
    n: nat)
    requires Extends(sem, env) && Trapped(a, b, site, stub, reg, callee) && s.pc == site && Get(s, reg) == 0
    ensures RunIn(b, sem, s, 5 + n) == Some(Frozen(s, stub))
  {
    hide Exec, Does, Get, SameCode, RunIn, Extends, WordAt;
    TrapForks(a, b, sem, env, site, stub, reg, callee, s);
    var s2 := s.(pc := stub + 16);
    Saves(b, sem, env, stub, s2);
    RunInOn(b, sem, s, 2, 3);
    Spins(b, sem, env, Frozen(s, stub), n);
    RunInOn(b, sem, s, 5, n);
  }

  // ---- the patched file ----

  lemma MovDecodes(dst: nat, src: nat)
    requires dst < 31 && src < 31
    ensures Decode(MovWord(dst, src)) == MovReg(dst, src)
  {
    Parts(MovWord(dst, src), 0x550, src * 0x1_0000 + 0x3E0 + dst);
    hide Decode;
    assert (src * 0x1_0000 + 0x3E0 + dst) % 32 == dst && (src * 0x1_0000 + 0x3E0 + dst) / 32 == src * 0x800 + 31;
  }

  lemma NopDecodes()
    ensures Decode(NOP) == ArmMachine.Nop
  {
    Parts(NOP, 0x6A8, 0x03_201F);
    hide Decode;
  }

  lemma TrapStubDecodes(reg: nat, stub: nat, site: nat, callee: int)
    requires reg < 32 && TrapStub(reg, stub, site, callee).Some?
    ensures
      var words := TrapStub(reg, stub, site, callee).value;
      && Decode(words[0]) == Cbz(true, reg, 16) && Decode(words[1]) == Bl(callee - (stub + 4))
         && Decode(words[2]) == B(site + 4 - (stub + 8)) && Decode(words[3]) == ArmMachine.Nop
      && Decode(words[4]) == MovReg(25, 8) && Decode(words[5]) == MovReg(26, 9) && Decode(words[6]) == MovReg(27, 1)
         && Decode(words[7]) == B(0)
  {
    hide Decode, EncodeCbz, EncodeB, MovWord;
    CbzDecodes(reg, stub, stub + 16);
    BDecodes(stub + 4, callee, true);
    BDecodes(stub + 8, site + 4, false);
    BDecodes(stub + 28, stub + 28, false);
    NopDecodes();
    MovDecodes(25, 8);
    MovDecodes(26, 9);
    MovDecodes(27, 1);
  }

  /** The file cond_trap writes for a call it finds at off, or None where bl_target or an encoder raises. */
  function TrappedFile(k: Kernel, site: nat, off: nat, pad: nat, reg: nat): (b: Option<octets>)
    requires off + 4 <= |k.data| && pad + 32 <= |k.data|
  {
    var stub := k.vb + pad;
    var callee := BlTarget(Word32(k.data, off), site);
    if callee.None? then None
    else
      var words, branch := TrapStub(reg, stub, site, callee.value), EncodeB(site, stub, false);
      if words.None? || branch.None? then None else Some(Divert(k.data, off, pad, words.value, branch.value))
  }

  lemma TrappedFileIs(k: Kernel, off: nat, pad: nat, reg: nat)
    requires off + 4 <= |k.data| && pad + 32 <= |k.data| && TrappedFile(k, k.vb + off, off, pad, reg).Some?
    ensures BlTarget(Word32(k.data, off), k.vb + off).Some?
    ensures
      var callee := BlTarget(Word32(k.data, off), k.vb + off).value;
      var words, branch := TrapStub(reg, k.vb + pad, k.vb + off, callee), EncodeB(k.vb + off, k.vb + pad, false);
      words.Some? && branch.Some?
        && TrappedFile(k, k.vb + off, off, pad, reg) == Some(Divert(k.data, off, pad, words.value, branch.value))
  {
    hide TrapStub, EncodeB, Word32, Divert, BlTarget;
  }

  lemma PaddingIsInside32(k: Kernel, pad: nat)
    requires ZeroRun(k.data, pad, 32)
    ensures pad + 32 <= |k.data|
  {
  }

  lemma CallIsNotZero(word: nat, pc: nat)
    requires BlTarget(word, pc).Some?
    ensures word != 0
  {
  }

  /** That file is the original with the call trapped. */
  lemma FileIsTrapped(k: Kernel, off: nat, pad: nat, reg: nat) returns (callee: int)
    requires reg < 32 && (k.vb + off) % 4 == 0 && off + 4 <= |k.data| && ZeroRun(k.data, pad, 32)
    requires k.vb + off + 4 < TWO_64 && k.vb + pad + 32 < TWO_64 && TrappedFile(k, k.vb + off, off, pad, reg).Some?
    ensures BlTarget(Word32(k.data, off), k.vb + off) == Some(callee)
    ensures 0 <= callee < TWO_64 ==>
      Trapped(k, Kernel(TrappedFile(k, k.vb + off, off, pad, reg).value, k.vb), k.vb + off, k.vb + pad, reg, callee)
  {
    hide *;
    var site, stub, orig := k.vb + off, k.vb + pad, Word32(k.data, off);
    PaddingIsInside32(k, pad);
    TrappedFileIs(k, off, pad, reg);
    callee := BlTarget(orig, site).value;
    var words, branch := TrapStub(reg, stub, site, callee).value, EncodeB(site, stub, false).value;
    BDecodes(site, stub, false);
    ReachAligns(k.vb, off, pad);
    SiteWord(k, off);
    CallIsNotZero(orig, site);
    SiteIsElsewhere(k.data, off, pad, 32);
    BlEncodes(orig, site);
    TrapStubDecodes(reg, stub, site, callee);
    DivertedCode(k, off, pad, words, branch);
    if 0 <= callee < TWO_64 {
      TrapAssembled(k, Kernel(Divert(k.data, off, pad, words, branch), k.vb), site, stub, reg, callee, orig, words,
        branch);
    }
  }

  lemma TrapAssembled(k: Kernel, b: Kernel, site: nat, stub: nat, reg: nat, callee: int, orig: nat, words: seq<nat>,
    branch: nat)
    requires site + 4 < TWO_64 && stub + 32 < TWO_64 && 0 <= callee < TWO_64 && |words| == 8
    requires WordAt(k, site) == Some(orig) && Decode(orig) == Bl(callee - site) && SameCode(k, b, site, stub, 32)
    requires WordAt(b, site) == Some(branch) && Decode(branch) == B(stub - site)
    requires forall i :: 0 <= i < 8 ==> WordAt(b, stub + 4 * i) == Some(words[i])
    requires Decode(words[0]) == Cbz(true, reg, 16) && Decode(words[1]) == Bl(callee - (stub + 4))
      && Decode(words[2]) == B(site + 4 - (stub + 8))
    requires Decode(words[4]) == MovReg(25, 8) && Decode(words[5]) == MovReg(26, 9) && Decode(words[6]) == MovReg(27, 1)
      && Decode(words[7]) == B(0)
    ensures Trapped(k, b, site, stub, reg, callee)
  {
    hide WordAt, Decode, SameCode;
    assert WordAt(b, stub + 4 * 0) == Some(words[0]) && WordAt(b, stub + 4 * 1) == Some(words[1])
      && WordAt(b, stub + 4 * 2) == Some(words[2]);
    assert WordAt(b, stub + 4 * 4) == Some(words[4]) && WordAt(b, stub + 4 * 5) == Some(words[5]);
    assert WordAt(b, stub + 4 * 6) == Some(words[6]) && WordAt(b, stub + 4 * 7) == Some(words[7]);
  }

  datatype Outcome = Written(pad: nat) | Outside | NotACall | NoPadding | OutOfReach

  /** cond_trap.main on the bytes of the kernel. Nothing is written out unless Written. */
  method PatchTrap(data: array<byte>, vb: nat, site: nat, reg: nat, fileoff: nat, size: nat) returns (r: Outcome)
    modifies data
    ensures r.Outside? <==> !(0 <= site - vb <= data.Length - 4) && !(0 - data.Length <= site - vb <= -4)
    ensures r.NotACall? ==>
      var at := if site >= vb then site - vb else site - vb + data.Length;
      0 <= at <= data.Length - 4 && BlTarget(Word32(old(data[..]), at), site) == None
    ensures r.NoPadding? ==> forall s: nat :: !Usable(old(data[..]), fileoff, size, 32, s)
    ensures r.Written? ==> Chosen(old(data[..]), fileoff, size, 32, site - vb, Some(r.pad)) && r.pad + 32 <= data.Length
    ensures r.Written? ==>
      var at := if site >= vb then site - vb else site - vb + data.Length;
      0 <= at <= data.Length - 4 && Some(data[..]) == TrappedFile(Kernel(old(data[..]), vb), site, at, r.pad, reg)
    ensures r.OutOfReach? ==>
      var at := if site >= vb then site - vb else site - vb + data.Length;
      0 <= at <= data.Length - 4
        && exists pad: nat :: Chosen(old(data[..]), fileoff, size, 32, site - vb, Some(pad)) && pad + 32 <= data.Length
             && TrappedFile(Kernel(old(data[..]), vb), site, at, pad, reg) == None
  {
    hide TrapStub, EncodeB, PutWords, PutWord, Word32, BlTarget, Chosen, Usable, Field4;
    var off := site - vb;
    Field4Is(off, data.Length);
    var at := Field4(off, data.Length);
    if at.None? { return Outcome.Outside; }
    var callee := BlTarget(Word32(data[..], at.value), site);
    if callee.None? { return NotACall; }
    var found := FindPadding(data[..], fileoff, size, 32, off);
    ChosenFinds(data[..], fileoff, size, 32, off, found);
    if found.None? { return Outcome.NoPadding; }
    var pad := found.value;
    RoomFor32(data[..], fileoff, size, pad);
    var stub := vb + pad;
    var words := TrapStub(reg, stub, site, callee.value);
    if words.None? { return Outcome.OutOfReach; }
    PackAll(data, pad, words.value);
    var branch := EncodeB(site, stub, false);
    if branch.None? { return Outcome.OutOfReach; }
    PackInto(data, at.value, branch.value);
    r := Written(pad);
  }

  lemma RoomFor32(data: octets, fileoff: nat, size: nat, pad: nat)
    requires Usable(data, fileoff, size, 32, pad)
    ensures ZeroRun(data, pad, 32) && pad + 32 <= |data|
  {
  }
}
