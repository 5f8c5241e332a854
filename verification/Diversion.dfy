/** null_guard.py and cond_trap.py: an instruction replaced by a branch to a stub in
    padding, and how runs of the patched kernel relate to runs of the original. */
module Diversion {
  import opened Wrappers
  import opened Octets
  import opened ArmMachine
  import opened ArmWords
  import opened Padding

  /** A kernel file and the address its first byte is mapped at. */
  datatype Kernel = Kernel(data: octets, vb: nat)

  function WordAt(k: Kernel, pc: nat): Option<nat> {
    if pc % 4 == 0 && k.vb <= pc && pc - k.vb + 4 <= |k.data| then Some(Word32(k.data, pc - k.vb)) else None
  }

  /** Any instruction set that includes the modelled one. */
  type Semantics = (nat, Cpu) -> Option<Cpu>

  ghost predicate Extends(sem: Semantics, env: Env) { forall w: nat, s: Cpu :: Known(sem, env, w, s) }

  ghost predicate Known(sem: Semantics, env: Env, w: nat, s: Cpu) {
    Decode(w) != Other ==> sem(w, s) == Exec(Decode(w), s, env)
  }

  /** The modelled instruction set is one, so the results below are not empty. */
  lemma ModelledExtends(env: Env)
    ensures Extends((w: nat, s: Cpu) => Exec(Decode(w), s, env), env)
  {
    hide Exec, Decode;
  }

  /** A word that does the same wherever it stands, and falls through. */
  ghost predicate NotPcRelative(sem: Semantics, w: nat) { forall s: Cpu, p: nat :: SameAt(sem, w, s, p) }

  ghost predicate SameAt(sem: Semantics, w: nat, s: Cpu, p: nat) {
    sem(w, s.(pc := p)) == match sem(w, s) case None => None case Some(t) => Some(t.(pc := Wrap(p + 4)))
  }

  /** Any register move qualifies. */
  lemma MovesAreNotPcRelative(env: Env, sem: Semantics, w: nat)
    requires Extends(sem, env) && Decode(w).MovReg?
    ensures NotPcRelative(sem, w)
  {
    hide Decode, Wrap;
    forall s: Cpu, p: nat ensures SameAt(sem, w, s, p) {
      assert Known(sem, env, w, s) && Known(sem, env, w, s.(pc := p));
    }
  }

  /** Code is fetched from the kernel, not from the state's RAM. */
  function StepIn(k: Kernel, sem: Semantics, s: Cpu): Option<Cpu> {
    match WordAt(k, s.pc) case None => None case Some(w) => sem(w, s)
  }

  function RunIn(k: Kernel, sem: Semantics, s: Cpu, n: nat): Option<Cpu>
    decreases n
  {
    if n == 0 then Some(s)
    else
      match StepIn(k, sem, s)
      case None => None
      case Some(s1) => RunIn(k, sem, s1, n - 1)
  }

  lemma {:induction false} RunInOn(k: Kernel, sem: Semantics, s: Cpu, m: nat, n: nat)
    ensures RunIn(k, sem, s, m + n) == if RunIn(k, sem, s, m).None? then None
      else RunIn(k, sem, RunIn(k, sem, s, m).value, n)
    decreases m
  {
    hide StepIn;
    if m > 0 && StepIn(k, sem, s).Some? { RunInOn(k, sem, StepIn(k, sem, s).value, m - 1, n); }
  }

  // ---- patching ----

  function PutWord(data: octets, off: nat, w: nat): (r: octets)
    requires off + 4 <= |data| && w < TWO_32
    ensures |r| == |data|
  {
    Overlay(data, off, Put32(w))
  }

  function PutWords(data: octets, off: nat, words: seq<nat>): (r: octets)
    requires off + 4 * |words| <= |data| && forall w <- words :: w < TWO_32
    ensures |r| == |data|
    decreases |words|
  {
    if words == [] then data
    else
      assert words[0] in words && forall w <- words[1..] :: w in words;
      PutWords(PutWord(data, off, words[0]), off + 4, words[1..])
  }

  lemma PutWordReads(data: octets, off: nat, w: nat, at: nat)
    requires off + 4 <= |data| && w < TWO_32 && at + 4 <= |data|
    ensures at == off ==> Word32(PutWord(data, off, w), at) == w
    ensures at + 4 <= off || off + 4 <= at ==> Word32(PutWord(data, off, w), at) == Word32(data, at)
  {
    hide Put32;
    if at == off {
      ReadBack32(data[..off], w, data[off + 4..]);
      assert PutWord(data, off, w) == data[..off] + Put32(w) + data[off + 4..];
    }
  }

  lemma {:induction false} PutWordsRead(data: octets, off: nat, words: seq<nat>, at: nat)
    requires off + 4 * |words| <= |data| && (forall w <- words :: w < TWO_32) && at + 4 <= |data|
    ensures forall i :: 0 <= i < |words| && at == off + 4 * i ==> Word32(PutWords(data, off, words), at) == words[i]
    ensures at + 4 <= off || off + 4 * |words| <= at ==> Word32(PutWords(data, off, words), at) == Word32(data, at)
    decreases |words|
  {
    hide PutWord, Word32;
    if words != [] {
      assert words[0] in words && forall w <- words[1..] :: w in words;
      var next := PutWord(data, off, words[0]);
      PutWordReads(data, off, words[0], at);
      PutWordsRead(next, off + 4, words[1..], at);
      forall i | 0 < i < |words| && at == off + 4 * i ensures Word32(PutWords(data, off, words), at) == words[i] {
        assert at == off + 4 + 4 * (i - 1) && words[1..][i - 1] == words[i];
      }
    }
  }

  // ---- the null guard ----

  const LDP_X29_X30_SP_16 := 0xA8C1_7BFD
  const RETAB := 0xD65F_0FFF

  /** The five words of the stub, or None where an encoder raises. */
  function GuardStub(reg: nat, stub: nat, site: nat, orig: nat): (r: Option<seq<nat>>)
    ensures r.Some? ==> |r.value| == 5
    ensures r.Some? && orig < TWO_32 ==> forall w <- r.value :: w < TWO_32
  {
    var cbz, back := EncodeCbz(reg, stub, stub + 12), EncodeB(stub + 8, site + 4, false);
    if cbz.None? || back.None? then None else Some([cbz.value, orig, back.value, LDP_X29_X30_SP_16, RETAB])
  }

  ghost predicate Does(k: Kernel, pc: nat, i: Insn) { WordAt(k, pc).Some? && Decode(WordAt(k, pc).value) == i }

  ghost predicate SameCode(a: Kernel, b: Kernel, site: nat, stub: nat, n: nat) {
    forall pc: nat :: pc != site && !(stub <= pc < stub + n) ==> WordAt(b, pc) == WordAt(a, pc)
  }

  /** b is a with the instruction at site diverted through a guard at stub. */
  ghost predicate Guarded(a: Kernel, b: Kernel, site: nat, stub: nat, reg: nat) {
    && site % 4 == 0 && stub % 4 == 0 && site + 4 < TWO_64 && stub + 20 < TWO_64
    && WordAt(a, site).Some? && Does(b, site, B(stub - site))
    && Does(b, stub, Cbz(true, reg, 12)) && WordAt(b, stub + 4) == WordAt(a, site)
    && Does(b, stub + 8, B(site + 4 - (stub + 8)))
    && Does(b, stub + 12, LdpPost(29, 30, 31, 16)) && Does(b, stub + 16, Retab)
    && SameCode(a, b, site, stub, 20)
  }

  lemma StepKnown(k: Kernel, sem: Semantics, env: Env, s: Cpu, i: Insn)
    requires Extends(sem, env) && Does(k, s.pc, i) && i != Other
    ensures StepIn(k, sem, s) == Exec(i, s, env) && RunIn(k, sem, s, 1) == Exec(i, s, env)
  {
    var w := WordAt(k, s.pc).value;
    assert Known(sem, env, w, s);
    hide Exec, Decode, WordAt;
    if StepIn(k, sem, s).Some? { assert RunIn(k, sem, StepIn(k, sem, s).value, 0) == StepIn(k, sem, s); }
  }

  lemma TwoKnown(k: Kernel, sem: Semantics, env: Env, s: Cpu, i: Insn, s1: Cpu, j: Insn)
    requires Extends(sem, env) && i != Other && j != Other
    requires Does(k, s.pc, i) && Exec(i, s, env) == Some(s1) && Does(k, s1.pc, j)
    ensures RunIn(k, sem, s, 2) == Exec(j, s1, env)
  {
    hide *;
    StepKnown(k, sem, env, s, i);
    StepKnown(k, sem, env, s1, j);
    RunInOn(k, sem, s, 1, 1);
  }

  lemma ExecB(s: Cpu, env: Env, target: nat)
    requires target < TWO_64
    ensures Exec(B(target - s.pc), s, env) == Some(s.(pc := target))
  {
  }

  lemma ExecCbz(s: Cpu, env: Env, reg: nat, delta: nat)
    requires s.pc + delta < TWO_64 && s.pc + 4 < TWO_64
    ensures Exec(Cbz(true, reg, delta), s, env) == Some(s.(pc := if Get(s, reg) == 0 then s.pc + delta else s.pc + 4))
  {
    FitsWrap(s.pc + delta);
    FitsWrap(s.pc + 4);
    hide Wrap, Get;
  }

  /** From the site to the fork: two instructions. */
  lemma GuardForks(a: Kernel, b: Kernel, sem: Semantics, env: Env, site: nat, stub: nat, reg: nat, s: Cpu)
    requires Extends(sem, env) && Guarded(a, b, site, stub, reg) && s.pc == site
    ensures RunIn(b, sem, s, 2) == Some(s.(pc := if Get(s, reg) == 0 then stub + 12 else stub + 4))
  {
    hide Exec, Does, Get, SameCode, RunIn, Extends, WordAt;
    var s1 := s.(pc := stub);
    GetAt(s, reg, stub);
    ExecB(s, env, stub);
    ExecCbz(s1, env, reg, 12);
    TwoKnown(b, sem, env, s, B(stub - site), s1, Cbz(true, reg, 12));
  }

  lemma GetAt(s: Cpu, reg: nat, pc: nat)
    ensures Get(s.(pc := pc), reg) == Get(s, reg)
  {
  }

  /** The displaced word at its new place, against its old one. */
  lemma Displaced(a: Kernel, b: Kernel, sem: Semantics, site: nat, at: nat, s: Cpu)
    requires WordAt(a, site).Some? && WordAt(b, at) == WordAt(a, site) && s.pc == at
    requires NotPcRelative(sem, WordAt(a, site).value) && site + 4 < TWO_64 && at + 4 < TWO_64
    ensures
      match StepIn(a, sem, s.(pc := site))
      case None => StepIn(b, sem, s) == None
      case Some(t) => t.pc == site + 4 && StepIn(b, sem, s) == Some(t.(pc := at + 4))
  {
    var w := WordAt(a, site).value;
    assert SameAt(sem, w, s, at) && SameAt(sem, w, s, site);
    assert s.(pc := at) == s;
    FitsWrap(site + 4);
    FitsWrap(at + 4);
    hide WordAt, Wrap, NotPcRelative;
  }

  /** The displaced word and the branch back, from the second word of the stub. */
  lemma GuardGoesBack(a: Kernel, b: Kernel, sem: Semantics, env: Env, site: nat, stub: nat, reg: nat, s: Cpu)
    requires Extends(sem, env) && Guarded(a, b, site, stub, reg) && s.pc == stub + 4
    requires NotPcRelative(sem, WordAt(a, site).value)
    ensures RunIn(b, sem, s, 2) == StepIn(a, sem, s.(pc := site))
  {
    hide Exec, WordAt, Decode, SameCode, Extends, NotPcRelative, Wrap, StepIn, RunIn;
    Displaced(a, b, sem, site, stub + 4, s);
    OneIn(b, sem, s);
    RunInOn(b, sem, s, 1, 1);
    if StepIn(b, sem, s).Some? {
      var s1 := StepIn(b, sem, s).value;
      StepKnown(b, sem, env, s1, B(site + 4 - (stub + 8)));
      ExecB(s1, env, site + 4);
    }
  }

  /** A non-zero register: four instructions do what the displaced one did. */
  lemma GuardPasses(a: Kernel, b: Kernel, sem: Semantics, env: Env, site: nat, stub: nat, reg: nat, s: Cpu)
    requires Extends(sem, env) && Guarded(a, b, site, stub, reg) && s.pc == site && Get(s, reg) != 0
    requires NotPcRelative(sem, WordAt(a, site).value)
    ensures RunIn(b, sem, s, 4) == StepIn(a, sem, s)
  {
    hide *;
    GuardForks(a, b, sem, env, site, stub, reg, s);
    GuardGoesBack(a, b, sem, env, site, stub, reg, s.(pc := stub + 4));
    RunInOn(b, sem, s, 2, 2);
    assert s.(pc := stub + 4).(pc := site) == s;
  }

  lemma OneIn(k: Kernel, sem: Semantics, s: Cpu)
    ensures RunIn(k, sem, s, 1) == StepIn(k, sem, s)
  {
    hide StepIn;
    if StepIn(k, sem, s).Some? { assert RunIn(k, sem, StepIn(k, sem, s).value, 0) == StepIn(k, sem, s); }
  }

  lemma FitsWrap(n: nat)
    requires n < TWO_64
    ensures Wrap(n) == n
  {
  }

  /** LDP X29, X30, [SP], #16, apart from the program counter. */
  function Popped(s: Cpu): Cpu
    requires InRam(s.ram, s.sp, 16)
  {
    var b := BytesAt(s.ram, s.sp, 16);
    s.(x := s.x[29 := Word64(b, 0)][30 := Word64(b, 8)], sp := Wrap(s.sp + 16))
  }

  lemma ExecPop(s: Cpu, env: Env)
    requires InRam(s.ram, s.sp, 16)
    ensures Exec(LdpPost(29, 30, 31, 16), s, env) == Some(Next(Popped(s)))
  {
    hide Wrap, Word64, BytesAt;
  }

  lemma ExecRetab(s: Cpu, env: Env)
    ensures Exec(Retab, s, env) == Some(s.(pc := Wrap(env.auth(s.x[30], s.sp))))
  {
    hide Wrap;
  }

  /** A zero register: the frame the prologue pushed is popped, and control goes
      to the authenticated return address. */
  lemma GuardReturns(a: Kernel, b: Kernel, sem: Semantics, env: Env, site: nat, stub: nat, reg: nat, s: Cpu)
    requires Extends(sem, env) && Guarded(a, b, site, stub, reg) && s.pc == site && Get(s, reg) == 0
    requires InRam(s.ram, s.sp, 16)
    ensures RunIn(b, sem, s, 4) == Some(Popped(s).(pc := Wrap(env.auth(Popped(s).x[30], Popped(s).sp))))
  {
    hide Exec, WordAt, Decode, Get, SameCode, Extends, RunIn, StepIn, Wrap, Popped;
    GuardForks(a, b, sem, env, site, stub, reg, s);
    GuardPops(b, sem, env, stub + 12, s);
    RunInOn(b, sem, s, 2, 2);
  }

  lemma GuardPops(b: Kernel, sem: Semantics, env: Env, at: nat, s: Cpu)
    requires Extends(sem, env) && Does(b, at, LdpPost(29, 30, 31, 16)) && Does(b, at + 4, Retab) && at + 4 < TWO_64
    requires InRam(s.ram, s.sp, 16)
    ensures RunIn(b, sem, s.(pc := at), 2) == Some(Popped(s).(pc := Wrap(env.auth(Popped(s).x[30], Popped(s).sp))))
  {
    var s2, s3 := s.(pc := at), Popped(s).(pc := at + 4);
    FitsWrap(at + 4);
    assert Next(Popped(s2)) == s3;
    hide Exec, Does, Extends, RunIn, Popped, Wrap;
    ExecPop(s2, env);
    ExecRetab(s3, env);
    TwoKnown(b, sem, env, s2, LdpPost(29, 30, 31, 16), s3, Retab);
  }

  // ---- every run ----

  /** The states a run passes through with the program counter outside [lo, hi). */
  function Visits(k: Kernel, sem: Semantics, s: Cpu, n: nat, lo: nat, hi: nat): seq<Cpu>
    decreases n
  {
    if n == 0 then []
    else
      (if lo <= s.pc < hi then [] else [s]) +
      match StepIn(k, sem, s)
      case None => []
      case Some(s1) => Visits(k, sem, s1, n - 1, lo, hi)
  }

  lemma {:induction false} VisitsOn(k: Kernel, sem: Semantics, s: Cpu, m: nat, n: nat, lo: nat, hi: nat)
    requires RunIn(k, sem, s, m).Some?
    ensures Visits(k, sem, s, m + n, lo, hi)
      == Visits(k, sem, s, m, lo, hi) + Visits(k, sem, RunIn(k, sem, s, m).value, n, lo, hi)
    decreases m
  {
    hide StepIn;
    if m > 0 {
      VisitsOn(k, sem, StepIn(k, sem, s).value, m - 1, n, lo, hi);
    }
  }

  /** The original run stays out of the padding, and finds the register non-zero at the site. */
  ghost predicate Clean(k: Kernel, sem: Semantics, s: Cpu, n: nat, site: nat, stub: nat, reg: nat)
    decreases n
  {
    n > 0 ==>
      && !(stub <= s.pc < stub + 20) && (s.pc == site ==> Get(s, reg) != 0)
      && (StepIn(k, sem, s).Some? ==> Clean(k, sem, StepIn(k, sem, s).value, n - 1, site, stub, reg))
  }

  lemma OneVisit(k: Kernel, sem: Semantics, s: Cpu, lo: nat, hi: nat)
    ensures Visits(k, sem, s, 1, lo, hi) == if lo <= s.pc < hi then [] else [s]
  {
    hide StepIn;
    if StepIn(k, sem, s).Some? { assert Visits(k, sem, StepIn(k, sem, s).value, 0, lo, hi) == []; }
  }

  /** Stuttering simulation. For every run of the original that keeps to its side,
      the guarded kernel reaches the same state, or gets stuck where it does, having
      passed through exactly the same states outside the stub. */
  lemma {:induction false} GuardSimulates(a: Kernel, b: Kernel, sem: Semantics, env: Env, site: nat, stub: nat,
    reg: nat, s: Cpu, n: nat)
    returns (m: nat)
    requires Extends(sem, env) && Guarded(a, b, site, stub, reg) && !(stub <= site < stub + 20)
    requires NotPcRelative(sem, WordAt(a, site).value)
    requires Clean(a, sem, s, n, site, stub, reg)
    ensures RunIn(b, sem, s, m) == RunIn(a, sem, s, n)
    ensures Visits(b, sem, s, m, stub, stub + 20) == Visits(a, sem, s, n, stub, stub + 20)
    decreases n
  {
    hide Extends, NotPcRelative, StepIn, Guarded, Get;
    if n == 0 { return 0; }
    var k := MacroStep(a, b, sem, env, site, stub, reg, s);
    match StepIn(a, sem, s) {
      case None => m := k;
      case Some(s1) =>
        m := GuardSimulates(a, b, sem, env, site, stub, reg, s1, n - 1);
        RunInOn(b, sem, s, k, m);
        VisitsOn(b, sem, s, k, m, stub, stub + 20);
        m := k + m;
    }
  }

  /** One step of the original is one or four of the guarded kernel, and no state
      outside the stub is passed on the way. */
  lemma MacroStep(a: Kernel, b: Kernel, sem: Semantics, env: Env, site: nat, stub: nat, reg: nat, s: Cpu)
    returns (k: nat)
    requires Extends(sem, env) && Guarded(a, b, site, stub, reg) && !(stub <= site < stub + 20)
    requires NotPcRelative(sem, WordAt(a, site).value)
    requires !(stub <= s.pc < stub + 20) && (s.pc == site ==> Get(s, reg) != 0)
    ensures k > 0 && RunIn(b, sem, s, k) == StepIn(a, sem, s) && Visits(b, sem, s, k, stub, stub + 20) == [s]
  {
    hide Extends, NotPcRelative, Get, WordAt, Does;
    if s.pc != site {
      k := 1;
      OneIn(b, sem, s);
      OneVisit(b, sem, s, stub, stub + 20);
      assert WordAt(b, s.pc) == WordAt(a, s.pc);
    } else {
      k := 4;
      GuardPasses(a, b, sem, env, site, stub, reg, s);
      GuardHides(a, b, sem, env, site, stub, reg, s);
    }
  }

  /** Between the site and the way back, every state is inside the stub. */
  lemma GuardHides(a: Kernel, b: Kernel, sem: Semantics, env: Env, site: nat, stub: nat, reg: nat, s: Cpu)
    requires Extends(sem, env) && Guarded(a, b, site, stub, reg) && !(stub <= site < stub + 20) && s.pc == site
      && Get(s, reg) != 0
    requires NotPcRelative(sem, WordAt(a, site).value)
    ensures Visits(b, sem, s, 4, stub, stub + 20) == [s]
  {
    hide Extends, NotPcRelative, Get, WordAt, Does, StepIn, RunIn, Exec, Visits, SameCode;
    GuardForks(a, b, sem, env, site, stub, reg, s);
    FirstVisits(b, sem, env, stub, s);
    LastVisits(a, b, sem, site, stub, s.(pc := stub + 4));
    VisitsOn(b, sem, s, 2, 2, stub, stub + 20);
    var none: seq<Cpu> := [];
    assert [s] + none == [s];
  }

  lemma FirstVisits(b: Kernel, sem: Semantics, env: Env, stub: nat, s: Cpu)
    requires Extends(sem, env) && Does(b, s.pc, B(stub - s.pc)) && stub < TWO_64 && !(stub <= s.pc < stub + 20)
    ensures Visits(b, sem, s, 2, stub, stub + 20) == [s]
  {
    hide Extends, Does, StepIn, RunIn, Exec, Visits;
    StepKnown(b, sem, env, s, B(stub - s.pc));
    ExecB(s, env, stub);
    VisitsOn(b, sem, s, 1, 1, stub, stub + 20);
    OneVisit(b, sem, s, stub, stub + 20);
    OneVisit(b, sem, s.(pc := stub), stub, stub + 20);
    var none: seq<Cpu> := [];
    assert [s] + none == [s];
  }

  lemma LastVisits(a: Kernel, b: Kernel, sem: Semantics, site: nat, stub: nat, s: Cpu)
    requires WordAt(a, site).Some? && WordAt(b, stub + 4) == WordAt(a, site) && s.pc == stub + 4
    requires NotPcRelative(sem, WordAt(a, site).value) && site + 4 < TWO_64 && stub + 20 < TWO_64
    ensures Visits(b, sem, s, 2, stub, stub + 20) == []
  {
    hide NotPcRelative, WordAt, StepIn, RunIn, Visits;
    Displaced(a, b, sem, site, stub + 4, s);
    OneIn(b, sem, s);
    OneVisit(b, sem, s, stub, stub + 20);
    if StepIn(b, sem, s).Some? {
      VisitsOn(b, sem, s, 1, 1, stub, stub + 20);
      OneVisit(b, sem, StepIn(b, sem, s).value, stub, stub + 20);
    } else {
      StuckVisits(b, sem, s, stub, stub + 20);
    }
  }

  lemma StuckVisits(k: Kernel, sem: Semantics, s: Cpu, lo: nat, hi: nat)
    requires StepIn(k, sem, s).None?
    ensures Visits(k, sem, s, 2, lo, hi) == Visits(k, sem, s, 1, lo, hi)
  {
    hide StepIn;
  }

  // ---- the patched file ----

  /** The stub in its padding, and the branch to it at the site. */
  function Divert(data: octets, off: nat, pad: nat, words: seq<nat>, branch: nat): (r: octets)
    requires pad + 4 * |words| <= |data| && off + 4 <= |data| && branch < TWO_32 && forall w <- words :: w < TWO_32
    ensures |r| == |data|
  {
    PutWord(PutWords(data, pad, words), off, branch)
  }

  /** Zero padding cannot hold the word being displaced. */
  lemma SiteIsElsewhere(data: octets, off: nat, pad: nat, n: nat)
    requires ZeroRun(data, pad, n) && off + 4 <= |data| && Word32(data, off) != 0 && n % 4 == 0 && (pad - off) % 4 == 0
    ensures off + 4 <= pad || pad + n <= off
  {
  }

  lemma Offsets(vb: nat, off: nat, pc: nat)
    requires (vb + off) % 4 == 0 && pc % 4 == 0 && vb <= pc
    ensures pc - vb == off || pc - vb + 4 <= off || off + 4 <= pc - vb
  {
  }

  /** The word at an offset that shares no byte with the site or the stub's edges
      unless it stands there. */
  lemma DivertedWord(data: octets, off: nat, pad: nat, words: seq<nat>, branch: nat, p: nat)
    requires pad + 4 * |words| <= |data| && off + 4 <= |data| && branch < TWO_32 && forall w <- words :: w < TWO_32
    requires off + 4 <= pad || pad + 4 * |words| <= off
    requires p + 4 <= |data| && (p == off || p + 4 <= off || off + 4 <= p) && (p + 4 <= pad || pad <= p)
    ensures
      var v := Word32(Divert(data, off, pad, words, branch), p);
      && (p == off ==> v == branch)
      && (forall i :: 0 <= i < |words| && p == pad + 4 * i ==> v == words[i])
      && (p != off && !(pad <= p < pad + 4 * |words|) ==> v == Word32(data, p))
  {
    hide PutWord, PutWords, Word32;
    PutWordReads(PutWords(data, pad, words), off, branch, p);
    PutWordsRead(data, pad, words, p);
  }

  /** What is fetched from the diverted kernel, at any aligned address. */
  lemma DivertReads(k: Kernel, off: nat, pad: nat, words: seq<nat>, branch: nat, pc: nat)
    requires pad + 4 * |words| <= |k.data| && off + 4 <= |k.data| && branch < TWO_32 && forall w <- words :: w < TWO_32
    requires (k.vb + off) % 4 == 0 && (k.vb + pad) % 4 == 0
    requires off + 4 <= pad || pad + 4 * |words| <= off
    ensures
      var b := Kernel(Divert(k.data, off, pad, words, branch), k.vb);
      && (pc == k.vb + off ==> WordAt(b, pc) == Some(branch))
      && (forall i :: 0 <= i < |words| && pc == k.vb + pad + 4 * i ==> WordAt(b, pc) == Some(words[i]))
      && (pc != k.vb + off && !(k.vb + pad <= pc < k.vb + pad + 4 * |words|) ==> WordAt(b, pc) == WordAt(k, pc))
  {
    hide Divert, Word32;
    if pc % 4 == 0 && k.vb <= pc && pc - k.vb + 4 <= |k.data| {
      var p := pc - k.vb;
      Offsets(k.vb, off, pc);
      Offsets(k.vb, pad, pc);
      DivertedWord(k.data, off, pad, words, branch, p);
    }
  }

  lemma DivertedCode(k: Kernel, off: nat, pad: nat, words: seq<nat>, branch: nat)
    requires pad + 4 * |words| <= |k.data| && off + 4 <= |k.data| && branch < TWO_32 && forall w <- words :: w < TWO_32
    requires (k.vb + off) % 4 == 0 && (k.vb + pad) % 4 == 0
    requires off + 4 <= pad || pad + 4 * |words| <= off
    ensures
      var b := Kernel(Divert(k.data, off, pad, words, branch), k.vb);
      && WordAt(b, k.vb + off) == Some(branch)
      && (forall i :: 0 <= i < |words| ==> WordAt(b, k.vb + pad + 4 * i) == Some(words[i]))
      && SameCode(k, b, k.vb + off, k.vb + pad, 4 * |words|)
  {
    hide Divert, WordAt;
    DivertReads(k, off, pad, words, branch, k.vb + off);
    forall i | 0 <= i < |words|
      ensures WordAt(Kernel(Divert(k.data, off, pad, words, branch), k.vb), k.vb + pad + 4 * i) == Some(words[i])
    {
      DivertReads(k, off, pad, words, branch, k.vb + pad + 4 * i);
    }
    forall pc: nat | pc != k.vb + off && !(k.vb + pad <= pc < k.vb + pad + 4 * |words|)
      ensures WordAt(Kernel(Divert(k.data, off, pad, words, branch), k.vb), pc) == WordAt(k, pc)
    {
      DivertReads(k, off, pad, words, branch, pc);
    }
  }

  lemma GuardStubDecodes(reg: nat, stub: nat, site: nat, orig: nat)
    requires reg < 32 && GuardStub(reg, stub, site, orig).Some?
    ensures
      var words := GuardStub(reg, stub, site, orig).value;
      && |words| == 5 && words[1] == orig && Decode(words[0]) == Cbz(true, reg, 12)
         && Decode(words[2]) == B(site + 4 - (stub + 8))
      && Decode(words[3]) == LdpPost(29, 30, 31, 16) && Decode(words[4]) == Retab
  {
    hide Decode, EncodeCbz, EncodeB;
    CbzDecodes(reg, stub, stub + 12);
    BDecodes(stub + 8, site + 4, false);
    UnwindDecodes();
  }

  lemma UnwindDecodes()
    ensures Decode(LDP_X29_X30_SP_16) == LdpPost(29, 30, 31, 16) && Decode(RETAB) == Retab
  {
    hide Decode;
    Parts(LDP_X29_X30_SP_16, 0x546, 0x1_7BFD);
    Parts(RETAB, 0x6B2, 0x1F_0FFF);
  }

  /** The file null_guard writes for a site whose word it finds at off and a place in
      the padding, or None where an encoder raises. */
  function GuardedFile(k: Kernel, site: nat, off: nat, pad: nat, reg: nat): (b: Option<octets>)
    requires off + 4 <= |k.data| && pad + 20 <= |k.data|
  {
    var stub := k.vb + pad;
    var words, branch := GuardStub(reg, stub, site, Word32(k.data, off)), EncodeB(site, stub, false);
    if words.None? || branch.None? then None else Some(Divert(k.data, off, pad, words.value, branch.value))
  }

  lemma ZeroIsNoBranch()
    ensures Decode(0) == Other
  {
  }

  lemma InStub(site: nat, stub: nat)
    requires site % 4 == 0 && stub % 4 == 0
    ensures stub <= site < stub + 20 ==>
      site == stub || site == stub + 4 || site == stub + 8 || site == stub + 12 || site == stub + 16
    ensures !(stub <= site < stub + 20) ==> site + 4 <= stub || stub + 20 <= site
  {
  }

  /** No kernel is guarded by a stub that holds the site itself, in zero padding. */
  lemma NoGuardInside(a: Kernel, b: Kernel, site: nat, stub: nat, reg: nat)
    requires Guarded(a, b, site, stub, reg) && WordAt(a, site) == Some(0)
    ensures site + 4 <= stub || stub + 20 <= site
  {
    ZeroIsNoBranch();
    InStub(site, stub);
    hide Decode, WordAt, SameCode;
  }

  /** That file is the original with a guard if and only if the site lies outside the
      stub, which it does unless its word is zero. */
  lemma FileIsGuarded(k: Kernel, off: nat, pad: nat, reg: nat)
    requires reg < 32 && (k.vb + off) % 4 == 0 && off + 4 <= |k.data| && ZeroRun(k.data, pad, 24)
    requires k.vb + off + 4 < TWO_64 && k.vb + pad + 24 < TWO_64 && GuardedFile(k, k.vb + off, off, pad, reg).Some?
    ensures Guarded(k, Kernel(GuardedFile(k, k.vb + off, off, pad, reg).value, k.vb), k.vb + off, k.vb + pad, reg)
      <==> off + 4 <= pad || pad + 20 <= off
    ensures Word32(k.data, off) != 0 ==> off + 4 <= pad || pad + 20 <= off
  {
    hide *;
    var site, stub, orig := k.vb + off, k.vb + pad, Word32(k.data, off);
    PaddingIsInside(k, pad);
    GuardedFileIs(k, off, pad, reg);
    var words, branch := GuardStub(reg, stub, site, orig).value, EncodeB(site, stub, false).value;
    BDecodes(site, stub, false);
    ReachAligns(k.vb, off, pad);
    GuardStubDecodes(reg, stub, site, orig);
    SiteWord(k, off);
    var b := Kernel(Divert(k.data, off, pad, words, branch), k.vb);
    if orig != 0 { SiteIsElsewhere(k.data, off, pad, 24); }
    if off + 4 <= pad || pad + 20 <= off {
      DivertedCode(k, off, pad, words, branch);
      Assembled(k, b, site, stub, reg, words, branch);
    } else if Guarded(k, b, site, stub, reg) {
      NoGuardInside(k, b, site, stub, reg);
    }
  }

  lemma GuardedFileIs(k: Kernel, off: nat, pad: nat, reg: nat)
    requires off + 4 <= |k.data| && pad + 20 <= |k.data| && GuardedFile(k, k.vb + off, off, pad, reg).Some?
    ensures
      var words, branch :=
        GuardStub(reg, k.vb + pad, k.vb + off, Word32(k.data, off)), EncodeB(k.vb + off, k.vb + pad, false);
      words.Some? && branch.Some?
        && GuardedFile(k, k.vb + off, off, pad, reg) == Some(Divert(k.data, off, pad, words.value, branch.value))
  {
    hide GuardStub, EncodeB, Word32, Divert;
  }

  lemma ReachAligns(vb: nat, off: nat, pad: nat)
    requires (vb + off) % 4 == 0 && Reaches(vb + off, vb + pad, 0x200_0000)
    ensures (vb + pad) % 4 == 0 && (pad - off) % 4 == 0
  {
  }

  lemma SiteWord(k: Kernel, off: nat)
    requires off + 4 <= |k.data| && (k.vb + off) % 4 == 0
    ensures WordAt(k, k.vb + off) == Some(Word32(k.data, off)) && Word32(k.data, off) < TWO_32
  {
    hide Word32;
  }

  lemma PaddingIsInside(k: Kernel, pad: nat)
    requires ZeroRun(k.data, pad, 24)
    ensures pad + 24 <= |k.data|
  {
  }

  lemma Assembled(k: Kernel, b: Kernel, site: nat, stub: nat, reg: nat, words: seq<nat>, branch: nat)
    requires site % 4 == 0 && stub % 4 == 0 && site + 4 < TWO_64 && stub + 20 < TWO_64 && |words| == 5
    requires WordAt(k, site) == Some(words[1]) && SameCode(k, b, site, stub, 20)
    requires WordAt(b, site) == Some(branch) && Decode(branch) == B(stub - site)
    requires forall i :: 0 <= i < 5 ==> WordAt(b, stub + 4 * i) == Some(words[i])
    requires Decode(words[0]) == Cbz(true, reg, 12) && Decode(words[2]) == B(site + 4 - (stub + 8))
    requires Decode(words[3]) == LdpPost(29, 30, 31, 16) && Decode(words[4]) == Retab
    ensures Guarded(k, b, site, stub, reg)
  {
    hide WordAt, Decode, SameCode;
    assert WordAt(b, stub + 4 * 0) == Some(words[0]) && WordAt(b, stub + 4 * 1) == Some(words[1]);
    assert WordAt(b, stub + 4 * 2) == Some(words[2]) && WordAt(b, stub + 4 * 3) == Some(words[3])
      && WordAt(b, stub + 4 * 4) == Some(words[4]);
  }

  // ---- patching in place ----

  /** struct.pack_into("<I", data, off, w). */
  method PackInto(data: array<byte>, off: nat, w: nat)
    requires off + 4 <= data.Length && w < TWO_32
    modifies data
    ensures data[..] == PutWord(old(data[..]), off, w)
  {
    var b := Put32(w);
    data[off], data[off + 1], data[off + 2], data[off + 3] := b[0], b[1], b[2], b[3];
    hide Put32;
    assert data[..] == PutWord(old(data[..]), off, w);
  }

  lemma {:induction false} PutWordsOneMore(data: octets, off: nat, words: seq<nat>, w: nat)
    requires off + 4 * |words| + 4 <= |data| && w < TWO_32 && forall v <- words :: v < TWO_32
    ensures PutWords(data, off, words + [w]) == PutWord(PutWords(data, off, words), off + 4 * |words|, w)
    decreases |words|
  {
    hide PutWord;
    if words == [] {
      assert [] + [w] == [w] && [w][1..] == [];
    } else {
      assert words[0] in words && forall v <- words[1..] :: v in words;
      PutWordsOneMore(PutWord(data, off, words[0]), off + 4, words[1..], w);
      assert (words + [w])[1..] == words[1..] + [w];
    }
  }

  method PackAll(data: array<byte>, off: nat, words: seq<nat>)
    requires off + 4 * |words| <= data.Length && forall w <- words :: w < TWO_32
    modifies data
    ensures data[..] == PutWords(old(data[..]), off, words)
  {
    hide PutWord, PutWords;
    var i := 0;
    assert PutWords(data[..], off, words[..0]) == data[..] by { NoWords(data[..], off); }
    while i < |words|
      invariant 0 <= i <= |words| && forall w <- words[..i] :: w in words
      invariant data[..] == PutWords(old(data[..]), off, words[..i])
    {
      assert words[i] in words && words[..i + 1] == words[..i] + [words[i]];
      PutWordsOneMore(old(data[..]), off, words[..i], words[i]);
      PackInto(data, off + 4 * i, words[i]);
      i := i + 1;
    }
    assert words[..i] == words;
  }

  lemma NoWords(data: octets, off: nat)
    requires off <= |data|
    ensures PutWords(data, off, []) == data
  {
  }

  /** Where struct finds four bytes at an offset, which may count back from the end;
      None where it raises. */
  function Field4(off: int, n: nat): (at: Option<nat>)
    ensures at.Some? ==> at.value + 4 <= n
  {
    var at := if off < 0 then off + n else off;
    if 0 <= at && at + 4 <= n then Some(at) else None
  }

  /** From the start or back from the end, all four bytes inside. */
  lemma Field4Is(off: int, n: nat)
    ensures 0 <= off && off + 4 <= n ==> Field4(off, n).Some? && Field4(off, n).value == off
    ensures 0 - n <= off <= -4 ==> Field4(off, n).Some? && Field4(off, n).value == off + n
    ensures !(0 <= off && off + 4 <= n) && !(0 - n <= off <= -4) ==> Field4(off, n) == None
  {
  }

  datatype Patch = Patched(pad: nat) | Outside | NoPadding | OutOfReach

  /** null_guard.main on the bytes of the kernel: divert the fourth instruction of
      func. Nothing is written out unless Patched. */
  method PatchGuard(data: array<byte>, vb: nat, func: nat, reg: nat, fileoff: nat, size: nat) returns (r: Patch)
    modifies data
    ensures r.Outside? <==>
      !(0 <= func + 12 - vb <= data.Length - 4) && !(0 - data.Length <= func + 12 - vb <= -4)
    ensures r.NoPadding? ==> forall s: nat :: !Usable(old(data[..]), fileoff, size, 24, s)
    ensures r.Patched? ==>
      Chosen(old(data[..]), fileoff, size, 24, func + 12 - vb, Some(r.pad)) && r.pad + 24 <= data.Length
    ensures r.Patched? ==>
      var at := if func + 12 >= vb then func + 12 - vb else func + 12 - vb + data.Length;
      0 <= at <= data.Length - 4
        && Some(data[..]) == GuardedFile(Kernel(old(data[..]), vb), func + 12, at, r.pad, reg)
    ensures r.OutOfReach? ==>
      var at := if func + 12 >= vb then func + 12 - vb else func + 12 - vb + data.Length;
      0 <= at <= data.Length - 4
        && exists pad: nat :: Chosen(old(data[..]), fileoff, size, 24, func + 12 - vb, Some(pad))
             && pad + 24 <= data.Length && GuardedFile(Kernel(old(data[..]), vb), func + 12, at, pad, reg) == None
  {
    hide GuardStub, EncodeB, PutWords, PutWord, Word32, Chosen, Usable, Field4;
    var site, off := func + 12, func + 12 - vb;
    Field4Is(off, data.Length);
    var at := Field4(off, data.Length);
    if at.None? { return Outside; }
    var orig := Word32(data[..], at.value);
    assert orig < TWO_32;
    var found := FindPadding(data[..], fileoff, size, 24, off);
    ChosenFinds(data[..], fileoff, size, 24, off, found);
    if found.None? { return NoPadding; }
    var pad := found.value;
    RoomFor24(data[..], fileoff, size, pad);
    var stub := vb + pad;
    var words := GuardStub(reg, stub, site, orig);
    if words.None? { return OutOfReach; }
    PackAll(data, pad, words.value);
    var branch := EncodeB(site, stub, false);
    if branch.None? { return OutOfReach; }
    PackInto(data, at.value, branch.value);
    r := Patched(pad);
  }

  lemma RoomFor24(data: octets, fileoff: nat, size: nat, pad: nat)
    requires Usable(data, fileoff, size, 24, pad)
    ensures ZeroRun(data, pad, 24) && pad + 24 <= |data|
  {
  }
}
