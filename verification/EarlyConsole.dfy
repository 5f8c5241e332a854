/** early_console.py: a routine that writes a NUL-terminated string to a PL011. */
module EarlyConsole {
  import opened Wrappers
  import opened Octets
  import opened ArmMachine
  import opened ArmWords
  import opened BootStub

  const PL011_DR := 0x00
  const PL011_FR := 0x18
  const PL011_FR_TXFF_BIT := 5
  const RET := 0xD65F_03C0

  /** build: eleven words, their branches resolved against where they will run. */
  function Routine(at: nat, uart: nat): (words: seq<nat>)
    ensures |words| == 11
  {
    Load64(2, uart) + Body(at)
  }

  function Body(at: nat): (words: seq<nat>)
    ensures |words| == 7
  {
    [LdrBytePost(1, 0, 1),
     CbzWord(1, at + 20, at + 40),
     LdrWord(3, 2, PL011_FR),
     TbnzWord(3, PL011_FR_TXFF_BIT, at + 28, at + 24),
     StrWord(1, 2, PL011_DR),
     BUnchecked(at + 36, at + 16),
     RET]
  }

  // ---- one instruction at a time ----

  /** The routine is in place, and the UART answers at uart. */
  ghost predicate Ready(s: Cpu, at: nat, uart: nat) {
    && at % 4 == 0 && at + 44 < TWO_64 && Holds(s.ram, at, Routine(at, uart))
    && uart + 0x1C <= TWO_64 && OffRam(s.ram, uart, 4) && OffRam(s.ram, uart + 0x18, 4)
  }

  lemma BodyWord(s: Cpu, env: Env, at: nat, uart: nat, k: nat)
    requires Ready(s, at, uart) && k < 7 && s.pc == at + 16 + 4 * k
    ensures Run(s, env, 1) == Exec(Decode(Body(at)[k]), s, env)
  {
    hide Decode, Exec, Run, Load64, Body, WordIs;
    var words := Routine(at, uart);
    assert words[4 + k] == Body(at)[k];
    assert WordIs(s.ram, at + 4 * (4 + k), words[4 + k]);
    Aligned(at, 4 + k);
    StepIs(s, env, Body(at)[k]);
  }

  lemma RetDecodes()
    ensures Decode(RET) == Ret(30)
  {
    Parts(RET, 0x6B2, 0x1F_03C0);
    hide Decode;
  }

  lemma BodyDecodes(at: nat)
    requires at % 4 == 0
    ensures Decode(Body(at)[0]) == LdrbPost(1, 0, 1) && Decode(Body(at)[1]) == Cbz(false, 1, 20)
    ensures Decode(Body(at)[2]) == LdrW(3, 2, 0x18) && Decode(Body(at)[3]) == TbnzW(3, 5, -4)
    ensures Decode(Body(at)[4]) == StrW(1, 2, 0) && Decode(Body(at)[5]) == B(-20)
      && Decode(Body(at)[6]) == Ret(30)
  {
    hide Decode;
    PostsDecode(1, 0, 1);
    CbzWordDecodes(1, at + 20, at + 40);
    LdrWordDecodes(3, 2, 0x18);
    TbnzWordDecodes(3, 5, at + 28, at + 24);
    StrWordDecodes(1, 2, 0);
    BUncheckedDecodes(at + 36, at + 16);
    RetDecodes();
  }

  // ---- waiting for the transmitter ----

  /** A read of the flag register that finds the transmit buffer not full. */
  predicate RoomSeen(e: Event, uart: nat) { e.Read? && e.at == uart + 0x18 && e.value / 0x20 % 2 == 0 }

  predicate FullSeen(e: Event, uart: nat) { e.Read? && e.at == uart + 0x18 && e.value / 0x20 % 2 == 1 }

  predicate Sends(e: Event, uart: nat, c: nat) { e == Wrote(uart, 4, c) }

  /** The value the flag register gives after k device accesses. */
  function Flags(env: Env, k: nat): nat { env.read(k) % TWO_32 }

  /** Sooner or later the buffer drains, whenever one looks. */
  ghost predicate Fair(env: Env) { forall k: nat :: Drains(env, k) }

  ghost predicate Drains(env: Env, k: nat) { exists m: nat :: k <= m && Flags(env, m) / 0x20 % 2 == 0 }

  lemma ExecPoll(s: Cpu, env: Env, at: nat, uart: nat)
    requires Ready(s, at, uart) && s.pc == at + 24 && s.x[2] == uart
    ensures
      var v := Flags(env, |s.trace|);
      Exec(LdrW(3, 2, 0x18), s, env) ==
        Some(s.(pc := at + 28, x := s.x[3 := v], trace := s.trace + [Read(uart + 0x18, 4, v)]))
  {
    assert Wrap(uart + 0x18) == uart + 0x18 && Wrap(at + 28) == at + 28;
    hide Holds, Routine, Word32, BytesAt, Wrap;
    assert uart + 0x18 !in s.ram;
  }

  /** One look at the flag register: two instructions. */
  lemma PollOnce(s: Cpu, env: Env, at: nat, uart: nat) returns (t: Cpu)
    requires Ready(s, at, uart) && s.pc == at + 24 && s.x[2] == uart
    ensures Run(s, env, 2) == Some(t) && Ready(t, at, uart)
    ensures
      var v := Flags(env, |s.trace|);
      t == s.(pc := if v / 0x20 % 2 == 1 then at + 24 else at + 32, x := s.x[3 := v],
              trace := s.trace + [Read(uart + 0x18, 4, v)])
  {
    hide Run, Holds, Routine, Decode, Exec, Bit, OffRam, Wrap, Flags;
    var v := Flags(env, |s.trace|);
    BodyDecodes(at);
    ExecPoll(s, env, at, uart);
    BodyWord(s, env, at, uart, 2);
    var s1 := s.(pc := at + 28, x := s.x[3 := v], trace := s.trace + [Read(uart + 0x18, 4, v)]);
    BodyWord(s1, env, at, uart, 3);
    ExecTest(s1, env, at);
    RunOn(s, env, 1, 1);
    t := Run(s, env, 2).value;
  }

  lemma BitFive(v: nat)
    ensures Bit(v, 5) == v / 0x20 % 2
  {
    var a := v / 2;
    var b := a / 2;
    var c := b / 2;
    var d := c / 2;
    assert Bit(v, 5) == Bit(a, 4) == Bit(b, 3) == Bit(c, 2) == Bit(d, 1) == Bit(d / 2, 0);
  }

  lemma ExecTest(s: Cpu, env: Env, at: nat)
    requires s.pc == at + 28 && at + 44 < TWO_64
    ensures Exec(TbnzW(3, 5, -4), s, env)
      == Some(s.(pc := if s.x[3] / 0x20 % 2 == 1 then at + 24 else at + 32))
  {
    assert Wrap(s.pc - 4) == at + 24 && Wrap(s.pc + 4) == at + 32;
    BitFive(s.x[3]);
    hide Bit, Wrap, Decode;
  }

  /** Full looks, then one that sees room. */
  ghost predicate Waits(e: seq<Event>, uart: nat) {
    |e| > 0 && RoomSeen(e[|e| - 1], uart) && forall i :: 0 <= i < |e| - 1 ==> FullSeen(e[i], uart)
  }

  lemma {:induction false} WaitRuns(s: Cpu, env: Env, at: nat, uart: nat, m: nat)
    returns (n: nat, t: Cpu, e: seq<Event>)
    requires Ready(s, at, uart) && s.pc == at + 24 && s.x[2] == uart
    requires |s.trace| <= m && Flags(env, m) / 0x20 % 2 == 0
    ensures Run(s, env, n) == Some(t) && Ready(t, at, uart) && Waits(e, uart)
    ensures t == s.(pc := at + 32, x := s.x[3 := t.x[3]], trace := s.trace + e)
    decreases m - |s.trace|
  {
    hide Run, Bit, Ready, Flags;
    var s1 := PollOnce(s, env, at, uart);
    var v := Flags(env, |s.trace|);
    var look := Read(uart + 0x18, 4, v);
    n, t, e := 2, s1, [look];
    if v / 0x20 % 2 == 1 {
      var n1, t1, e1 := WaitRuns(s1, env, at, uart, m);
      RunOn(s, env, 2, n1);
      n, t, e := 2 + n1, t1, [look] + e1;
      assert s.trace + [look] + e1 == s.trace + e;
      assert forall i :: 0 < i < |e| ==> e[i] == e1[i - 1];
    }
  }

  // ---- one character ----

  lemma ExecNext(s: Cpu, env: Env, at: nat)
    requires s.pc == at + 16 && at + 44 < TWO_64 && s.x[0] in s.ram && s.x[0] + 1 < TWO_64
    ensures
      var c := s.ram[s.x[0]] as nat;
      var s1 := s.(pc := at + 20, x := s.x[1 := c][0 := s.x[0] + 1]);
      && Exec(LdrbPost(1, 0, 1), s, env) == Some(s1)
      && Exec(Cbz(false, 1, 20), s1, env) == Some(s1.(pc := if c == 0 then at + 40 else at + 24))
  {
    assert Wrap(s.x[0] + 1) == s.x[0] + 1 && Wrap(at + 20) == at + 20 && Wrap(at + 24) == at + 24
      && Wrap(at + 40) == at + 40;
    hide Wrap, Word32, BytesAt;
  }

  /** Fetch a character and test it. */
  lemma NextRuns(s: Cpu, env: Env, at: nat, uart: nat)
    requires Ready(s, at, uart) && s.pc == at + 16 && s.x[0] in s.ram && s.x[0] + 1 < TWO_64
    ensures
      var c := s.ram[s.x[0]] as nat;
      Run(s, env, 2) == Some(s.(pc := if c == 0 then at + 40 else at + 24, x := s.x[1 := c][0 := s.x[0] + 1]))
  {
    hide Run, Holds, Routine, Decode, Exec, OffRam, Wrap;
    BodyDecodes(at);
    ExecNext(s, env, at);
    BodyWord(s, env, at, uart, 0);
    BodyWord(Run(s, env, 1).value, env, at, uart, 1);
    RunOn(s, env, 1, 1);
  }

  lemma ExecSend(s: Cpu, env: Env, at: nat, uart: nat)
    requires s.pc == at + 32 && at + 44 < TWO_64 && s.x[2] == uart && uart < TWO_64 && OffRam(s.ram, uart, 4)
      && s.x[1] < TWO_32
    ensures
      var s1 := s.(pc := at + 36, trace := s.trace + [Wrote(uart, 4, s.x[1])]);
      && Exec(StrW(1, 2, 0), s, env) == Some(s1)
      && Exec(B(-20), s1, env) == Some(s1.(pc := at + 16))
  {
    assert Wrap(uart) == uart && Wrap(at + 36) == at + 36 && Wrap(at + 16) == at + 16
      && s.x[1] % TWO_32 == s.x[1];
    hide Wrap, Put32, Write;
    assert uart !in s.ram;
  }

  /** Write the character and go back for the next. */
  lemma SendRuns(s: Cpu, env: Env, at: nat, uart: nat)
    requires Ready(s, at, uart) && s.pc == at + 32 && s.x[2] == uart && s.x[1] < TWO_32
    ensures Run(s, env, 2) == Some(s.(pc := at + 16, trace := s.trace + [Wrote(uart, 4, s.x[1])]))
  {
    hide Run, Holds, Routine, Decode, Exec, Wrap;
    BodyDecodes(at);
    ExecSend(s, env, at, uart);
    BodyWord(s, env, at, uart, 4);
    BodyWord(Run(s, env, 1).value, env, at, uart, 5);
    RunOn(s, env, 1, 1);
  }

  // ---- the whole string ----

  /** A NUL-terminated string in RAM, short of the end of the address space. */
  ghost predicate StringAt(ram: map<nat, byte>, at: nat, str: octets) {
    && at + |str| + 1 < TWO_64 && InRam(ram, at, |str| + 1)
    && (forall i :: 0 <= i < |str| ==> str[i] != 0 && ram[at + i] == str[i]) && ram[at + |str|] == 0
  }

  /** What the UART sees: for each character, looks until there is room and then the byte. */
  ghost predicate Printed(e: seq<Event>, uart: nat, str: octets)
    decreases |str|
  {
    if str == [] then e == []
    else exists k ::
      0 < k < |e| && Waits(e[..k], uart) && Sends(e[k], uart, str[0]) && Printed(e[k + 1..], uart, str[1..])
  }

  /** Only the scratch registers differ. */
  ghost predicate ScratchOnly(x: Regs, y: Regs) { forall r :: 4 <= r < 31 ==> x[r] == y[r] }

  lemma CharRuns(s: Cpu, env: Env, at: nat, uart: nat) returns (n: nat, t: Cpu, e: seq<Event>)
    requires Ready(s, at, uart) && s.pc == at + 16 && s.x[2] == uart && Fair(env)
    requires s.x[0] in s.ram && s.x[0] + 1 < TWO_64 && s.ram[s.x[0]] != 0
    ensures Run(s, env, n) == Some(t) && Ready(t, at, uart) && Waits(e, uart)
    ensures t == s.(x := t.x, trace := s.trace + (e + [Wrote(uart, 4, s.ram[s.x[0]] as nat)]))
    ensures t.x[0] == s.x[0] + 1 && t.x[2] == uart && ScratchOnly(t.x, s.x)
  {
    hide Run, Holds, Routine, OffRam, Waits;
    var c := s.ram[s.x[0]] as nat;
    NextRuns(s, env, at, uart);
    var s1 := s.(pc := at + 24, x := s.x[1 := c][0 := s.x[0] + 1]);
    assert Drains(env, |s1.trace|);
    var m: nat :| |s1.trace| <= m && Flags(env, m) / 0x20 % 2 == 0;
    var n1, s2;
    n1, s2, e := WaitRuns(s1, env, at, uart, m);
    RunOn(s, env, 2, n1);
    SendRuns(s2, env, at, uart);
    RunOn(s, env, 2 + n1, 2);
    n, t := 2 + n1 + 2, Run(s2, env, 2).value;
    assert s.trace + e + [Wrote(uart, 4, c)] == s.trace + (e + [Wrote(uart, 4, c)]);
  }

  lemma {:induction false} StringRuns(s: Cpu, env: Env, at: nat, uart: nat, str: octets)
    returns (n: nat, t: Cpu, e: seq<Event>)
    requires Ready(s, at, uart) && s.pc == at + 16 && s.x[2] == uart && Fair(env) && StringAt(s.ram, s.x[0], str)
    ensures Run(s, env, n) == Some(t) && Printed(e, uart, str)
    ensures t == s.(pc := at + 40, x := t.x, trace := s.trace + e) && ScratchOnly(t.x, s.x)
    decreases |str|
  {
    hide Run, Ready, Waits, Fair, Printed, StringAt;
    StringHead(s.ram, s.x[0], str);
    if str == [] {
      NextRuns(s, env, at, uart);
      n, t, e := 2, Run(s, env, 2).value, [];
      assert s.trace + e == s.trace;
      NothingPrinted(uart, str);
    } else {
      var n1, s1, e1 := CharRuns(s, env, at, uart);
      var n2, t2, e2 := StringRuns(s1, env, at, uart, str[1..]);
      RunOn(s, env, n1, n2);
      var c := [Wrote(uart, 4, str[0] as nat)];
      n, t, e := n1 + n2, t2, (e1 + c) + e2;
      assert s.trace + (e1 + c) + e2 == s.trace + e;
      PrintedMore(e1, e2, uart, str);
    }
  }

  lemma StringHead(ram: map<nat, byte>, at: nat, str: octets)
    requires StringAt(ram, at, str)
    ensures at in ram && at + 1 < TWO_64
    ensures str == [] ==> ram[at] == 0
    ensures str != [] ==> ram[at] == str[0] != 0 && StringAt(ram, at + 1, str[1..])
  {
    assert at + 0 in ram;
    if str != [] { assert ram[at + 0] == str[0]; }
  }

  lemma NothingPrinted(uart: nat, str: octets)
    requires str == []
    ensures Printed([], uart, str)
  {
  }

  lemma PrintedMore(e1: seq<Event>, e2: seq<Event>, uart: nat, str: octets)
    requires str != [] && Waits(e1, uart) && Printed(e2, uart, str[1..])
    ensures Printed((e1 + [Wrote(uart, 4, str[0] as nat)]) + e2, uart, str)
  {
    WaitsIsLong(e1, uart);
    hide Waits;
    var e, k := (e1 + [Wrote(uart, 4, str[0] as nat)]) + e2, |e1|;
    assert e[..k] == e1 && e[k + 1..] == e2;
  }

  lemma WaitsIsLong(e: seq<Event>, uart: nat)
    requires Waits(e, uart)
    ensures |e| > 0
  {
  }

  lemma ExecRet(s: Cpu, env: Env)
    requires s.x[30] < TWO_64
    ensures Exec(Ret(30), s, env) == Some(s.(pc := s.x[30]))
  {
  }

  /** Called with x0 at a string, on any UART that eventually drains: the routine
      prints exactly that string and returns, touching nothing but x0 to x3. */
  lemma RoutineRuns(s: Cpu, env: Env, at: nat, uart: nat, str: octets) returns (n: nat, t: Cpu, e: seq<Event>)
    requires Ready(s, at, uart) && s.pc == at && Fair(env) && StringAt(s.ram, s.x[0], str) && s.x[30] < TWO_64
    ensures Run(s, env, n) == Some(t) && Printed(e, uart, str)
    ensures t == s.(pc := s.x[30], x := t.x, trace := s.trace + e) && ScratchOnly(t.x, s.x)
  {
    hide Run, Holds, Load64, Body, Decode, Exec, Fair, Printed, Wrap, StringAt, OffRam;
    HoldsSplit(s.ram, at, Load64(2, uart), Body(at));
    Set64Runs(s, env, 2, uart);
    SmallSum(uart, at);
    var s1 := s.(pc := at + 16, x := s.x[2 := uart]);
    var n1, s2;
    n1, s2, e := StringRuns(s1, env, at, uart, str);
    RunOn(s, env, 4, n1);
    BodyDecodes(at);
    BodyWord(s2, env, at, uart, 6);
    ExecRet(s2, env);
    RunOn(s, env, 4 + n1, 1);
    n, t := 4 + n1 + 1, s2.(pc := s.x[30]);
  }

  lemma SmallSum(uart: nat, at: nat)
    requires uart < TWO_64 && at + 44 < TWO_64
    ensures uart % TWO_64 == uart && Wrap(at + 16) == at + 16
  {
  }

  // ---- what that says, read off the trace alone ----

  /** The values written to the data register, in order. */
  function Sent(e: seq<Event>, uart: nat): seq<nat>
    decreases |e|
  {
    if e == [] then []
    else (if e[0].Wrote? && e[0].at == uart then [e[0].value] else []) + Sent(e[1..], uart)
  }

  /** Nothing is written unless the access just before saw room. */
  ghost predicate Polite(e: seq<Event>, uart: nat) {
    forall i :: 0 <= i < |e| && e[i].Wrote? ==> i > 0 && RoomSeen(e[i - 1], uart)
  }

  lemma {:induction false} SentAfterLooks(e: seq<Event>, k: nat, uart: nat)
    requires k <= |e| && forall i :: 0 <= i < k ==> e[i].Read?
    ensures Sent(e, uart) == Sent(e[k..], uart)
    decreases k
  {
    if k == 0 {
      assert e[0..] == e;
    } else {
      SentAfterLooks(e[1..], k - 1, uart);
      assert e[1..][k - 1..] == e[k..];
    }
  }

  lemma PoliteOn(e: seq<Event>, k: nat, uart: nat)
    requires 0 < k < |e| && Waits(e[..k], uart) && Polite(e[k + 1..], uart)
    ensures Polite(e, uart)
  {
    hide Bit;
    var looks, rest := e[..k], e[k + 1..];
    assert forall i :: 0 <= i < k ==> e[i] == looks[i] && e[i].Read?;
    assert forall i :: k < i < |e| ==> e[i] == rest[i - k - 1];
    assert RoomSeen(e[k - 1], uart);
  }

  lemma SentOn(e: seq<Event>, k: nat, uart: nat, c: nat)
    requires k < |e| && Waits(e[..k], uart) && Sends(e[k], uart, c)
    ensures Sent(e, uart) == [c] + Sent(e[k + 1..], uart)
  {
    hide Bit;
    var looks := e[..k];
    assert forall i :: 0 <= i < k ==> e[i] == looks[i] && e[i].Read?;
    SentAfterLooks(e, k, uart);
    assert e[k..][1..] == e[k + 1..];
  }

  /** The bytes that reach the data register are the string's, each after room was seen. */
  lemma {:induction false} PrintedMeans(e: seq<Event>, uart: nat, str: octets)
    requires Printed(e, uart, str)
    ensures |Sent(e, uart)| == |str| && forall i :: 0 <= i < |str| ==> Sent(e, uart)[i] == str[i]
    ensures Polite(e, uart)
    decreases |str|
  {
    if str != [] {
      var k :| 0 < k < |e| && Waits(e[..k], uart) && Sends(e[k], uart, str[0]) && Printed(e[k + 1..], uart, str[1..]);
      hide *;
      PrintedMeans(e[k + 1..], uart, str[1..]);
      SentOn(e, k, uart, str[0]);
      PoliteOn(e, k, uart);
    }
  }
}
