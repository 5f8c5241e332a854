/** The instruction null_guard.py displaces, AND of a register with a mask: an
    instruction set that has it, on which it may be displaced. */
module MaskGuard {
  import opened Wrappers
  import opened ArmMachine
  import opened Diversion
  import Bitmask

  /** The mask of a 64-bit AND immediate; None for any other word. */
  function AndMask(w: nat): Option<bv64> {
    if w / 0x80_0000 != 0x124 then None
    else Bitmask.Bitmask((w / 0x40_0000 % 2) as bv8, (w / 0x400 % 64) as bv8, (w / 0x1_0000 % 64) as bv8)
  }

  function ToNat(v: bv64): nat { v as nat }
  function Masked(v: nat, mask: bv64): nat { ToNat((Wrap(v) as bv64) & mask) }

  /** AND Rd, Rn, #mask; a destination of 31 is the stack pointer. */
  function AndImm(w: nat, mask: bv64, s: Cpu): Cpu { Next(PutBase(s, w % 32, Masked(Get(s, w / 32 % 32), mask))) }

  /** The modelled instructions and that one. */
  function WithAnd(env: Env): Semantics {
    (w: nat, s: Cpu) => if AndMask(w).Some? then Some(AndImm(w, AndMask(w).value, s)) else Exec(Decode(w), s, env)
  }

  lemma AndIsNew(w: nat)
    requires AndMask(w).Some?
    ensures Decode(w) == Other
  {
    TopBits(w);
    NoForm(w / 0x20_0000, w % 0x20_0000);
    hide *;
    Parts(w, w / 0x20_0000, w % 0x20_0000);
  }

  lemma TopBits(w: nat)
    requires AndMask(w).Some?
    ensures 0x490 <= w / 0x20_0000 < 0x494
  {
    assert w / 0x80_0000 == 0x124;
    hide AndMask;
  }

  lemma NoForm(top: nat, low: nat)
    requires 0x490 <= top < 0x494
    ensures Form(top, low) == Other
  {
  }

  /** The simulation is about this instruction set among others. */
  lemma WithAndExtends(env: Env)
    ensures Extends(WithAnd(env), env)
  {
    hide Exec, Decode, AndMask, AndImm;
    forall w: nat, s: Cpu ensures Known(WithAnd(env), env, w, s) { if AndMask(w).Some? { AndIsNew(w); } }
  }

  /** On it an AND with a mask is a word that may be displaced. */
  lemma AndIsNotPcRelative(env: Env, w: nat)
    requires AndMask(w).Some?
    ensures NotPcRelative(WithAnd(env), w)
  {
    hide Exec, Decode, AndMask, Masked, Wrap;
    forall s: Cpu, p: nat ensures SameAt(WithAnd(env), w, s, p) { SameAnd(w, AndMask(w).value, s, p); }
  }

  lemma SameAnd(w: nat, mask: bv64, s: Cpu, p: nat)
    ensures AndImm(w, mask, s.(pc := p)) == AndImm(w, mask, s).(pc := Wrap(p + 4))
  {
    hide Masked, Wrap;
  }
}
