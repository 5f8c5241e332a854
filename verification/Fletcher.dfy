/** The APFS object checksum, and the edit of apfs_seal.py that re-stamps it. */
module Fletcher {
  import opened Wrappers
  import opened Octets
  import opened IntFacts

  const MOD := 0xFFFF_FFFF

  /** The 32-bit words of a byte string; the source raises unless it divides evenly. */
  function Words(b: octets): (ws: seq<nat>)
    requires |b| % 4 == 0
    ensures |ws| == |b| / 4 && forall k :: 0 <= k < |ws| ==> ws[k] == Word32(b, 4 * k)
  {
    seq(|b| / 4, k requires 0 <= k < |b| / 4 => Word32(b, 4 * k))
  }

  datatype Sums = Sums(s1: nat, s2: nat) {
    predicate Reduced() { s1 < MOD && s2 < MOD }
    function Add(w: nat): (r: Sums)
      ensures r.Reduced()
    {
      var t := (s1 + w) % MOD;
      Sums(t, (s2 + t) % MOD)
    }
  }

  function RunningSums(ws: seq<nat>, s: Sums): (r: Sums)
    requires s.Reduced()
    ensures r.Reduced()
    decreases |ws|
  {
    if ws == [] then s else RunningSums(ws[1..], s.Add(ws[0]))
  }

  const ZERO := Sums(0, 0)

  function Low(s: Sums): nat
    requires s.Reduced()
  {
    MOD - (s.s1 + s.s2) % MOD
  }

  function High(s: Sums): nat
    requires s.Reduced()
  {
    MOD - (s.s1 + Low(s)) % MOD
  }

  /** Checksum over everything past the block's own first eight bytes; None
      where iter_unpack raises. */
  function Checksum(block: octets): (c: Option<nat>)
    ensures c.Some? ==> c.value < 0x1_0000_0000_0000_0000
  {
    var body := if |block| >= 8 then block[8..] else [];
    if |body| % 4 != 0 then None
    else
      var s := RunningSums(Words(body), ZERO);
      Some(High(s) * 0x1_0000_0000 + Low(s))
  }

  method Fletcher64(block: octets) returns (c: Option<nat>)
    ensures c == Checksum(block)
  {
    var body := if |block| >= 8 then block[8..] else [];
    if |body| % 4 != 0 { return None; }
    hide Word32;
    var sum1: nat := 0;
    var sum2: nat := 0;
    ghost var ws := Words(body);
    for k := 0 to |body| / 4
      invariant Sums(sum1, sum2).Reduced()
      invariant RunningSums(ws[k..], Sums(sum1, sum2)) == RunningSums(ws, ZERO)
    {
      assert ws[k..][0] == Word32(body, 4 * k) && ws[k..][1..] == ws[k + 1..];
      sum1 := (sum1 + Word32(body, 4 * k)) % MOD;
      sum2 := (sum2 + sum1) % MOD;
    }
    assert ws[|body| / 4..] == [];
    var c1 := MOD - (sum1 + sum2) % MOD;
    var c2 := MOD - (sum1 + c1) % MOD;
    return Some(c2 * 0x1_0000_0000 + c1);
  }

  // ---- what the two words mean ----

  lemma {:induction false} SumsAppend(a: seq<nat>, b: seq<nat>, s: Sums)
    requires s.Reduced()
    ensures RunningSums(a + b, s) == RunningSums(b, RunningSums(a, s))
    decreases |a|
  {
    if a == [] {
      assert a + b == b;
    } else {
      assert (a + b)[1..] == a[1..] + b;
      SumsAppend(a[1..], b, s.Add(a[0]));
    }
  }

  /** Running on over the two checksum words, low then high, brings both sums
      to zero, and no other pair in 1..2^32 - 1 does. */
  lemma ChecksumCancels(s: Sums, c1: nat, c2: nat)
    requires s.Reduced() && 1 <= c1 <= 0xFFFF_FFFF && 1 <= c2 <= 0xFFFF_FFFF
    ensures s.Add(c1).Add(c2) == ZERO <==> c1 == Low(s) && c2 == High(s)
  {
    var t := s.Add(c1);
    Reduce(s.s1, c1);
    Reduce(s.s2, t.s1);
    Reduce(t.s1, c2);
    Reduce(t.s2, t.Add(c2).s1);
    Reduce(s.s1, s.s2);
    Reduce(s.s1, Low(s));
  }

  /** One sum, brought back below the modulus by at most one subtraction. */
  lemma Reduce(a: nat, b: nat)
    requires a < MOD && b <= MOD
    ensures (a + b) % MOD == if a + b < MOD then a + b else a + b - MOD
  {
  }

  function Stored(block: octets): nat
    requires |block| >= 8
  {
    Word64(block, 0)
  }

  predicate Verifies(block: octets) { |block| >= 8 && Checksum(block) == Some(Stored(block)) }

  /** A block verifies when its first two words are the checksum words of the rest. */
  lemma VerifiesByWords(block: octets)
    requires |block| >= 8 && |block| % 4 == 0
    ensures var s := RunningSums(Words(block[8..]), ZERO);
      Verifies(block) <==> Word32(block, 0) == Low(s) && Word32(block, 4) == High(s)
  {
    hide RunningSums, Low, High, Words, Word32;
    NeverZero(RunningSums(Words(block[8..]), ZERO));
  }

  lemma NeverZero(s: Sums)
    requires s.Reduced()
    ensures 1 <= Low(s) <= MOD && 1 <= High(s) <= MOD
  {
  }

  /** A block verifies exactly when its words, followed by its own checksum
      words (neither of them zero), sum to zero twice over. */
  lemma VerifiesMeansZero(block: octets)
    requires |block| >= 8 && |block| % 4 == 0
    ensures Verifies(block) <==>
      && Word32(block, 0) != 0 && Word32(block, 4) != 0
      && RunningSums(Words(block[8..]) + [Word32(block, 0), Word32(block, 4)], ZERO) == ZERO
  {
    hide RunningSums, Low, High, Words, Word32, Verifies, Sums.Add;
    var ws, c1, c2 := Words(block[8..]), Word32(block, 0), Word32(block, 4);
    var s := RunningSums(ws, ZERO);
    SumsAppend(ws, [c1, c2], ZERO);
    TwoWords(s, c1, c2);
    NeverZero(s);
    VerifiesByWords(block);
    if c1 != 0 && c2 != 0 { ChecksumCancels(s, c1, c2); }
  }

  lemma TwoWords(s: Sums, a: nat, b: nat)
    requires s.Reduced()
    ensures RunningSums([a, b], s) == s.Add(a).Add(b)
  {
    OneWord(s, a); OneWord(s.Add(a), b);
    SumsAppend([a], [b], s);
    assert [a] + [b] == [a, b];
    hide RunningSums, Sums.Add;
  }

  lemma OneWord(s: Sums, a: nat)
    requires s.Reduced()
    ensures RunningSums([a], s) == s.Add(a)
  {
    hide Sums.Add;
    assert [a][1..] == [];
    assert RunningSums([], s.Add(a)) == s.Add(a);
  }

  // ---- what changes it detects ----

  lemma AddInjective(s: Sums, t: Sums, w: nat)
    requires s.Reduced() && t.Reduced() && s.Add(w) == t.Add(w)
    ensures s == t
  {
  }

  lemma {:induction false} SumsInjective(ws: seq<nat>, s: Sums, t: Sums)
    requires s.Reduced() && t.Reduced() && RunningSums(ws, s) == RunningSums(ws, t)
    ensures s == t
    decreases |ws|
  {
    if ws != [] {
      SumsInjective(ws[1..], s.Add(ws[0]), t.Add(ws[0]));
      AddInjective(s, t, ws[0]);
    }
  }

  lemma ModCancel(x: nat, y: nat, w: nat)
    requires x < MOD && y < MOD && (x + w) % MOD == (y + w) % MOD
    ensures x == y
  {
    AddInjective(Sums(x, 0), Sums(y, 0), w);
  }

  lemma ModReduce(x: nat, w: nat)
    ensures (x + w) % MOD == (x + w % MOD) % MOD
  {
    var r := x + w % MOD;
    Quotient(x + w, MOD, w / MOD + r / MOD, r % MOD);
  }

  /** Adding a word to a reduced sum: equal results mean congruent words. */
  lemma WordCongruent(x: nat, a: nat, c: nat)
    requires x < MOD
    ensures (x + a) % MOD == (x + c) % MOD <==> a % MOD == c % MOD
  {
    ModReduce(x, a); ModReduce(x, c);
    if (x + a) % MOD == (x + c) % MOD { ModCancel(a % MOD, c % MOD, x); }
  }

  lemma PairInjective(s: Sums, a: nat, b: nat, c: nat, d: nat)
    requires s.Reduced()
    ensures s.Add(a).Add(b) == s.Add(c).Add(d) <==> a % MOD == c % MOD && b % MOD == d % MOD
  {
    var p, q := s.Add(a), s.Add(c);
    WordCongruent(s.s1, a, c);
    WordCongruent(p.s1, b, d);
    if p.Add(b) == q.Add(d) {
      ModCancel(p.s2, q.s2, p.Add(b).s1);
      ModCancel(p.s1, q.s1, s.s2);
    }
  }

  lemma ChecksumInjective(s: Sums, t: Sums)
    requires s.Reduced() && t.Reduced()
    ensures Low(s) == Low(t) && High(s) == High(t) <==> s == t
  {
    Reduce(s.s1, s.s2);
    Reduce(t.s1, t.s2);
    Reduce(s.s1, Low(s));
    Reduce(t.s1, Low(t));
  }

  /** Replacing two adjacent words goes unnoticed exactly when each new word is
      congruent to the old one, that is, equal or 0 for 2^32 - 1. */
  lemma DetectsAdjacentChange(front: seq<nat>, a: nat, b: nat, c: nat, d: nat, back: seq<nat>)
    ensures var s, t := RunningSums(front + [a, b] + back, ZERO), RunningSums(front + [c, d] + back, ZERO);
      (Low(s) == Low(t) && High(s) == High(t)) <==>
        (a % 0xFFFF_FFFF == c % 0xFFFF_FFFF && b % 0xFFFF_FFFF == d % 0xFFFF_FFFF)
  {
    var p := RunningSums(front, ZERO);
    SumsAppend(front + [a, b], back, ZERO); SumsAppend(front, [a, b], ZERO);
    SumsAppend(front + [c, d], back, ZERO); SumsAppend(front, [c, d], ZERO);
    TwoWords(p, a, b); TwoWords(p, c, d);
    var x, y := p.Add(a).Add(b), p.Add(c).Add(d);
    if RunningSums(back, x) == RunningSums(back, y) { SumsInjective(back, x, y); }
    PairInjective(p, a, b, c, d);
    ChecksumInjective(RunningSums(back, x), RunningSums(back, y));
    hide RunningSums, Low, High;
  }

  // ---- apfs_seal.py: clear the sealed flag and re-stamp ----

  const SEALED := 0x20
  const INCOMPAT := 0x38
  const MAGIC: octets := [0x41, 0x50, 0x53, 0x42]  // "APSB"

  predicate IsSealed(flags: nat) { flags / SEALED % 2 == 1 }

  /** flags & ~SEALED. */
  function Cleared(flags: nat): (f: nat)
    ensures f <= flags
  {
    if IsSealed(flags) then flags - SEALED else flags
  }

  datatype Edit = Skipped | Raises | Patched(block: octets)

  /** The edit `main` makes to one block: only to a superblock whose checksum
      verifies and whose sealed flag is set. */
  method Unseal(blk: octets) returns (e: Edit)
    requires |blk| >= 0x40
    ensures e.Raises? <==> blk[32..36] == [0x41, 0x50, 0x53, 0x42] && |blk| % 4 != 0
    ensures e.Patched? <==>
      blk[32..36] == [0x41, 0x50, 0x53, 0x42] && Verifies(blk) && Word64(blk, 0x38) / 0x20 % 2 == 1
    ensures e.Patched? ==>
      Word64(blk, 0x38) >= 0x20 && e.block == Restamped(Overlay(blk, 0x38, Put64(Word64(blk, 0x38) - 0x20)))
  {
    if blk[32..36] != MAGIC { return Skipped; }
    var sum := Fletcher64(blk);
    if sum == None { return Raises; }
    if sum.value != Word64(blk, 0) { return Skipped; }
    var flags := Word64(blk, INCOMPAT);
    if !IsSealed(flags) { return Skipped; }
    var new1 := Overlay(blk, INCOMPAT, Put64(Cleared(flags)));
    var stamp := Fletcher64(new1);
    return Patched(Overlay(new1, 0, Put64(stamp.value)));
  }

  function Restamped(b: octets): octets
    requires |b| >= 8
  {
    if Checksum(b) == None then b else Overlay(b, 0, Put64(Checksum(b).value))
  }

  /** The checksum does not look at the bytes that hold it. */
  lemma ChecksumIgnoresItself(b: octets, v: octets)
    requires |b| >= 8 && |v| == 8
    ensures Checksum(Overlay(b, 0, v)) == Checksum(b)
  {
    assert Overlay(b, 0, v)[8..] == b[8..];
  }

  lemma RestampedVerifies(b: octets)
    requires |b| >= 8 && |b| % 4 == 0
    ensures Verifies(Restamped(b)) && Restamped(b)[8..] == b[8..] && |Restamped(b)| == |b|
  {
    var v := Put64(Checksum(b).value);
    ChecksumIgnoresItself(b, v);
    assert Overlay(b, 0, v) == [] + v + b[8..];
    ReadBack64([], Checksum(b).value, b[8..]);
    hide Checksum, Word64;
  }

  lemma ClearedFlag(flags: nat)
    ensures Cleared(flags) == flags - (if flags / 0x20 % 2 == 1 then 0x20 else 0) && Cleared(flags) / 0x20 % 2 == 0
    ensures Cleared(flags) % 0x20 == flags % 0x20 && Cleared(flags) / 0x40 == flags / 0x40
  {
  }

  /** The patched block verifies, its sealed flag alone is cleared, every byte
      outside the checksum and the flags is as it was, and a second run skips it. */
  lemma UnsealEffect(blk: octets)
    requires |blk| >= 0x40 && |blk| % 4 == 0
    ensures
      var flags := Word64(blk, 0x38);
      var cleared := flags - (if flags / 0x20 % 2 == 1 then 0x20 else 0);
      && cleared >= 0
      && var out := Restamped(Overlay(blk, 0x38, Put64(cleared)));
         && |out| == |blk| && Verifies(out) && Word64(out, 0x38) == cleared && cleared / 0x20 % 2 == 0
         && (forall k :: 8 <= k < |blk| && !(0x38 <= k < 0x40) ==> out[k] == blk[k])
  {
    hide *;
    ClearedFlag(Word64(blk, 0x38));
    StampedField(blk, Cleared(Word64(blk, 0x38)));
  }

  lemma StampedField(blk: octets, v: nat)
    requires |blk| >= 0x40 && |blk| % 4 == 0 && v < 0x1_0000_0000_0000_0000
    ensures
      var out := Restamped(Overlay(blk, 0x38, Put64(v)));
      && |out| == |blk| && Verifies(out) && Word64(out, 0x38) == v
      && (forall k :: 8 <= k < |blk| && !(0x38 <= k < 0x40) ==> out[k] == blk[k])
  {
    hide Verifies, Restamped, Word64, Put64;
    var new1 := Overlay(blk, 0x38, Put64(v));
    RestampedVerifies(new1);
    ReadBack64(blk[..0x38], v, blk[0x40..]);
    var out := Restamped(new1);
    SameField(out, new1, 0x38);
    forall k | 8 <= k < |blk| && !(0x38 <= k < 0x40) ensures out[k] == blk[k] {
      assert out[k] == out[8..][k - 8] == new1[8..][k - 8] == new1[k];
    }
  }

  lemma SameField(a: octets, b: octets, i: nat)
    requires |a| == |b| && 8 <= i && i + 8 <= |a| && a[8..] == b[8..]
    ensures Word64(a, i) == Word64(b, i)
  {
    forall k | i <= k < i + 8 ensures a[k] == b[k] {
      assert a[k] == a[8..][k - 8] && b[k] == b[8..][k - 8];
    }
  }
}
