/** ibootim.py: the LZSS decoder over a 4096-byte ring, and the image around it. */
module Lzss {
  import opened Wrappers
  import opened Octets
  import opened IntFacts

  const N := 4096
  const F := 18
  const THRESHOLD := 2
  const SPACE: byte := 32

  // ---- the specification: LZ77 over an unbounded history ----

  datatype Token = Literal(c: byte) | Copy(pos: nat, len: nat)

  /** Copies the packed form can hold: a 12-bit ring position and 3 to 18 bytes. */
  predicate WellFormed(t: Token) { t.Copy? ==> t.pos < 4096 && 3 <= t.len <= 18 }

  /** The j-th most recent byte of spaces ++ out. */
  function Recent(out: octets, j: nat): byte {
    if j < |out| then out[|out| - 1 - j] else 0x20
  }

  /** Ring index after n bytes have been written. */
  function RingIndex(n: nat): nat { (4078 + n) % 4096 }

  /** How far back ring position `pos` lies: at least 0, at most N - 1. */
  function Back(n: nat, pos: nat): nat { (RingIndex(n) - 1 - pos) % 4096 }

  function CopyBack(out: octets, j: nat, len: nat): (r: octets)
    ensures |r| == |out| + len && out <= r
    decreases len
  {
    if len == 0 then out else CopyBack(out + [Recent(out, j)], j, len - 1)
  }

  function Apply(out: octets, t: Token): (r: octets)
    ensures out <= r
    ensures |r| == |out| + (if t.Copy? then t.len else 1)
  {
    match t
    case Literal(c) => out + [c]
    case Copy(pos, len) => CopyBack(out, Back(|out|, pos), len)
  }

  /** All tokens, stopping after the one that reaches `expected` bytes. */
  function Expand(out: octets, ts: seq<Token>, expected: Option<nat>): octets
    decreases |ts|
  {
    if ts == [] then out
    else
      var out1 := Apply(out, ts[0]);
      if expected.Some? && |out1| >= expected.value then out1 else Expand(out1, ts[1..], expected)
  }

  /** Eight flag bits, then eight ones that mark how many are left. */
  predicate Exhausted(flags: nat) { flags / 2 / 0x100 % 2 == 0 }
  function NextFlags(src: octets, i: nat, flags: nat): nat
    requires i < |src|
  {
    if Exhausted(flags) then src[i] + 0xFF00 else flags / 2
  }
  function NextIndex(i: nat, flags: nat): nat { if Exhausted(flags) then i + 1 else i }

  /** The tokens of a packed stream, from byte i with the flags left over. */
  function Tokens(src: octets, i: nat, flags: nat): seq<Token>
    requires i <= |src|
    decreases |src| - i, 1
  {
    if i >= |src| then [] else Operands(src, NextIndex(i, flags), NextFlags(src, i, flags))
  }

  /** The same with the flags of the next token already in bit 0. */
  function Operands(src: octets, k: nat, f: nat): seq<Token>
    requires k <= |src|
    decreases |src| - k, 0
  {
    if f % 2 == 1 then
      if k >= |src| then [] else [Literal(src[k])] + Tokens(src, k + 1, f)
    else if k + 1 >= |src| then []
    else [CopyOf(src[k], src[k + 1])] + Tokens(src, k + 2, f)
  }

  function CopyOf(a: byte, b: byte): Token { Copy(a + 0x100 * (b / 16), b % 16 + 3) }

  // ---- the decoder ----

  /** Ring position (r - 1 - j) mod N holds the j-th most recent byte. */
  ghost predicate RingHolds(ring: seq<byte>, out: octets) {
    |ring| == N && forall p :: 0 <= p < N ==> ring[p] == Recent(out, Back(|out|, p))
  }

  lemma RingStep(n: nat, p: nat)
    requires p < N
    ensures RingIndex(n + 1) == (RingIndex(n) + 1) % N
    ensures Back(n + 1, p) == if p == RingIndex(n) then 0 else Back(n, p) + 1
    ensures Back(n, p) < N
  {
  }

  lemma RingWrite(ring: seq<byte>, out: octets, c: byte)
    requires RingHolds(ring, out)
    ensures RingHolds(ring[RingIndex(|out|) := c], out + [c])
    ensures RingIndex(|out| + 1) == (RingIndex(|out|) + 1) % N
  {
    var ring1 := ring[RingIndex(|out|) := c];
    forall p | 0 <= p < N ensures ring1[p] == Recent(out + [c], Back(|out| + 1, p)) {
      RingStep(|out|, p);
    }
    RingStep(|out|, 0);
  }

  lemma AdvanceBoth(n: nat, p: nat)
    requires p < N
    ensures Back(n + 1, (p + 1) % N) == Back(n, p)
  {
    var q := RingIndex(n);
    RingStep(n, p);
    hide RingIndex;
    assert (q + 1) % N == if q + 1 == N then 0 else q + 1;
    assert (p + 1) % N == if p + 1 == N then 0 else p + 1;
    Around(q - 1 - p);
  }

  lemma Around(d: int)
    ensures (d + N) % N == d % N && (d - N) % N == d % N
  {
  }

  lemma NextPosition(a: nat)
    ensures (a + 1) % N == (a % N + 1) % N
  {
  }

  /** While a copy runs, both its source and the write index advance, so the
      distance stays what it was. */
  lemma {:induction false} DistanceStays(n: nat, pos: nat, k: nat)
    requires pos < N
    ensures Back(n + k, (pos + k) % N) == Back(n, pos)
    decreases k
  {
    hide Back;
    if k > 0 {
      DistanceStays(n, pos, k - 1);
      AdvanceBoth(n + k - 1, (pos + k - 1) % N);
      NextPosition(pos + k - 1);
    }
  }

  lemma ExpandOne(out: octets, ts: seq<Token>, expected: Option<nat>)
    requires ts != []
    ensures Expand(out, ts, expected) ==
      if expected.Some? && |Apply(out, ts[0])| >= expected.value then Apply(out, ts[0])
      else Expand(Apply(out, ts[0]), ts[1..], expected)
  {
  }

  lemma CopyOne(out: octets, j: nat, len: nat)
    requires len > 0
    ensures CopyBack(out, j, len) == CopyBack(out + [Recent(out, j)], j, len - 1)
  {
  }

  /** The copy loop: byte by byte through the ring, which it also writes. */
  method CopyLoop(ring: array<byte>, start: nat, before: octets, pos: nat, count: nat) returns (r: nat, out: octets)
    requires ring.Length == N && pos < N && start == RingIndex(|before|) && RingHolds(ring[..], before)
    modifies ring
    ensures out == CopyBack(before, Back(|before|, pos), count)
    ensures r == RingIndex(|out|) && RingHolds(ring[..], out)
  {
    hide CopyBack, Back, RingIndex, RingHolds, Recent;
    r, out := start, before;
    ghost var back := Back(|before|, pos);
    for k := 0 to count
      invariant r == RingIndex(|out|) && RingHolds(ring[..], out) && |out| == |before| + k
      invariant CopyBack(out, back, count - k) == CopyBack(before, back, count)
    {
      DistanceStays(|before|, pos, k);
      RingRead(ring[..], out, (pos + k) % N);
      IndexInRange(|out|);
      var c := ring[(pos + k) % N];
      RingWrite(ring[..], out, c);
      CopyOne(out, back, count - k);
      out := out + [c];
      ring[r] := c;
      r := (r + 1) % N;
    }
    CopyNone(out, back);
  }

  lemma CopyNone(out: octets, j: nat)
    ensures CopyBack(out, j, 0) == out
  {
  }

  lemma IndexInRange(n: nat)
    ensures RingIndex(n) < N
  {
  }

  lemma RingRead(ring: seq<byte>, out: octets, p: nat)
    requires RingHolds(ring, out) && p < N
    ensures |ring| == N && ring[p] == Recent(out, Back(|out|, p))
  {
  }

  lemma RingStarts(ring: seq<byte>)
    requires |ring| == N && forall p :: 0 <= p < N ==> ring[p] == SPACE
    ensures RingHolds(ring, []) && RingIndex(0) == N - F
  {
  }

  lemma CopyFields(a: byte, b: byte)
    ensures var t := CopyOf(a, b); t.Copy? && t.pos < N && t.len == b % 16 + THRESHOLD + 1 && WellFormed(t)
  {
  }

  method Decompress(src: octets, expected: Option<nat>) returns (out: octets)
    ensures out == Expand([], Tokens(src, 0, 0), expected)
  {
    hide Expand, Back, RingIndex, RingHolds, Recent, CopyBack;
    out := [];
    var ring := new byte[N](_ => SPACE);
    RingStarts(ring[..]);
    var r := N - F;
    var i: nat := 0;
    var flags: nat := 0;
    while i < |src|
      invariant 0 <= i <= |src| && r == RingIndex(|out|) && ring.Length == N
      invariant RingHolds(ring[..], out)
      invariant Expand(out, Tokens(src, i, flags), expected) == Expand([], Tokens(src, 0, 0), expected)
      decreases |src| - i
    {
      ghost var ts := Tokens(src, i, flags);
      if ts != [] { ExpandOne(out, ts, expected); }
      IndexInRange(|out|);
      flags := flags / 2;
      if flags / 0x100 % 2 == 0 {
        flags := (src[i] as int) + 0xFF00;
        i := i + 1;
      }
      if flags % 2 == 1 {
        if i >= |src| { ExpandNone(out, expected); return; }
        var c := src[i];
        i := i + 1;
        RingWrite(ring[..], out, c);
        out := out + [c];
        ring[r] := c;
        r := (r + 1) % N;
      } else {
        if i + 1 >= |src| { ExpandNone(out, expected); return; }
        var a: int, b: int := src[i], src[i + 1];
        i := i + 2;
        CopyFields(a, b);
        r, out := CopyLoop(ring, r, out, a + 0x100 * (b / 16), b % 16 + THRESHOLD + 1);
      }
      if expected.Some? && |out| >= expected.value { return; }
    }
    ExpandNone(out, expected);
  }

  lemma ExpandNone(out: octets, expected: Option<nat>)
    ensures Expand(out, [], expected) == out
  {
  }

  // ---- packing ----

  /** One bit a token, the first in bit 0; set for a literal. */
  function FlagByte(g: seq<Token>): nat {
    if g == [] then 0 else (if g[0].Literal? then 1 else 0) + 2 * FlagByte(g[1..])
  }

  function Operand(t: Token): octets
    requires WellFormed(t)
  {
    match t
    case Literal(c) => [c]
    case Copy(pos, len) => [pos % 0x100, pos / 0x100 * 16 + (len - THRESHOLD - 1)]
  }

  ghost predicate AllWellFormed(ts: seq<Token>) { forall t :: t in ts ==> WellFormed(t) }

  ghost function AllOperands(g: seq<Token>): octets
    requires AllWellFormed(g)
  {
    if g == [] then [] else
      assert g[0] in g;
      assert forall t :: t in g[1..] ==> t in g;
      Operand(g[0]) + AllOperands(g[1..])
  }

  function GroupSize(ts: seq<Token>): nat { if |ts| < 8 then |ts| else 8 }

  lemma FlagByteFits(g: seq<Token>)
    ensures FlagByte(g) < Pow2(|g|)
  {
  }

  /** The packed form: a flag byte, then the operands of up to eight tokens. */
  ghost function Pack(ts: seq<Token>): octets
    requires AllWellFormed(ts)
    decreases |ts|
  {
    if ts == [] then []
    else
      var n := GroupSize(ts);
      FlagByteFits(ts[..n]);
      Pow2UpTo8(n);
      SplitWellFormed(ts, n);
      [FlagByte(ts[..n])] + AllOperands(ts[..n]) + Pack(ts[n..])
  }

  lemma Pow2UpTo8(n: nat)
    requires n <= 8
    ensures Pow2(n) <= 256 && Pow2(8) == 256
    decreases 8 - n
  {
    assert Pow2(4) == 16;
    if n < 8 { Pow2UpTo8(n + 1); }
  }

  lemma SplitWellFormed(ts: seq<Token>, n: nat)
    requires AllWellFormed(ts) && n <= |ts|
    ensures AllWellFormed(ts[..n]) && AllWellFormed(ts[n..])
  {
  }

  /** Halving the flags moves on to the next token of the group. */
  lemma HalveFlags(g: seq<Token>, j: nat)
    requires j < |g| <= 8
    ensures var f := FlagByte(g[j..]) + 255 * Pow2(8 - j);
      && (f % 2 == 1 <==> g[j].Literal?)
      && f / 2 == FlagByte(g[j + 1..]) + 255 * Pow2(7 - j)
      && (Exhausted(f) <==> j == 7)
  {
    assert g[j..][1..] == g[j + 1..];
    FlagByteFits(g[j + 1..]);
    PowerGap(|g| - j - 1, 7 - j);
    var x, p, bit := FlagByte(g[j + 1..]), Pow2(7 - j), if g[j].Literal? then 1 else 0;
    assert FlagByte(g[j..]) == bit + 2 * x && Pow2(8 - j) == 2 * p;
    assert j == 7 ==> x == 0 && p == 1;
    hide FlagByte, Pow2;
    var f := bit + 2 * (x + 255 * p);
    assert f / 2 == x + 255 * p && f % 2 == bit;
    if j < 7 { HighBits(x, 7 - j); }
  }

  lemma PowerGap(a: nat, b: nat)
    requires a <= b <= 7
    ensures Pow2(a) <= Pow2(b)
    decreases b
  {
    if a < b { PowerGap(a, b - 1); }
  }

  lemma HighBits(x: nat, n: nat)
    requires 1 <= n <= 7 && x < Pow2(n)
    ensures (x + 255 * Pow2(n)) / 0x100 % 2 == 1
  {
    assert Pow2(1) == 2 && Pow2(2) == 4 && Pow2(3) == 8 && Pow2(4) == 16;
    assert Pow2(5) == 32 && Pow2(6) == 64 && Pow2(7) == 128;
  }

  lemma OperandReads(t: Token)
    requires WellFormed(t)
    ensures var o := Operand(t);
      && |o| == (if t.Literal? then 1 else 2)
      && (t.Copy? ==> CopyOf(o[0], o[1]) == t)
      && (t.Literal? ==> Literal(o[0]) == t)
  {
  }

  /** One token read, by the flag bit and the bytes there are. */
  lemma OperandsStep(src: octets, k: nat, f: nat, t: Token, rest: octets)
    requires WellFormed(t) && (f % 2 == 1 <==> t.Literal?)
    requires k <= |src| && src[k..] == Operand(t) + rest
    ensures k + |Operand(t)| <= |src| && src[k + |Operand(t)|..] == rest
    ensures Operands(src, k, f) == [t] + Tokens(src, k + |Operand(t)|, f)
  {
    hide Tokens, CopyOf;
    OperandReads(t);
    var o := Operand(t);
    assert src[k + |o|..] == src[k..][|o|..];
    assert src[k] == src[k..][0] == o[0] && (t.Copy? ==> src[k + 1] == src[k..][1] == o[1]);
    hide Operand;
  }

  lemma TokensGoOn(src: octets, k: nat, f: nat)
    requires k < |src| && !Exhausted(f)
    ensures Tokens(src, k, f) == Operands(src, k, f / 2)
  {
    hide Operands, Exhausted;
  }

  /** Reading a group from its j-th token on, then the rest of the stream. */
  lemma {:induction false} GroupReads(src: octets, k: nat, f: nat, g: seq<Token>, j: nat, rest: seq<Token>)
    requires j < |g| <= 8 && (|g| < 8 ==> rest == [])
    requires AllWellFormed(g) && AllWellFormed(rest) && AllWellFormed(g[j..])
    requires f == FlagByte(g[j..]) + 255 * Pow2(8 - j)
    requires k <= |src| && src[k..] == AllOperands(g[j..]) + Pack(rest)
    ensures Operands(src, k, f) == g[j..] + rest
    decreases |rest|, |g| - j
  {
    hide Exhausted, FlagByte, Pow2, CopyOf, Operand, Operands, Tokens, Pack;
    var t, later := g[j], g[j + 1..];
    assert g[j..][0] == t && g[j..][1..] == later && t in g;
    SplitWellFormed(g, j + 1);
    assert src[k..] == Operand(t) + (AllOperands(later) + Pack(rest));
    HalveFlags(g, j);
    OperandsStep(src, k, f, t, AllOperands(later) + Pack(rest));
    var k1 := k + |Operand(t)|;
    if j + 1 < |g| {
      OperandsNotEmpty(later);
      TokensGoOn(src, k1, f);
      GroupReads(src, k1, f / 2, g, j + 1, rest);
    } else {
      assert later == [] && AllOperands(later) + Pack(rest) == Pack(rest);
      if rest != [] { StreamReads(src, k1, f, rest); } else { StreamEnds(src, k1, f); }
    }
    assert g[j..] + rest == [t] + (later + rest);
  }

  lemma StreamEnds(src: octets, k: nat, f: nat)
    requires k <= |src| && src[k..] == Pack([])
    ensures Tokens(src, k, f) == []
  {
  }

  lemma OperandsNotEmpty(g: seq<Token>)
    requires g != [] && AllWellFormed(g)
    ensures AllOperands(g) != []
  {
    assert g[0] in g;
  }

  lemma {:induction false} StreamReads(src: octets, i: nat, flags: nat, ts: seq<Token>)
    requires AllWellFormed(ts) && ts != [] && Exhausted(flags)
    requires i <= |src| && src[i..] == Pack(ts)
    ensures Tokens(src, i, flags) == ts
    decreases |ts|, 0
  {
    var g, rest := ts[..GroupSize(ts)], ts[GroupSize(ts)..];
    Pow2UpTo8(8);
    PackOpens(src, i, ts);
    hide FlagByte, Pow2, CopyOf, Operand, Operands, AllOperands, Pack, AllWellFormed;
    assert g[0..] == g && ts == g + rest;
    GroupReads(src, i + 1, FlagByte(g) + 0xFF00, g, 0, rest);
  }

  /** The flag byte of the first group, its operands, and the other groups. */
  lemma PackOpens(src: octets, i: nat, ts: seq<Token>)
    requires AllWellFormed(ts) && ts != [] && i <= |src| && src[i..] == Pack(ts)
    ensures
      var g, rest := ts[..GroupSize(ts)], ts[GroupSize(ts)..];
      && AllWellFormed(g) && AllWellFormed(rest) && i < |src|
      && src[i] == FlagByte(g) && src[i + 1..] == AllOperands(g) + Pack(rest)
  {
    var n := GroupSize(ts);
    SplitWellFormed(ts, n);
    hide FlagByte, Operand, AllOperands, AllWellFormed;
    assert src[i] == src[i..][0] && src[i + 1..] == src[i..][1..];
  }

  /** Packing is lossless: the decoder reads back exactly the packed tokens. */
  lemma PackRoundTrip(ts: seq<Token>)
    requires AllWellFormed(ts)
    ensures Tokens(Pack(ts), 0, 0) == ts
  {
    if ts != [] { StreamReads(Pack(ts), 0, 0, ts); }
  }

  // ---- stopping early ----

  /** Stopping early yields a prefix of the full expansion that reaches
      `expected` when the full one does, with at most 17 bytes to spare. */
  lemma {:induction false} StoppingEarly(out: octets, ts: seq<Token>, expected: nat)
    requires AllWellFormed(ts) && |out| < expected
    ensures var full, cut := Expand(out, ts, None), Expand(out, ts, Some(expected));
      && out <= cut <= full
      && |cut| < expected + 18
      && (|full| >= expected ==> |cut| >= expected)
      && (|full| < expected ==> cut == full)
    decreases |ts|
  {
    if ts != [] {
      assert ts[0] in ts;
      SplitWellFormed(ts, 1);
      var out1 := Apply(out, ts[0]);
      if |out1| >= expected {
        ExpandExtends(out1, ts[1..]);
      } else {
        StoppingEarly(out1, ts[1..], expected);
      }
    }
  }

  lemma {:induction false} ExpandExtends(out: octets, ts: seq<Token>)
    ensures out <= Expand(out, ts, None)
    decreases |ts|
  {
    if ts != [] { ExpandExtends(Apply(out, ts[0]), ts[1..]); }
  }

  lemma {:induction false} TokensWellFormed(src: octets, i: nat, flags: nat)
    requires i <= |src|
    ensures AllWellFormed(Tokens(src, i, flags))
    decreases |src| - i
  {
    if i < |src| {
      var f, k := NextFlags(src, i, flags), NextIndex(i, flags);
      if f % 2 == 1 {
        if k < |src| { TokensWellFormed(src, k + 1, f); }
      } else if k + 1 < |src| {
        CopyFields(src[k], src[k + 1]);
        TokensWellFormed(src, k + 2, f);
      }
    }
  }

  // ---- the image container ----

  const HEADER := 0x40
  const MAGIC: octets := [0x69, 0x42, 0x6F, 0x6F, 0x74, 0x49, 0x6D, 0]  // "iBootIm" NUL
  const GREY: octets := [0x79, 0x65, 0x72, 0x67]                        // stored reversed
  const LZSS: octets := [0x73, 0x73, 0x7A, 0x6C]
  const STORED: octets := [0x65, 0x6E, 0x6F, 0x6E]

  datatype Image = Image(w: nat, h: nat, pixels: octets) | Rejected

  /** Zero-padded or cut to exactly n bytes. */
  function Fit(pix: octets, n: nat): octets {
    if |pix| < n then pix + Zeros(n - |pix|) else pix[..n]
  }

  /** What the container must say before the payload is looked at: `iBootIm` and a
      NUL, then `yerg` for grey, with `sszl`, `enon` or nothing for the packing. */
  predicate Accepted(blob: octets) {
    |blob| >= 0x18 && blob[..8] == [0x69, 0x42, 0x6F, 0x6F, 0x74, 0x49, 0x6D, 0]
      && blob[0x10..0x14] == [0x79, 0x65, 0x72, 0x67]
    && (blob[0x0C..0x10] == [0x73, 0x73, 0x7A, 0x6C] || blob[0x0C..0x10] == [0x65, 0x6E, 0x6F, 0x6E]
        || blob[0x0C..0x10] == [0, 0, 0, 0])
  }

  function Body(blob: octets): octets { if |blob| >= HEADER then blob[HEADER..] else [] }

  lemma FitIs(pix: octets, n: nat)
    ensures |Fit(pix, n)| == n && forall i :: 0 <= i < n ==> Fit(pix, n)[i] == if i < |pix| then pix[i] else 0
  {
  }

  lemma AcceptedIs(blob: octets)
    ensures Accepted(blob) <==>
      && |blob| >= 0x18 && blob[..8] == MAGIC && blob[0x10..0x14] == GREY
      && (blob[0x0C..0x10] == LZSS || blob[0x0C..0x10] == STORED || blob[0x0C..0x10] == Zeros(4))
    ensures LZSS == [0x73, 0x73, 0x7A, 0x6C]
  {
    assert Zeros(4) == [0, 0, 0, 0];
  }

  method DecodeImage(blob: octets) returns (image: Image)
    ensures image.Image? <==> Accepted(blob)
    ensures image.Image? ==>
      var n, payload := image.w * image.h, if |blob| >= 0x40 then blob[0x40..] else [];
      var full := if blob[0x0C..0x10] == [0x73, 0x73, 0x7A, 0x6C]
        then Expand([], Tokens(payload, 0, 0), Some(n)) else payload;
      && image.w == Word16(blob, 0x14) && image.h == Word16(blob, 0x16)
      && |image.pixels| == n && forall i :: 0 <= i < n ==> image.pixels[i] == if i < |full| then full[i] else 0
  {
    hide Expand, Tokens, Word16, Accepted, Fit, Zeros;
    AcceptedIs(blob);
    if |blob| < 8 || blob[..8] != MAGIC || |blob| < 0x18 { return Rejected; }
    var w, h := Word16(blob, 0x14), Word16(blob, 0x16);
    if blob[0x10..0x14] != GREY { return Rejected; }
    var pix := Body(blob);
    if blob[0x0C..0x10] == LZSS {
      pix := Decompress(pix, Some(w * h));
    } else if blob[0x0C..0x10] != STORED && blob[0x0C..0x10] != Zeros(4) {
      return Rejected;
    }
    FitIs(pix, w * h);
    return Image(w, h, Fit(pix, w * h));
  }

  /** The early stop cannot be seen in the picture: every pixel is the full
      expansion's byte, or zero past its end. */
  lemma StopIsInvisible(src: octets, n: nat)
    ensures Fit(Expand([], Tokens(src, 0, 0), Some(n)), n) == Fit(Expand([], Tokens(src, 0, 0), None), n)
  {
    var ts := Tokens(src, 0, 0);
    TokensWellFormed(src, 0, 0);
    if n == 0 {
    } else {
      StoppingEarly([], ts, n);
    }
  }
}
