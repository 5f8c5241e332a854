/** Bytes of files and images as integers 0..255, and little-endian fields. */
module Octets {

  type byte = x: int | 0 <= x < 256
  type octets = seq<byte>

  function Word16(b: octets, i: nat): (n: nat)
    requires i + 2 <= |b|
    ensures n < 0x1_0000
  {
    (b[i] as int) + 0x100 * (b[i + 1] as int)
  }

  function Word32(b: octets, i: nat): (n: nat)
    requires i + 4 <= |b|
    ensures n < 0x1_0000_0000
  {
    Word16(b, i) + 0x1_0000 * Word16(b, i + 2)
  }

  function Word64(b: octets, i: nat): (n: nat)
    requires i + 8 <= |b|
    ensures n < 0x1_0000_0000_0000_0000
  {
    Word32(b, i) + 0x1_0000_0000 * Word32(b, i + 4)
  }

  function Put16(n: nat): (b: octets)
    requires n < 0x1_0000
    ensures |b| == 2
  {
    [n % 0x100, n / 0x100]
  }

  function Put32(n: nat): (b: octets)
    requires n < 0x1_0000_0000
    ensures |b| == 4
  {
    Put16(n % 0x1_0000) + Put16(n / 0x1_0000)
  }

  function Put64(n: nat): (b: octets)
    requires n < 0x1_0000_0000_0000_0000
    ensures |b| == 8
  {
    Put32(n % 0x1_0000_0000) + Put32(n / 0x1_0000_0000)
  }

  function Zeros(n: nat): (b: octets)
    ensures |b| == n && forall k :: 0 <= k < n ==> b[k] == 0
  {
    seq(n, _ => 0)
  }

  /** These bytes lie at a position. */
  ghost predicate Has(b: octets, pos: nat, v: octets) { pos + |v| <= |b| && b[pos..pos + |v|] == v }

  lemma HasParts(b: octets, pos: nat, x: octets, y: octets)
    requires Has(b, pos, x + y)
    ensures Has(b, pos, x) && Has(b, pos + |x|, y)
  {
    assert b[pos..pos + |x|] == b[pos..pos + |x + y|][..|x|];
    assert b[pos + |x|..pos + |x| + |y|] == b[pos..pos + |x + y|][|x|..];
  }

  lemma HasAt(b: octets, pos: nat, v: octets, k: nat)
    requires Has(b, pos, v) && k < |v|
    ensures b[pos + k] == v[k]
  {
    assert b[pos..pos + |v|][k] == v[k];
  }

  /** b with v written over it at a position. */
  function Overlay(b: octets, at: nat, v: octets): (r: octets)
    requires at + |v| <= |b|
    ensures |r| == |b| && r[at..at + |v|] == v
    ensures forall k :: 0 <= k < |b| && !(at <= k < at + |v|) ==> r[k] == b[k]
  {
    b[..at] + v + b[at + |v|..]
  }

  /** A field reads back wherever it is placed. */
  lemma ReadBack32(front: octets, n: nat, back: octets)
    requires n < 0x1_0000_0000
    ensures Word32(front + Put32(n) + back, |front|) == n
  {
    var s := front + Put32(n) + back;
    assert forall k :: 0 <= k < 4 ==> s[|front| + k] == Put32(n)[k];
  }

  lemma ReadBack64(front: octets, n: nat, back: octets)
    requires n < 0x1_0000_0000_0000_0000
    ensures Word64(front + Put64(n) + back, |front|) == n
  {
    var lo, hi := n % 0x1_0000_0000, n / 0x1_0000_0000;
    assert front + Put64(n) + back == front + Put32(lo) + (Put32(hi) + back);
    assert front + Put64(n) + back == (front + Put32(lo)) + Put32(hi) + back;
    ReadBack32(front, lo, Put32(hi) + back);
    ReadBack32(front + Put32(lo), hi, back);
  }

  /** buf[i..j] as Python slices it: clipped to the buffer. */
  function Clipped(buf: octets, i: nat, j: nat): (b: octets)
    requires i <= j
    ensures |b| <= j - i
  {
    if i >= |buf| then [] else if j > |buf| then buf[i..] else buf[i..j]
  }

  /** What the clipping keeps: the bytes from i on, up to j or the end. */
  lemma ClippedKeeps(buf: octets, i: nat, j: nat)
    requires i <= j
    ensures |Clipped(buf, i, j)| == if j <= |buf| then j - i else if i <= |buf| then |buf| - i else 0
    ensures forall k :: 0 <= k < |Clipped(buf, i, j)| ==> i + k < |buf| && Clipped(buf, i, j)[k] == buf[i + k]
  {
  }

  // ---- most significant byte first ----

  function BigEndian(b: octets): nat
    decreases |b|
  {
    if b == [] then 0 else BigEndian(b[..|b| - 1]) * 0x100 + b[|b| - 1]
  }

  function Pow256(k: nat): nat { if k == 0 then 1 else 0x100 * Pow256(k - 1) }

  /** k octets, most significant first. */
  function PutBig(n: nat, k: nat): (b: octets)
    requires n < Pow256(k)
    ensures |b| == k
    decreases k
  {
    if k == 0 then [] else PutBig(n / 0x100, k - 1) + [n % 0x100]
  }

  lemma {:induction false} BigReadsBack(n: nat, k: nat)
    requires n < Pow256(k)
    ensures BigEndian(PutBig(n, k)) == n
    decreases k
  {
    if k > 0 {
      BigReadsBack(n / 0x100, k - 1);
      assert PutBig(n, k)[..k - 1] == PutBig(n / 0x100, k - 1);
    }
  }
}
