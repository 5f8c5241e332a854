/** Facts about 64-bit words, each small enough for the solver to settle alone. */
module BitFacts {
  const TOP: bv64 := 0x8000_0000_0000_0000
  const ONES: bv64 := 0xFFFF_FFFF_FFFF_FFFF

  lemma SarByZero(v: bv64, k: bv8)
    requires k == 0
    ensures v >> 63 == 1 ==> (v >> k) | !(0xFFFF_FFFF_FFFF_FFFF >> k) == v
  {
  }

  lemma ShiftByZero(v: bv64, k: bv8)
    requires k == 0
    ensures v >> k == v && v << k == v
  {
  }

  lemma RotateByZero(v: bv64, k: bv8)
    requires k == 0
    ensures (v >> k) | (v << (64 - k)) == v
  {
  }

  lemma FillByOne(k: bv8)
    requires k == 1
    ensures !(0xFFFF_FFFF_FFFF_FFFF >> k) == 0x8000_0000_0000_0000 as bv64
  {
  }

  lemma OrAbsorbsTop(v: bv64, x: bv64, s: bv64)
    requires v >> 63 == 1 && s == x | 0x8000_0000_0000_0000
    ensures v | s == v | x
  {
  }

  lemma ShlOne(v: bv64, k: bv8)
    requires v == 1 && 0 < k < 64
    ensures v & (v << k) == 0 && v << k != 0
  {
  }

  lemma RorOne(v: bv64, k: bv8)
    requires v == 1 && 0 < k < 64
    ensures v & ((v >> k) | (v << (64 - k))) == 0 && (v >> k) | (v << (64 - k)) != 0
  {
  }

  lemma ShrTop(v: bv64, k: bv8)
    requires v == TOP && 0 < k < 64
    ensures v & (v >> k) == 0 && v >> k != 0
  {
  }

  lemma ShiftZero(v: bv64, k: bv8)
    requires v == 0 && k < 64
    ensures v >> k == 0 && v << k == 0 && (v >> k) | (v << (64 - k)) == 0
  {
  }

  lemma ShiftOnes(v: bv64, k: bv8)
    requires v == ONES && k < 64
    ensures v >> k != 0 && v << k != 0 && (v >> k) | (v << (64 - k)) != 0
  {
  }

  lemma SarTop(v: bv64, k: bv8)
    requires v == TOP && 0 < k < 64
    ensures v >> 63 == 1
    ensures ((v >> k) | !(0xFFFF_FFFF_FFFF_FFFF >> k)) & v == v
  {
  }

  lemma SarTopOr(v: bv64, k: bv8)
    requires v == TOP && 1 < k < 64
    ensures v | ((v >> k) | !(0xFFFF_FFFF_FFFF_FFFF >> k)) != v | (v >> k)
  {
  }

  lemma DisjointSum(v: bv64, s: bv64)
    requires v & s == 0 && v != 0
    ensures v + v != v + s && v - v != v - s
  {
  }

  lemma DisjointOr(v: bv64, s: bv64)
    requires v & s == 0 && s != 0
    ensures v | v != v | s
  {
  }

  lemma DisjointAnd(v: bv64, s: bv64)
    requires v & s == 0 && v != 0
    ensures v & v != v & s
  {
  }

  lemma DisjointXor(v: bv64, s: bv64)
    requires v & s == 0 && v != 0
    ensures v ^ v != v ^ s
  {
  }

  lemma NeutralDiffers(a: bv64, b: bv64)
    requires a != b
    ensures 0 | a != 0 | b && 0 ^ a != 0 ^ b && 0 + a != 0 + b && 0 - a != 0 - b
    ensures 0xFFFF_FFFF_FFFF_FFFF & a != 0xFFFF_FFFF_FFFF_FFFF & b
  {
  }

  lemma TopSplits(v: bv64, s: bv64, t: bv64)
    requires v == TOP && s & v == v && v & t == 0
    ensures v & s != v & t && v + s != v + t && v - s != v - t && v ^ s != v ^ t && s != t
  {
  }

  lemma AddDiffersOne(x: bv64, y: bv64, s: bv64, t: bv64)
    requires x != y && s == 1 + x && t == 1 + y
    ensures s != t
  {
  }

  lemma AddDiffers256(x: bv64, y: bv64, s: bv64, t: bv64)
    requires x != y && s == 0x100 + x && t == 0x100 + y
    ensures s != t
  {
  }

  lemma SubDiffersOne(x: bv64, y: bv64, s: bv64, t: bv64)
    requires x != y && s == 1 - x && t == 1 - y
    ensures s != t
  {
  }

  lemma SubDiffers256(x: bv64, y: bv64, s: bv64, t: bv64)
    requires x != y && s == 0x100 - x && t == 0x100 - y
    ensures s != t
  {
  }
}
