/** The arm64 logical-immediate decoder. The translator's `decode_bitmask` and
    the oracle's `_bitmask` are the same algorithm; `Bitmask` is its value at
    width 64, `Decode` its loop, and `MaskBits` says which bits that value has. */
module Bitmask {
  import opened Wrappers
  import opened IntFacts

  /** Number of significant bits of a 7-bit value. */
  function BitLength(c: bv8): nat {
    if c >= 64 then 7 else if c >= 32 then 6 else if c >= 16 then 5 else if c >= 8 then 4
    else if c >= 4 then 3 else if c >= 2 then 2 else if c >= 1 then 1 else 0
  }

  function Length(n: bv8, imms: bv8): (length: int)
    ensures length <= 6
  {
    BitLength((n << 6) | (!imms & 0x3F)) - 1
  }

  function ElementSize(length: int): (e: nat)
    requires 1 <= length <= 6
    ensures 0 < e <= 64
  {
    match length case 1 => 2 case 2 => 4 case 3 => 8 case 4 => 16 case 5 => 32 case _ => 64
  }

  /** The low bits of a field: those of an offset into an element. */
  function Level(length: int, field: bv8): (k: nat)
    requires 1 <= length <= 6
    ensures k < ElementSize(length)
  {
    (field & (match length case 1 => 1 case 2 => 3 case 3 => 7 case 4 => 15 case 5 => 31 case _ => 63)) as nat
  }

  lemma SixBits(imms: bv8)
    ensures (!imms & 0x3F) as nat == 63 - imms as nat % 64
  {
    Field64(imms);
    Complement(imms);
    Subtract63(imms & 63);
  }

  lemma Complement(imms: bv8)
    ensures !imms & 0x3F == 63 - (imms & 63) && imms & 63 < 64
  {
  }

  lemma Subtract63(k: bv8)
    requires k < 64
    ensures (63 - k) as nat == 63 - k as nat
  {
  }

  lemma SevenBits(n: bv8, k: bv8)
    requires n <= 1 && k < 64
    ensures ((n << 6) | k) as nat == 64 * (n as nat) + k as nat
  {
  }

  /** N above the complement of imms, as a number. */
  function Combined(n: nat, imms: nat): nat
    requires n <= 1
  {
    64 * n + 63 - imms % 64
  }

  lemma Thresholds(b: bv8)
    ensures (b >= 64 <==> b as nat >= 64) && (b >= 32 <==> b as nat >= 32) && (b >= 16 <==> b as nat >= 16)
    ensures (b >= 8 <==> b as nat >= 8) && (b >= 4 <==> b as nat >= 4) && (b >= 2 <==> b as nat >= 2)
    ensures b >= 1 <==> b as nat >= 1
  {
  }

  lemma Doublings()
    ensures Pow2(0) == 1 && Pow2(1) == 2 && Pow2(2) == 4 && Pow2(3) == 8 && Pow2(4) == 16 && Pow2(5) == 32
    ensures Pow2(6) == 64 && Pow2(7) == 128
  {
  }

  lemma BitLengthIs(b: bv8, c: nat)
    requires c == b as nat < 128
    ensures if c == 0 then BitLength(b) == 0 else 0 < BitLength(b) && Pow2(BitLength(b) - 1) <= c < Pow2(BitLength(b))
  {
    Thresholds(b);
    Doublings();
    hide Pow2;
  }

  /** The element length is the place of the highest set bit of that number. */
  lemma LengthIs(n: bv8, imms: bv8)
    requires n <= 1
    ensures n as nat <= 1
    ensures
      var c, length := Combined(n as nat, imms as nat), Length(n, imms);
      if c == 0 then length == -1 else length >= 0 && Pow2(length) <= c < Pow2(length + 1)
  {
    OneBit(n);
    SixBits(imms);
    BelowSixBits(imms);
    SevenBits(n, !imms & 0x3F);
    BitLengthIs((n << 6) | (!imms & 0x3F), Combined(n as nat, imms as nat));
    hide Pow2, BitLength;
  }

  lemma OneBit(n: bv8)
    requires n <= 1
    ensures n as nat <= 1
  {
  }

  lemma BelowSixBits(imms: bv8)
    ensures !imms & 0x3F < 64
  {
  }

  /** Elements are two to the length bits, and a field counts modulo that. */
  lemma ElementsAre(length: int, field: bv8)
    requires 1 <= length <= 6
    ensures ElementSize(length) == Pow2(length) && Level(length, field) == field as nat % Pow2(length)
  {
    Doublings();
    Field2(field); Field4(field); Field8(field); Field16(field); Field32(field); Field64(field);
    hide Pow2;
  }

  lemma Field2(f: bv8)
    ensures (f & 1) as nat == f as nat % 2
  {
  }

  lemma Field4(f: bv8)
    ensures (f & 3) as nat == f as nat % 4
  {
  }

  lemma Field8(f: bv8)
    ensures (f & 7) as nat == f as nat % 8
  {
  }

  lemma Field16(f: bv8)
    ensures (f & 15) as nat == f as nat % 16
  {
  }

  lemma Field32(f: bv8)
    ensures (f & 31) as nat == f as nat % 32
  {
  }

  lemma Field64(f: bv8)
    ensures (f & 63) as nat == f as nat % 64
  {
  }

  function And(x: bv64, y: bv64): bv64 { x & y }
  function Or(x: bv64, y: bv64): bv64 { x | y }

  function Left(v: bv64, t: bv8): bv64
    requires t <= 64
  {
    v << t
  }

  function Right(v: bv64, t: bv8): bv64
    requires t <= 64
  {
    v >> t
  }

  /** A shift count as a byte. */
  function Byte(k: nat): (b: bv8)
    requires k <= 64
    ensures b as nat == k
  {
    if k == 0 then 0 else Byte(k - 1) + 1
  }

  /** The low k bits set. */
  function Ones(k: nat): bv64
    requires k <= 64
  {
    Left(1, Byte(k)) - 1
  }

  /** One element: s + 1 ones rotated right by r inside esize bits. */
  function Pattern(esize: nat, s: nat, r: nat): bv64
    requires r < esize <= 64 && s < 63
  {
    And(Or(Right(Ones(s + 1), Byte(r)), Left(Ones(s + 1), Byte(esize - r))), Ones(esize))
  }

  /** The value so far with element i in its place; nothing past the top is kept. */
  function Placed(value: bv64, pattern: bv64, esize: nat, i: nat): bv64 {
    if esize * i <= 64 then Or(value, Left(pattern, Byte(esize * i))) else value
  }

  /** `count` copies of an element, `esize` bits apart. */
  function Replicate(pattern: bv64, esize: nat, count: nat): bv64 {
    if count == 0 then 0 else Placed(Replicate(pattern, esize, count - 1), pattern, esize, count - 1)
  }

  /** The 64-bit value of (N, imms, immr), or None for an unallocated encoding. */
  function Bitmask(n: bv8, imms: bv8, immr: bv8): Option<bv64> {
    var length := Length(n & 1, imms);
    if length < 1 then None
    else
      var esize, s, r := ElementSize(length), Level(length, imms), Level(length, immr);
      if s == esize - 1 then None else Some(Replicate(Pattern(esize, s, r), esize, 64 / esize))
  }

  /** The decoder's loop: or one element in at every multiple of its size. */
  method Fill(pattern: bv64, esize: nat, count: nat) returns (value: bv64)
    ensures value == Replicate(pattern, esize, count)
  {
    hide Placed;
    value := 0;
    for i := 0 to count
      invariant value == Replicate(pattern, esize, i)
    {
      value := Placed(value, pattern, esize, i);
    }
  }

  // ---- which bits are set ----

  predicate Has(v: bv64, i: nat)
    requires i < 64
  {
    LowBit(Right(v, Byte(i)))
  }

  predicate LowBit(v: bv64) { v & 1 == 1 }

  lemma OneLess(k: nat)
    requires 0 < k <= 64
    ensures 0 < Byte(k) <= 64 && Byte(k - 1) == Byte(k) - 1
  {
  }

  lemma RightAgain(v: bv64, r: bv8)
    requires 0 < r <= 64
    ensures v >> r == (v >> 1) >> (r - 1)
  {
  }

  lemma LeftAgain(v: bv64, t: bv8)
    requires 0 < t <= 64
    ensures v << t == (v << 1) << (t - 1)
  {
  }

  lemma RightBytes(v: bv64, r: bv8)
    requires 0 < r <= 64
    ensures Right(v, r) == Right(v >> 1, r - 1)
  {
    RightAgain(v, r);
  }

  lemma LeftBytes(v: bv64, t: bv8)
    requires 0 < t <= 64
    ensures Left(v, t) == Left(v << 1, t - 1)
  {
    LeftAgain(v, t);
  }

  lemma RightStep(v: bv64, r: nat)
    requires 0 < r <= 64
    ensures Right(v, Byte(r)) == Right(v >> 1, Byte(r - 1))
  {
    hide Byte, Right;
    OneLess(r);
    RightBytes(v, Byte(r));
  }

  lemma LeftStep(v: bv64, t: nat)
    requires 0 < t <= 64
    ensures Left(v, Byte(t)) == Left(v << 1, Byte(t - 1))
  {
    hide Byte, Left;
    OneLess(t);
    LeftBytes(v, Byte(t));
  }

  lemma RightOne(v: bv64, i: nat)
    requires i < 64
    ensures Has(v >> 1, i) <==> i < 63 && Has(v, i + 1)
  {
    if i < 63 { RightStep(v, i + 1); }
  }

  lemma LeftOneByte(v: bv64, b: bv8)
    requires 0 < b < 64
    ensures ((v << 1) >> b) & 1 == (v >> (b - 1)) & 1
  {
  }

  lemma LeftOneBits(v: bv64, b: bv8)
    requires 0 < b < 64
    ensures LowBit(Right(v << 1, b)) == LowBit(Right(v, b - 1))
  {
    LeftOneByte(v, b);
  }

  lemma LeftOne(v: bv64, i: nat)
    requires i < 64
    ensures Has(v << 1, i) <==> i > 0 && Has(v, i - 1)
  {
    hide Has;
    if i > 0 { LeftUp(v, i); } else { LeftLow(v, i); }
  }

  lemma LeftLow(v: bv64, i: nat)
    requires i == 0
    ensures !Has(v << 1, i)
  {
    ShiftNone(v << 1);
    EvenLow(v);
    hide Right, Byte, LowBit;
  }

  lemma EvenLow(v: bv64)
    ensures !LowBit(v << 1)
  {
  }

  lemma LeftUp(v: bv64, i: nat)
    requires 0 < i < 64
    ensures Has(v << 1, i) == Has(v, i - 1)
  {
    Under64(i);
    OneLess(i);
    hide Right, LowBit, Byte;
    LeftOneBits(v, Byte(i));
  }

  lemma Under64(i: nat)
    requires i < 64
    ensures Byte(i) < 64
  {
  }

  lemma {:induction false} HasRight(v: bv64, r: nat, i: nat)
    requires r <= 64 && i < 64
    ensures Has(Right(v, Byte(r)), i) <==> i + r < 64 && Has(v, i + r)
    decreases r
  {
    hide Has, Right, Byte;
    if r > 0 {
      HasRight(v >> 1, r - 1, i);
      RightStep(v, r);
      if i + r - 1 < 64 { RightOne(v, i + r - 1); }
    } else {
      ShiftNone(v);
    }
  }

  lemma {:induction false} HasLeft(v: bv64, t: nat, i: nat)
    requires t <= 64 && i < 64
    ensures Has(Left(v, Byte(t)), i) <==> t <= i && Has(v, i - t)
    decreases t
  {
    hide Has, Left, Byte;
    if t > 0 {
      HasLeft(v << 1, t - 1, i);
      LeftStep(v, t);
      if t - 1 <= i { LeftOne(v, i - t + 1); }
    } else {
      ShiftNone(v);
    }
  }

  lemma ShiftNone(v: bv64)
    ensures Right(v, Byte(0)) == v && Left(v, Byte(0)) == v
  {
  }

  lemma OnesStep(k: nat)
    requires 0 < k <= 64
    ensures Ones(k) == Or(Ones(k - 1) << 1, 1)
  {
    OneLess(k);
    OnesByte(Byte(k), 1);
    hide Byte;
  }

  lemma DoubleLess(p: bv64, one: bv64)
    requires one == 1
    ensures (p << 1) - one == ((p - one) << 1) | one
  {
  }

  lemma LeftDoubles(v: bv64, b: bv8)
    requires 0 < b <= 64 && v == 1
    ensures Left(v, b) == Left(v, b - 1) << 1
  {
  }

  lemma OnesByte(b: bv8, one: bv64)
    requires 0 < b <= 64 && one == 1
    ensures Left(one, b) - one == Or((Left(one, b - 1) - one) << 1, one)
  {
    LeftDoubles(one, b);
    DoubleLess(Left(one, b - 1), one);
    hide Left;
  }

  lemma HasOr(x: bv64, y: bv64, i: nat)
    requires i < 64
    ensures Has(Or(x, y), i) <==> Has(x, i) || Has(y, i)
  {
    hide Byte, Right, LowBit;
    OrByte(x, y, Byte(i));
  }

  lemma HasAnd(x: bv64, y: bv64, i: nat)
    requires i < 64
    ensures Has(And(x, y), i) <==> Has(x, i) && Has(y, i)
  {
    hide Byte, Right, LowBit;
    AndByte(x, y, Byte(i));
  }

  lemma OrByte(x: bv64, y: bv64, b: bv8)
    requires b <= 64
    ensures LowBit(Right(x | y, b)) <==> LowBit(Right(x, b)) || LowBit(Right(y, b))
  {
  }

  lemma AndByte(x: bv64, y: bv64, b: bv8)
    requires b <= 64
    ensures LowBit(Right(x & y, b)) <==> LowBit(Right(x, b)) && LowBit(Right(y, b))
  {
  }

  lemma HasOne(v: bv64, i: nat)
    requires i < 64 && v == 1
    ensures Has(v, i) <==> i == 0
  {
    if i > 0 { RightStep(v, i); Nothing(v >> 1, i - 1); } else { ShiftNone(v); }
  }

  lemma Nothing(v: bv64, i: nat)
    requires i < 64 && v == 0
    ensures !Has(v, i)
  {
  }

  lemma {:induction false} HasOnes(k: nat, i: nat)
    requires k <= 64 && i < 64
    ensures Has(Ones(k), i) <==> i < k
  {
    if k > 0 {
      OnesStep(k);
      HasOr(Ones(k - 1) << 1, 1, i);
      HasOne(1, i);
      LeftOne(Ones(k - 1), i);
      if i > 0 { HasOnes(k - 1, i - 1); }
    } else {
      ShiftNone(1);
      Nothing(Ones(0), i);
    }
    hide Has, Ones, Byte, Left;
  }

  lemma HasPattern(esize: nat, s: nat, r: nat, i: nat)
    requires r < esize <= 64 && s < 63 && s < esize && i < 64
    ensures Has(Pattern(esize, s, r), i) <==> i < esize && (i + r) % esize <= s
  {
    PatternBits(esize, s, r, i);
    hide *;
    if i < esize {
      if i + r < esize { Quotient(i + r, esize, 0, i + r); } else { Quotient(i + r, esize, 1, i + r - esize); }
    }
  }

  lemma PatternBits(esize: nat, s: nat, r: nat, i: nat)
    requires r < esize <= 64 && s < 63 && s < esize && i < 64
    ensures Has(Pattern(esize, s, r), i) <==> i < esize && (i + r <= s || esize <= i + r <= s + esize)
  {
    hide Has, Ones, Byte, Left, Right, And, Or;
    var ones := Ones(s + 1);
    var right, left := Right(ones, Byte(r)), Left(ones, Byte(esize - r));
    HasAnd(Or(right, left), Ones(esize), i);
    HasOr(right, left, i);
    HasOnes(esize, i);
    HasRight(ones, r, i);
    HasLeft(ones, esize - r, i);
    if i + r < 64 { HasOnes(s + 1, i + r); }
    if esize - r <= i { HasOnes(s + 1, i - (esize - r)); }
  }

  lemma {:induction false} HasReplicate(pattern: bv64, esize: nat, count: nat, end: nat, i: nat)
    requires 0 < esize && end == esize * count <= 64 && i < 64 && forall j :: esize <= j < 64 ==> !Has(pattern, j)
    ensures Has(Replicate(pattern, esize, count), i) <==> i < end && Has(pattern, i % esize)
    decreases count
  {
    if count > 0 {
      var at := end - esize;
      Before(esize, count, end);
      HasReplicate(pattern, esize, count - 1, at, i);
      LastElement(pattern, esize, count, at, i);
      if at <= i < end { Quotient(i, esize, count - 1, i - at); }
    } else {
      Nothing(0, i);
    }
    hide *;
  }

  lemma Before(esize: nat, count: nat, end: nat)
    requires count > 0 && end == esize * count
    ensures end - esize == esize * (count - 1)
  {
  }

  lemma LastElement(pattern: bv64, esize: nat, count: nat, at: nat, i: nat)
    requires count > 0 && at == esize * (count - 1) <= 64 && i < 64
    ensures Has(Replicate(pattern, esize, count), i) <==>
      Has(Replicate(pattern, esize, count - 1), i) || (at <= i && Has(pattern, i - at))
  {
    hide Left, Byte, Has, Or;
    HasOr(Replicate(pattern, esize, count - 1), Left(pattern, Byte(at)), i);
    HasLeft(pattern, at, i);
  }

  /** What a logical immediate is: unallocated when its element is shorter than two
      bits or would have no zero, and otherwise, in every element of esize bits, s + 1
      ones rotated right by r. */
  ghost predicate IsMask(n: bv8, imms: bv8, immr: bv8, mask: Option<bv64>) {
    var length := Length(n & 1, imms);
    if length < 1 || Level(length, imms) == ElementSize(length) - 1 then mask == None
    else
      && mask.Some?
      && forall i: nat :: i < 64 ==>
        (Has(mask.value, i) <==> (i + Level(length, immr)) % ElementSize(length) <= Level(length, imms))
  }

  lemma Repeats(esize: nat, count: nat, s: nat, r: nat, i: nat)
    requires r < esize <= 64 && esize * count == 64 && s < esize - 1 && i < 64
    ensures Has(Replicate(Pattern(esize, s, r), esize, count), i) <==> (i + r) % esize <= s
  {
    var p := Pattern(esize, s, r);
    hide Has, Pattern, Replicate;
    forall j | esize <= j < 64 ensures !Has(p, j) { HasPattern(esize, s, r, j); }
    HasReplicate(p, esize, count, 64, i);
    HasPattern(esize, s, r, i % esize);
    SameRemainder(i, r, esize);
  }

  lemma SameRemainder(i: nat, r: nat, esize: nat)
    requires esize > 0
    ensures (i % esize + r) % esize == (i + r) % esize
  {
    var a, b := i / esize, (i % esize + r) / esize;
    var k := (i % esize + r) % esize;
    assert i + r == esize * a + (esize * b + k) == esize * (a + b) + k;
    Quotient(i + r, esize, a + b, k);
  }

  lemma Divides(length: int)
    requires 1 <= length <= 6
    ensures ElementSize(length) * (64 / ElementSize(length)) == 64
  {
  }

  /** The decoders give the immediate the fields describe. */
  lemma MaskBits(n: bv8, imms: bv8, immr: bv8)
    ensures IsMask(n, imms, immr, Bitmask(n, imms, immr))
  {
    hide Pattern, Replicate, Level, Length, ElementSize, Has;
    var length := Length(n & 1, imms);
    if length >= 1 && Level(length, imms) != ElementSize(length) - 1 {
      Divides(length);
      var esize, s, r := ElementSize(length), Level(length, imms), Level(length, immr);
      forall i: nat | i < 64
        ensures Has(Replicate(Pattern(esize, s, r), esize, 64 / esize), i) <==> (i + r) % esize <= s
      {
        Repeats(esize, 64 / esize, s, r, i);
      }
    }
  }

  /** No immediate is zero. */
  lemma MaskNotZero(n: bv8, imms: bv8, immr: bv8)
    requires Bitmask(n, imms, immr).Some?
    ensures Bitmask(n, imms, immr).value != 0
  {
    MaskBits(n, imms, immr);
    hide Length, Level, ElementSize, Has, Bitmask;
    var length := Length(n & 1, imms);
    var esize, r := ElementSize(length), Level(length, immr);
    var v, i := Bitmask(n, imms, immr).value, if r == 0 then 0 else esize - r;
    Quotient(i + r, esize, if r == 0 then 0 else 1, 0);
    assert Has(v, i);
    if v == 0 { Nothing(v, i); }
  }

  method Decode(n: bv8, imms: bv8, immr: bv8) returns (result: Option<bv64>)
    ensures result == Bitmask(n, imms, immr) && IsMask(n, imms, immr, result)
  {
    MaskBits(n, imms, immr);
    hide Length, Level, ElementSize, Pattern, Replicate, IsMask;
    var length := Length(n & 1, imms);
    if length < 1 { return None; }
    var esize, s, r := ElementSize(length), Level(length, imms), Level(length, immr);
    if s == esize - 1 { return None; }
    var value := Fill(Pattern(esize, s, r), esize, 64 / esize);
    return Some(value);
  }
}
