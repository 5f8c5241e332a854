/** Sums, differences and comparisons of 64-bit words as arithmetic on their numbers. */
module WordSums {
  import opened IntFacts
  import opened WordFields
  import Bitmask

  const ALL := 0x1_0000_0000_0000_0000

  function Plus(a: bv64, b: bv64): bv64 { a + b }
  function Minus(a: bv64, b: bv64): bv64 { a - b }
  function Low(v: bv64): bv64 { v & 1 }
  function Rest(v: bv64): bv64 { v >> 1 }
  function Even(v: bv64): bv64 { 2 * v }
  function Next(v: bv64): bv64 { 2 * v + 1 }
  function PlusOne(a: bv64, b: bv64): bv64 { a + b + 1 }
  function Doubled(v: bv64, c: bool): bv64 { if c then Next(v) else Even(v) }
  function Plus3(a: bv64, b: bv64, c: bool): bv64 { if c then PlusOne(a, b) else Plus(a, b) }
  predicate Odd(v: bv64) { v & 1 == 1 }

  /** A word is its upper bits doubled, and its low bit. */
  lemma Splits(v: bv64)
    ensures v == Doubled(Rest(v), Odd(v))
  {
  }

  lemma Joined(hi: bv63, lo: bv1)
    ensures Value(((hi as bv64) << 1) | (lo as bv64)) == hi as nat * 2 + lo as nat
  {
  }

  lemma Apart(v: bv64)
    ensures v == ((((v >> 1) as bv63) as bv64) << 1) | (((v & 1) as bv1) as bv64)
    ensures (v >> 1) as bv63 as nat == Value(v >> 1) < 0x8000_0000_0000_0000
    ensures (v & 1) as bv1 as nat == if Odd(v) then 1 else 0
  {
  }

  function Bit(c: bool): nat { if c then 1 else 0 }

  lemma Halved(v: bv64)
    ensures Value(v) == 2 * Value(Rest(v)) + Bit(Odd(v)) && Value(Rest(v)) < 0x8000_0000_0000_0000
  {
    hide Value;
    Joined((v >> 1) as bv63, (v & 1) as bv1);
    Apart(v);
  }

  function Short(v: bv64): bv64 { v & 0x7FFF_FFFF_FFFF_FFFF }
  predicate Top(v: bv64) { v >> 63 == 1 }

  lemma JoinedTop(hi: bv1, lo: bv63)
    ensures Value(((hi as bv64) << 63) | (lo as bv64)) == hi as nat * 0x8000_0000_0000_0000 + lo as nat
  {
  }

  lemma ApartTop(v: bv64)
    ensures v == ((((v >> 63) as bv1) as bv64) << 63) | (((v & 0x7FFF_FFFF_FFFF_FFFF) as bv63) as bv64)
    ensures (v >> 63) as bv1 as nat == if Top(v) then 1 else 0
    ensures (v & 0x7FFF_FFFF_FFFF_FFFF) as bv63 as nat == Value(Short(v)) < 0x8000_0000_0000_0000
  {
  }

  lemma TopBit(v: bv64)
    ensures Value(v) == Value(Short(v)) + (if Top(v) then 0x8000_0000_0000_0000 else 0)
    ensures Value(Short(v)) < 0x8000_0000_0000_0000
  {
    hide Value;
    JoinedTop((v >> 63) as bv1, (v & 0x7FFF_FFFF_FFFF_FFFF) as bv63);
    ApartTop(v);
  }

  lemma DoubledParts(z: bv64, c: bool)
    ensures Rest(Doubled(z, c)) == Short(z) && Odd(Doubled(z, c)) == c
  {
  }

  lemma DoubledIs(z: bv64, c: bool)
    ensures Value(Doubled(z, c)) == (2 * Value(z) + Bit(c)) % ALL
  {
    hide Value, Doubled, Short, Top, Rest, Odd;
    Halved(Doubled(z, c));
    DoubledParts(z, c);
    TopBit(z);
  }

  predicate Carry(a: bool, b: bool, c: bool) { (a && b) || (a && c) || (b && c) }

  lemma AddingEven(x: bv64, y: bv64)
    ensures Plus(Even(x), Even(y)) == Even(Plus(x, y)) && PlusOne(Even(x), Even(y)) == Next(Plus(x, y))
  {
  }

  lemma AddingNext(x: bv64, y: bv64)
    ensures Plus(Next(x), Next(y)) == Even(PlusOne(x, y)) && PlusOne(Next(x), Next(y)) == Next(PlusOne(x, y))
  {
  }

  lemma AddingLeft(x: bv64, y: bv64)
    ensures Plus(Next(x), Even(y)) == Next(Plus(x, y)) && PlusOne(Next(x), Even(y)) == Even(PlusOne(x, y))
  {
  }

  lemma AddingRight(x: bv64, y: bv64)
    ensures Plus(Even(x), Next(y)) == Next(Plus(x, y)) && PlusOne(Even(x), Next(y)) == Even(PlusOne(x, y))
  {
  }

  lemma Adding(x: bv64, a: bool, y: bv64, b: bool, c: bool)
    ensures Plus3(Doubled(x, a), Doubled(y, b), c) == Doubled(Plus3(x, y, Carry(a, b, c)), (a != b) != c)
  {
    AddingEven(x, y); AddingNext(x, y); AddingLeft(x, y); AddingRight(x, y);
    hide Plus, PlusOne, Even, Next;
  }

  lemma Nothing(v: bv64)
    ensures Value(v) == 0 ==> v == 0
    ensures Value(0) == 0 && Value(1) == 1
  {
  }

  lemma {:induction false} Plus3Is(a: bv64, b: bv64, c: bool)
    ensures Value(Plus3(a, b, c)) == (Value(a) + Value(b) + Bit(c)) % ALL
    decreases Value(a) + Value(b)
  {
    hide Value, Plus3, Doubled, Rest, Odd;
    if Value(a) == 0 && Value(b) == 0 {
      Zeros(a, b, c);
    } else {
      var x, y, p, q := Rest(a), Rest(b), Odd(a), Odd(b);
      var carry, odd := Carry(p, q, c), (p != q) != c;
      Splits(a); Splits(b);
      Halved(a); Halved(b);
      Plus3Is(x, y, carry);
      Adding(x, p, y, q, c);
      DoubledIs(Plus3(x, y, carry), odd);
      CarryIs(Value(x), Value(y), p, q, c);
    }
  }

  lemma Zeros(a: bv64, b: bv64, c: bool)
    requires Value(a) == 0 && Value(b) == 0
    ensures Value(Plus3(a, b, c)) == Bit(c)
  {
    Nothing(a); Nothing(b);
    hide Value;
  }

  lemma CarryIs(x: nat, y: nat, p: bool, q: bool, c: bool)
    requires x < 0x8000_0000_0000_0000 && y < 0x8000_0000_0000_0000
    ensures 2 * ((x + y + Bit(Carry(p, q, c))) % ALL) + Bit((p != q) != c)
      == 2 * x + Bit(p) + (2 * y + Bit(q)) + Bit(c)
  {
  }

  // ---- sums and differences ----

  lemma PlusIs(a: bv64, b: bv64)
    ensures Value(Plus(a, b)) == (Value(a) + Value(b)) % ALL
  {
    Plus3Is(a, b, false);
    hide Value;
  }

  lemma Undone(a: bv64, b: bv64)
    ensures Plus(b, a - b) == a
  {
  }

  lemma Back(a: bv64, b: bv64)
    ensures Plus(b, Minus(a, b)) == a
  {
    hide Plus;
    Undone(a, b);
  }

  lemma Small(v: bv64)
    ensures Value(v) < 0x1_0000_0000_0000_0000
  {
  }

  lemma MinusIs(a: bv64, b: bv64)
    ensures Value(Minus(a, b)) == (Value(a) - Value(b)) % ALL
  {
    hide Value, Plus, Minus;
    Back(a, b);
    PlusIs(b, Minus(a, b));
    Small(a); Small(b); Small(Minus(a, b));
  }

  // ---- order ----

  predicate Less(a: bv64, b: bv64) { a < b }

  lemma TopIs(v: bv64)
    ensures Top(v) <==> Value(v) >= 0x8000_0000_0000_0000
  {
    hide Value, Top, Short;
    TopBit(v);
  }

  function Glue(hi: bv63, lo: bv1): bv64 { ((hi as bv64) << 1) | (lo as bv64) }
  function Upper(v: bv64): bv63 { (v >> 1) as bv63 }
  function Lowest(v: bv64): bv1 { (v & 1) as bv1 }
  predicate Under(x: bv63, y: bv63) { x < y }

  lemma GluedAgain(v: bv64)
    ensures v == Glue(Upper(v), Lowest(v))
  {
  }

  lemma UpperIs(v: bv64)
    ensures Upper(v) as bv64 == Rest(v)
  {
  }

  lemma LowestIs(v: bv64)
    ensures Lowest(v) == 1 <==> Odd(v)
  {
  }

  predicate Lesser(p: bv1, q: bv1) { p < q }

  lemma LesserIs(p: bv1, q: bv1)
    ensures Lesser(p, q) <==> p != 1 && q == 1
  {
  }

  lemma UnderIs(x: bv63, y: bv63)
    ensures Under(x, y) <==> Less(x as bv64, y as bv64)
  {
  }

  lemma GlueUp(x: bv63, p: bv1, y: bv63, q: bv1)
    requires Under(x, y)
    ensures Less(Glue(x, p), Glue(y, q)) && !Less(Glue(y, q), Glue(x, p))
  {
  }

  lemma GlueLower(x: bv63, p: bv1, q: bv1)
    requires Lesser(p, q)
    ensures Less(Glue(x, p), Glue(x, q))
  {
  }

  lemma GlueNot(x: bv63, p: bv1, q: bv1)
    requires !Lesser(p, q)
    ensures !Less(Glue(x, p), Glue(x, q))
  {
  }

  lemma GlueLow(x: bv63, p: bv1, q: bv1)
    ensures Less(Glue(x, p), Glue(x, q)) <==> Lesser(p, q)
  {
    hide *;
    if Lesser(p, q) { GlueLower(x, p, q); } else { GlueNot(x, p, q); }
  }

  lemma SameNumber(a: bv64, b: bv64)
    requires Value(a) == Value(b)
    ensures a == b
  {
    assert a as nat as bv64 == b as nat as bv64;
  }

  lemma SameUpper(a: bv64, b: bv64)
    requires Rest(a) == Rest(b)
    ensures Upper(a) == Upper(b)
  {
  }

  lemma {:induction false} LessIs(a: bv64, b: bv64)
    ensures Less(a, b) <==> Value(a) < Value(b)
    decreases Value(a) + Value(b)
  {
    hide *;
    if Value(a) == Value(b) {
      SameNumber(a, b);
      NotLess(a);
    } else {
      Halved(a); Halved(b);
      LessIs(Rest(a), Rest(b));
      LessIs(Rest(b), Rest(a));
      LessParts(a, b);
      LessParts(b, a);
      if Value(Rest(a)) == Value(Rest(b)) { SameNumber(Rest(a), Rest(b)); }
      BitIs(Odd(a)); BitIs(Odd(b));
    }
  }

  lemma BitIs(c: bool)
    ensures Bit(c) == if c then 1 else 0
  {
  }

  lemma NotLess(a: bv64)
    ensures !Less(a, a)
  {
  }

  lemma LessParts(a: bv64, b: bv64)
    ensures Less(Rest(a), Rest(b)) ==> Less(a, b) && !Less(b, a)
    ensures Rest(a) == Rest(b) ==> (Less(a, b) <==> !Odd(a) && Odd(b))
  {
    hide *;
    GluedAgain(a); GluedAgain(b);
    UpperIs(a); UpperIs(b);
    UnderIs(Upper(a), Upper(b));
    if Less(Rest(a), Rest(b)) {
      GlueUp(Upper(a), Lowest(a), Upper(b), Lowest(b));
      if Rest(a) == Rest(b) { NotLess(Rest(a)); }
    } else if Rest(a) == Rest(b) {
      SameUpper(a, b);
      GlueLow(Upper(a), Lowest(a), Lowest(b));
      LesserIs(Lowest(a), Lowest(b));
      LowestIs(a); LowestIs(b);
    }
  }

  // ---- bits ----

  /** Bit k of a word, shifted down to the end. */
  predicate HasBit(v: bv64, k: nat)
    requires k < 64
  {
    Bitmask.LowBit(Bitmask.Right(v, Bitmask.Byte(k)))
  }

  lemma FirstBit(v: bv64, k: nat)
    requires k == 0
    ensures HasBit(v, k) <==> Odd(v)
  {
  }

  lemma NextBit(v: bv64, k: nat)
    requires 0 < k < 64
    ensures HasBit(v, k) <==> HasBit(Rest(v), k - 1)
  {
    Bitmask.RightStep(v, k);
    hide Bitmask.LowBit, Bitmask.Right, Bitmask.Byte;
  }

  lemma Quotients(n: nat, m: nat, p: nat)
    requires p > 0 && 2 * m <= n < 2 * m + 2
    ensures n / (2 * p) == m / p && n / 2 == m
  {
    var q, r := m / p, m % p;
    assert m == p * q + r;
    assert n == (2 * p) * q + (2 * r + (n - 2 * m));
    Quotient(n, 2 * p, q, 2 * r + (n - 2 * m));
  }

  lemma {:induction false} BitIsQuotient(v: bv64, k: nat)
    requires k < 64
    ensures HasBit(v, k) <==> Value(v) / Pow2(k) % 2 == 1
    decreases k
  {
    hide Value, Rest, Odd, HasBit;
    Halved(v);
    if k == 0 {
      FirstBit(v, k);
    } else {
      NextBit(v, k);
      BitIsQuotient(Rest(v), k - 1);
      Quotients(Value(v), Value(Rest(v)), Pow2(k - 1));
    }
  }
}
