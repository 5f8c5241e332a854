/** Object-map nodes as bytes: in every layout the table of contents can describe
    the lookup theorems are about what is stored, and one layout is written out. */
module OmapStore {
  import opened Wrappers
  import opened Octets
  import opened Fletcher
  import opened Omap

  const TWO_64 := 0x1_0000_0000_0000_0000

  // ---- rows of equal size ----

  function Flat(rows: seq<octets>): octets { if rows == [] then [] else rows[0] + Flat(rows[1..]) }

  /** Where row i begins. */
  function RowAt(start: nat, size: nat, i: nat): nat {
    start + (if size == 4 then 4 * i else if size == 8 then 8 * i else 16 * i)
  }

  ghost predicate Equal(rows: seq<octets>, size: nat) {
    (size == 4 || size == 8 || size == 16) && forall r <- rows :: |r| == size
  }

  lemma {:induction false} FlatLength(rows: seq<octets>, size: nat)
    requires Equal(rows, size)
    ensures |Flat(rows)| == RowAt(0, size, |rows|)
    decreases |rows|
  {
    if rows != [] {
      assert rows[0] in rows && forall r <- rows[1..] :: r in rows;
      FlatLength(rows[1..], size);
    }
  }

  lemma {:induction false} RowLies(b: octets, pos: nat, rows: seq<octets>, size: nat, i: nat)
    requires Equal(rows, size) && i < |rows| && Has(b, pos, Flat(rows))
    ensures Has(b, RowAt(pos, size, i), rows[i])
    decreases |rows|
  {
    FirstRow(b, pos, rows, size);
    RowAfter(pos, size, i);
    hide *;
    if i > 0 { RowLies(b, pos + size, rows[1..], size, i - 1); }
  }

  lemma FirstRow(b: octets, pos: nat, rows: seq<octets>, size: nat)
    requires Equal(rows, size) && rows != [] && Has(b, pos, Flat(rows))
    ensures Has(b, pos, rows[0]) && Has(b, pos + size, Flat(rows[1..])) && Equal(rows[1..], size)
  {
    assert rows[0] in rows && forall r <- rows[1..] :: r in rows;
    hide Has;
    HasParts(b, pos, rows[0], Flat(rows[1..]));
  }

  lemma RowAfter(pos: nat, size: nat, i: nat)
    requires size == 4 || size == 8 || size == 16
    ensures i == 0 ==> RowAt(pos, size, i) == pos
    ensures i > 0 ==> RowAt(pos, size, i) == RowAt(pos + size, size, i - 1)
  {
  }

  // ---- the layout ----

  /** What one node holds: its keys and its values, a row each, in a block of the
      container's size; the root ends in the fixed information about the tree. */
  datatype Node = Node(leaf: bool, root: bool, block: nat, keys: seq<octets>, vals: seq<octets>)

  function ValueSize(leaf: bool): nat { if leaf then 16 else 8 }
  function Trailer(root: bool): nat { if root then 40 else 0 }

  /** Where the values begin: they end where the trailer begins. */
  function ValuesAt(d: Node): int { d.block - Trailer(d.root) - RowAt(0, ValueSize(d.leaf), |d.keys|) }

  ghost predicate NodeFits(d: Node) {
    && |d.keys| == |d.vals| < 4096 && Equal(d.keys, 16) && Equal(d.vals, ValueSize(d.leaf))
    && d.block % 4 == 0 && 56 + 20 * |d.keys| <= ValuesAt(d)
  }

  /** Where entry i's key begins, and how far before the end its value does. */
  function TocRow(n: nat, size: nat, i: nat): (b: octets)
    requires i < n < 4096
    ensures |b| == 4
  {
    Put16(16 * i) + Put16(RowAt(0, size, n - i))
  }

  function Toc(n: nat, size: nat): (rows: seq<octets>)
    requires n < 4096
    ensures |rows| == n && Equal(rows, 4) && forall i :: 0 <= i < n ==> rows[i] == TocRow(n, size, i)
  {
    seq(n, i requires 0 <= i < n => TocRow(n, size, i))
  }

  function FlagsOf(leaf: bool, root: bool): (f: nat)
    ensures f < 8
  {
    4 + (if leaf then 2 else 0) + (if root then 1 else 0)
  }

  function Head(n: nat, flags: nat): (b: octets)
    requires n < 4096 && flags < 8
    ensures |b| == 56
  {
    Zeros(32) + (Put16(flags) + (Put16(0) + (Put32(n) + (Put16(0) + (Put16(4 * n) + Zeros(12))))))
  }

  /** The block with its checksum still to be filled in. */
  ghost function Unstamped(d: Node): (b: octets)
    requires NodeFits(d)
  {
    var n := |d.keys|;
    Head(n, FlagsOf(d.leaf, d.root)) + (Flat(Toc(n, ValueSize(d.leaf))) + (Flat(d.keys)
      + (Zeros(ValuesAt(d) - 56 - 20 * n) + (Flat(d.vals) + Zeros(Trailer(d.root))))))
  }

  // ---- where everything lies ----

  ghost predicate HeadLies(b: octets, n: nat, flags: nat)
    requires n < 4096 && flags < 8
  {
    Has(b, 32, Put16(flags)) && Has(b, 36, Put32(n)) && Has(b, 40, Put16(0)) && Has(b, 42, Put16(4 * n))
  }

  ghost predicate EntryLies(b: octets, n: nat, size: nat, at: nat, i: nat, key: octets, val: octets)
    requires i < n < 4096
  {
    && Has(b, RowAt(56, 4, i), TocRow(n, size, i)) && Has(b, RowAt(56 + 4 * n, 16, i), key)
    && Has(b, RowAt(at, size, i), val)
  }

  ghost predicate LaidOut(b: octets, d: Node)
    requires NodeFits(d)
  {
    var n, size := |d.keys|, ValueSize(d.leaf);
    && |b| == d.block && HeadLies(b, n, FlagsOf(d.leaf, d.root))
    && forall i :: 0 <= i < n ==> EntryLies(b, n, size, ValuesAt(d), i, d.keys[i], d.vals[i])
  }

  lemma HeadIsLaid(b: octets, n: nat, flags: nat)
    requires n < 4096 && flags < 8 && Has(b, 0, Head(n, flags))
    ensures HeadLies(b, n, flags)
  {
    hide Put32, Put16, Zeros, Has;
    var f, zero, c, l, y := Put16(flags), Put16(0), Put32(n), Put16(4 * n), Zeros(12);
    HasParts(b, 0, Zeros(32), f + (zero + (c + (zero + (l + y)))));
    HasParts(b, 32, f, zero + (c + (zero + (l + y))));
    HasParts(b, 34, zero, c + (zero + (l + y)));
    HasParts(b, 36, c, zero + (l + y));
    HasParts(b, 40, zero, l + y);
    HasParts(b, 42, l, y);
  }

  /** Five parts, one after the other, with something behind. */
  lemma FiveParts(v: octets, w: octets, x: octets, y: octets, z: octets, end: octets)
    ensures
      var b := v + (w + (x + (y + (z + end))));
      && |b| == |v| + |w| + |x| + |y| + |z| + |end| && Has(b, 0, v) && Has(b, |v|, w) && Has(b, |v| + |w|, x)
      && Has(b, |v| + |w| + |x| + |y|, z)
  {
    var b := v + (w + (x + (y + (z + end))));
    assert b[0..|b|] == b;
    assert Has(b, 0, b);
    hide Has;
    HasParts(b, 0, v, w + (x + (y + (z + end))));
    HasParts(b, |v|, w, x + (y + (z + end)));
    HasParts(b, |v| + |w|, x, y + (z + end));
    HasParts(b, |v| + |w| + |x|, y, z + end);
    HasParts(b, |v| + |w| + |x| + |y|, z, end);
  }

  lemma EntryIsLaid(b: octets, n: nat, size: nat, at: nat, toc: seq<octets>, keys: seq<octets>, vals: seq<octets>,
    i: nat)
    requires i < n < 4096 && |toc| == |keys| == |vals| == n && toc[i] == TocRow(n, size, i)
    requires Equal(toc, 4) && Equal(keys, 16) && Equal(vals, size)
    requires Has(b, 56, Flat(toc)) && Has(b, 56 + 4 * n, Flat(keys)) && Has(b, at, Flat(vals))
    ensures EntryLies(b, n, size, at, i, keys[i], vals[i])
  {
    hide *;
    RowLies(b, 56, toc, 4, i);
    RowLies(b, 56 + 4 * n, keys, 16, i);
    RowLies(b, at, vals, size, i);
    EntryOf(b, n, size, at, i, keys[i], vals[i]);
  }

  lemma EntryOf(b: octets, n: nat, size: nat, at: nat, i: nat, key: octets, val: octets)
    requires i < n < 4096 && Has(b, RowAt(56, 4, i), TocRow(n, size, i)) && Has(b, RowAt(56 + 4 * n, 16, i), key)
    requires Has(b, RowAt(at, size, i), val)
    ensures EntryLies(b, n, size, at, i, key, val)
  {
    hide Has, TocRow, RowAt;
  }

  lemma Sizes(n: nat)
    ensures RowAt(0, 4, n) == 4 * n && RowAt(0, 16, n) == 16 * n
  {
  }

  lemma PartsAreLaid(b: octets, n: nat, flags: nat, at: nat, toc: octets, keys: octets, vals: octets, end: nat)
    requires n < 4096 && flags < 8 && 56 + 20 * n <= at && |toc| == 4 * n && |keys| == 16 * n
    requires b == Head(n, flags) + (toc + (keys + (Zeros(at - 56 - 20 * n) + (vals + Zeros(end)))))
    ensures |b| == at + |vals| + end && HeadLies(b, n, flags)
    ensures Has(b, 56, toc) && Has(b, 56 + 4 * n, keys) && Has(b, at, vals)
  {
    hide *;
    FiveParts(Head(n, flags), toc, keys, Zeros(at - 56 - 20 * n), vals, Zeros(end));
    HeadIsLaid(b, n, flags);
  }

  lemma FlatLengths(n: nat, size: nat, toc: seq<octets>, keys: seq<octets>, vals: seq<octets>)
    requires |toc| == |keys| == |vals| == n && Equal(toc, 4) && Equal(keys, 16) && Equal(vals, size)
    ensures |Flat(toc)| == 4 * n && |Flat(keys)| == 16 * n && |Flat(vals)| == RowAt(0, size, n)
  {
    hide Flat, RowAt, Equal;
    FlatLength(toc, 4);
    FlatLength(keys, 16);
    FlatLength(vals, size);
    Sizes(n);
  }

  lemma UnstampedIsLaid(d: Node)
    requires NodeFits(d)
    ensures LaidOut(Unstamped(d), d) && Readable(Unstamped(d))
  {
    var n, size, at := |d.keys|, ValueSize(d.leaf), ValuesAt(d);
    var toc, b := Toc(n, size), Unstamped(d);
    hide Flat, Head, Toc, Has, HeadLies, EntryLies, TocRow, Equal, RowAt, Zeros, FlagsOf;
    FlatLengths(n, size, toc, d.keys, d.vals);
    PartsAreLaid(b, n, FlagsOf(d.leaf, d.root), at, Flat(toc), Flat(d.keys), Flat(d.vals), Trailer(d.root));
    forall i | 0 <= i < n ensures EntryLies(b, n, size, at, i, d.keys[i], d.vals[i]) {
      EntryIsLaid(b, n, size, at, toc, d.keys, d.vals, i);
    }
    AllLaid(b, d, n, size, at);
  }

  lemma AllLaid(b: octets, d: Node, n: nat, size: nat, at: int)
    requires NodeFits(d) && n == |d.keys| && size == ValueSize(d.leaf) && at == ValuesAt(d)
    requires |b| == d.block && HeadLies(b, n, FlagsOf(d.leaf, d.root))
    requires forall i :: 0 <= i < n ==> EntryLies(b, n, size, at, i, d.keys[i], d.vals[i])
    ensures LaidOut(b, d) && Readable(b)
  {
    hide HeadLies, EntryLies, Equal, RowAt;
  }

  /** Stamping touches only the first eight bytes. */
  lemma StampKeeps(a: octets, b: octets, pos: nat, v: octets)
    requires |a| == |b| && |a| >= 8 && a[8..] == b[8..] && pos >= 8 && Has(b, pos, v)
    ensures Has(a, pos, v)
  {
    forall k | 0 <= k < |v| ensures a[pos + k] == v[k] {
      HasAt(b, pos, v, k);
      assert a[pos + k] == a[8..][pos + k - 8] && b[pos + k] == b[8..][pos + k - 8];
    }
  }

  lemma EntryStays(a: octets, b: octets, n: nat, size: nat, at: nat, i: nat, key: octets, val: octets)
    requires |a| == |b| && |a| >= 8 && a[8..] == b[8..] && i < n < 4096 && 56 <= at
    requires EntryLies(b, n, size, at, i, key, val)
    ensures EntryLies(a, n, size, at, i, key, val)
  {
    hide Has, TocRow;
    StampKeeps(a, b, RowAt(56, 4, i), TocRow(n, size, i));
    StampKeeps(a, b, RowAt(56 + 4 * n, 16, i), key);
    StampKeeps(a, b, RowAt(at, size, i), val);
  }

  lemma HeadStays(a: octets, b: octets, n: nat, flags: nat)
    requires |a| == |b| && |a| >= 8 && a[8..] == b[8..] && n < 4096 && flags < 8 && HeadLies(b, n, flags)
    ensures HeadLies(a, n, flags)
  {
    hide Has, Put16, Put32;
    StampKeeps(a, b, 32, Put16(flags));
    StampKeeps(a, b, 36, Put32(n));
    StampKeeps(a, b, 40, Put16(0));
    StampKeeps(a, b, 42, Put16(4 * n));
  }

  ghost function WriteNode(d: Node): (b: octets)
    requires NodeFits(d)
  {
    UnstampedIsLaid(d);
    Restamped(Unstamped(d))
  }

  lemma WrittenIsLaid(d: Node)
    requires NodeFits(d)
    ensures var b := WriteNode(d); LaidOut(b, d) && Readable(b) && Verifies(b)
  {
    hide HeadLies, EntryLies, Equal, Unstamped, Verifies, Restamped, RowAt, ValueSize, FlagsOf, Trailer;
    UnstampedIsLaid(d);
    var a, b, n, size, at := Unstamped(d), WriteNode(d), |d.keys|, ValueSize(d.leaf), ValuesAt(d);
    RestampedVerifies(a);
    HeadStays(b, a, n, FlagsOf(d.leaf, d.root));
    forall i | 0 <= i < n ensures EntryLies(b, n, size, at, i, d.keys[i], d.vals[i]) {
      EntryStays(b, a, n, size, at, i, d.keys[i], d.vals[i]);
    }
    AllLaid(b, d, n, size, at);
  }

  // ---- what is laid out reads back ----

  lemma Word16Lies(b: octets, pos: nat, n: nat)
    requires n < 0x1_0000 && Has(b, pos, Put16(n))
    ensures pos + 2 <= |b| && Word16(b, pos) == n
  {
    assert b[pos] == b[pos..pos + 2][0] && b[pos + 1] == b[pos..pos + 2][1];
  }

  lemma Word32Lies(b: octets, pos: nat, n: nat)
    requires n < 0x1_0000_0000 && Has(b, pos, Put32(n))
    ensures pos + 4 <= |b| && Word32(b, pos) == n
  {
    hide Put32, Word32;
    ReadBack32(b[..pos], n, b[pos + 4..]);
    assert b == b[..pos] + Put32(n) + b[pos + 4..];
  }

  /** A run of bytes inside the block is what Python slices out. */
  lemma SliceIs(b: octets, pos: nat, v: octets)
    requires Has(b, pos, v)
    ensures Slice(b, pos, pos + |v|) == v
  {
  }

  // ---- any layout ----

  /** Flag bits 1 (root), 2 (leaf) and 4 (fixed sizes), the number of entries, and
      where the table of contents lies after the 56 bytes of the header. */
  datatype Header = Header(flags: nat, count: nat, tocOff: nat, tocLen: nat)

  /** Where an entry lies: its key from the start of the key area, its value back
      from the end of the value area, and how long both are. */
  datatype Place = Place(key: nat, klen: nat, back: nat, vlen: nat)

  predicate HeaderFits(h: Header) {
    h.flags < 0x1_0000 && h.count < 0x1_0000_0000 && h.tocOff < 0x1_0000 && h.tocLen < 0x1_0000
  }

  predicate PlaceFits(p: Place) { p.key < 0x1_0000 && p.klen < 0x1_0000 && p.back < 0x1_0000 && p.vlen < 0x1_0000 }

  predicate RootBit(h: Header) { h.flags % 2 == 1 }
  predicate LeafBit(h: Header) { h.flags / 2 % 2 == 1 }
  predicate FixedBit(h: Header) { h.flags / 4 % 2 == 1 }

  ghost predicate HeaderLies(b: octets, h: Header)
    requires HeaderFits(h)
  {
    && Has(b, 32, Put16(h.flags)) && Has(b, 36, Put32(h.count))
    && Has(b, 40, Put16(h.tocOff)) && Has(b, 42, Put16(h.tocLen))
  }

  /** A row of the table of contents, and where row i begins. */
  function PlaceRow(p: Place, fixed: bool): octets
    requires PlaceFits(p)
  {
    if fixed then Put16(p.key) + Put16(p.back)
    else Put16(p.key) + (Put16(p.klen) + (Put16(p.back) + Put16(p.vlen)))
  }

  function PlaceRowAt(h: Header, i: nat): nat { 56 + h.tocOff + (if FixedBit(h) then 4 * i else 8 * i) }

  /** The values end at the end of the block, or forty bytes before it in a root. */
  function ValuesEnd(b: octets, h: Header): int { if RootBit(h) then |b| - 40 else |b| }

  ghost predicate PlaceLies(b: octets, h: Header, i: nat, p: Place, key: octets, val: octets) {
    && PlaceFits(p) && Has(b, PlaceRowAt(h, i), PlaceRow(p, FixedBit(h)))
    && Has(b, 56 + h.tocOff + h.tocLen + p.key, key)
    && p.back <= ValuesEnd(b, h) && Has(b, ValuesEnd(b, h) - p.back, val)
    && |key| == (if FixedBit(h) then 16 else p.klen)
    && |val| == (if !FixedBit(h) then p.vlen else if LeafBit(h) then 16 else 8)
  }

  lemma HeaderReads(b: octets, h: Header)
    requires HeaderFits(h) && HeaderLies(b, h)
    ensures |b| >= 44 && Word16(b, 32) == h.flags && Word32(b, 36) == h.count
    ensures Word16(b, 40) == h.tocOff && Word16(b, 42) == h.tocLen
  {
    hide Has, Put16, Put32, Word16, Word32;
    Word16Lies(b, 32, h.flags);
    Word32Lies(b, 36, h.count);
    Word16Lies(b, 40, h.tocOff);
    Word16Lies(b, 42, h.tocLen);
  }

  lemma FlagBits(h: Header)
    ensures (Bit(h.flags, 4) <==> FixedBit(h)) && (Bit(h.flags, LEAF) <==> LeafBit(h))
      && (Bit(h.flags, 1) <==> RootBit(h))
  {
  }

  lemma FixedRowReads(b: octets, at: nat, p: Place)
    requires PlaceFits(p) && Has(b, at, PlaceRow(p, true))
    ensures at + 4 <= |b| && Word16(b, at) == p.key && Word16(b, at + 2) == p.back
  {
    hide Has, Put16, Word16;
    HasParts(b, at, Put16(p.key), Put16(p.back));
    Word16Lies(b, at, p.key);
    Word16Lies(b, at + 2, p.back);
  }

  lemma FreeRowReads(b: octets, at: nat, p: Place)
    requires PlaceFits(p) && Has(b, at, PlaceRow(p, false))
    ensures at + 8 <= |b| && Word16(b, at) == p.key && Word16(b, at + 2) == p.klen
    ensures Word16(b, at + 4) == p.back && Word16(b, at + 6) == p.vlen
  {
    hide Has, Put16, Word16;
    var k, l, v, m := Put16(p.key), Put16(p.klen), Put16(p.back), Put16(p.vlen);
    HasParts(b, at, k, l + (v + m));
    HasParts(b, at + 2, l, v + m);
    HasParts(b, at + 4, v, m);
    Word16Lies(b, at, p.key);
    Word16Lies(b, at + 2, p.klen);
    Word16Lies(b, at + 4, p.back);
    Word16Lies(b, at + 6, p.vlen);
  }

  lemma FixedFound(b: octets, h: Header, i: nat, p: Place, key: octets, val: octets)
    requires FixedBit(h) && |b| >= 44 && Word16(b, 32) == h.flags && Word16(b, 40) == h.tocOff
      && Word16(b, 42) == h.tocLen
    requires var at := 56 + h.tocOff + 4 * i;
      at + 4 <= |b| && Word16(b, at) == p.key && Word16(b, at + 2) == p.back
    requires var k := 56 + h.tocOff + h.tocLen + p.key; Slice(b, k, k + 16) == key
    requires var v := ValuesEnd(b, h) - p.back; Slice(b, v, v + if LeafBit(h) then 16 else 8) == val
    ensures EntryAt(b, i) == Some(Entry(key, val))
  {
    FlagBits(h);
    hide Word16, Slice, Bit, FixedBit, LeafBit, RootBit;
  }

  lemma FreeFound(b: octets, h: Header, i: nat, p: Place, key: octets, val: octets)
    requires !FixedBit(h) && |b| >= 44 && Word16(b, 32) == h.flags && Word16(b, 40) == h.tocOff
      && Word16(b, 42) == h.tocLen
    requires var at := 56 + h.tocOff + 8 * i;
      && at + 8 <= |b| && Word16(b, at) == p.key && Word16(b, at + 2) == p.klen
      && Word16(b, at + 4) == p.back && Word16(b, at + 6) == p.vlen
    requires var k := 56 + h.tocOff + h.tocLen + p.key; Slice(b, k, k + p.klen) == key
    requires var v := ValuesEnd(b, h) - p.back; Slice(b, v, v + p.vlen) == val
    ensures EntryAt(b, i) == Some(Entry(key, val))
  {
    FlagBits(h);
    hide Word16, Slice, Bit, FixedBit, LeafBit, RootBit;
  }

  /** An entry is the bytes its row points at, wherever they lie. */
  lemma EntryReads(b: octets, h: Header, i: nat, p: Place, key: octets, val: octets)
    requires HeaderFits(h) && HeaderLies(b, h) && PlaceLies(b, h, i, p, key, val)
    ensures |b| >= 44 && EntryAt(b, i) == Some(Entry(key, val))
  {
    hide Has, HeaderLies, EntryAt, Word16, Word32, Slice, PlaceRow, RootBit, LeafBit, FixedBit;
    HeaderReads(b, h);
    SliceIs(b, 56 + h.tocOff + h.tocLen + p.key, key);
    SliceIs(b, ValuesEnd(b, h) - p.back, val);
    if FixedBit(h) {
      FixedRowReads(b, PlaceRowAt(h, i), p);
      FixedFound(b, h, i, p, key, val);
    } else {
      FreeRowReads(b, PlaceRowAt(h, i), p);
      FreeFound(b, h, i, p, key, val);
    }
  }

  // ---- the node of a tree ----

  function KeyBytes(k: Key): (b: octets)
    requires k.oid < TWO_64 && k.xid < TWO_64
    ensures |b| == 16
  {
    Put64(k.oid) + Put64(k.xid)
  }

  predicate KeyFits(k: Key) { k.oid < TWO_64 && k.xid < TWO_64 }

  predicate MappingFits(m: Mapping, xid: nat) {
    m.paddr < TWO_64 && m.flags < 0x1_0000_0000 && m.size < 0x1_0000_0000 && m.xid == xid
  }

  function MappingBytes(m: Mapping): (b: octets)
    requires MappingFits(m, m.xid)
    ensures |b| == 16
  {
    Put32(m.flags) + Put32(m.size) + Put64(m.paddr)
  }

  /** Everything fits its field, and a node its block and its 16-bit offsets. */
  ghost predicate Fits(t: Tree, root: bool, block: nat) {
    && Count(t) < 4096 && block % 4 == 0
    && 56 + 20 * Count(t) + RowAt(0, ValueSize(t.Leaf?), Count(t)) + Trailer(root) <= block
    && match t
       case Leaf(items) => forall it <- items :: KeyFits(it.key) && MappingFits(it.m, it.key.xid)
       case Index(kids) => forall k <- kids :: KeyFits(k.key) && k.block < TWO_64
  }

  ghost function NodeOf(t: Tree, root: bool, block: nat): (d: Node)
    requires Fits(t, root, block)
    ensures NodeFits(d) && |d.keys| == Count(t) && d.leaf == t.Leaf? && d.root == root && d.block == block
  {
    match t
    case Leaf(items) =>
      Node(true, root, block, seq(|items|, i requires 0 <= i < |items| => KeyBytes(items[i].key)),
           seq(|items|, i requires 0 <= i < |items| => MappingBytes(items[i].m)))
    case Index(kids) =>
      Node(false, root, block, seq(|kids|, i requires 0 <= i < |kids| => KeyBytes(kids[i].key)),
           seq(|kids|, i requires 0 <= i < |kids| => Put64(kids[i].block)))
  }

  lemma KeyReads(k: Key)
    requires KeyFits(k)
    ensures KeyOf(KeyBytes(k)) == k
  {
    hide Word64, Put64;
    ReadBack64([], k.oid, Put64(k.xid));
    ReadBack64(Put64(k.oid), k.xid, []);
    assert KeyBytes(k) == [] + Put64(k.oid) + Put64(k.xid) == Put64(k.oid) + Put64(k.xid) + [];
  }

  lemma MappingReads(m: Mapping)
    requires MappingFits(m, m.xid)
    ensures var v := MappingBytes(m); m == Mapping(Word64(v, 8), Word32(v, 0), Word32(v, 4), m.xid)
  {
    hide Word64, Word32, Put64, Put32;
    var f, s, p := Put32(m.flags), Put32(m.size), Put64(m.paddr);
    assert f + s + p == [] + f + (s + p) == (f + s) + p + [];
    ReadBack32([], m.flags, s + p);
    ReadBack32(f, m.size, p);
    ReadBack64(f + s, m.paddr, []);
  }

  lemma BlockReads(n: nat)
    requires n < TWO_64
    ensures Word64(Put64(n), 0) == n
  {
    hide Word64, Put64;
    ReadBack64([], n, []);
    assert [] + Put64(n) + [] == Put64(n);
  }

  // ---- a tree's node, in any layout ----

  /** The bytes of an entry say what the tree says; longer ones may follow. */
  ghost predicate Says(t: Tree, i: nat, key: octets, val: octets)
    requires i < Count(t)
  {
    && KeyFits(KeyAt(t, i)) && KeyBytes(KeyAt(t, i)) <= key
    && match t
       case Leaf(items) => MappingFits(items[i].m, items[i].key.xid) && MappingBytes(items[i].m) <= val
       case Index(kids) => kids[i].block < TWO_64 && Put64(kids[i].block) <= val
  }

  lemma WordOfPrefix(a: octets, b: octets, at: nat)
    requires a <= b && at + 4 <= |a|
    ensures Word32(b, at) == Word32(a, at) && (at + 8 <= |a| ==> Word64(b, at) == Word64(a, at))
  {
    assert forall k :: 0 <= k < |a| ==> b[k] == a[k];
  }

  lemma SaysHolds(t: Tree, i: nat, key: octets, val: octets)
    requires i < Count(t) && Says(t, i, key, val)
    ensures EntryHolds(t, i, Some(Entry(key, val)))
  {
    var k := KeyBytes(KeyAt(t, i));
    KeyReads(KeyAt(t, i));
    hide Word64, Word32, Put64, KeyBytes, MappingBytes;
    WordOfPrefix(k, key, 0); WordOfPrefix(k, key, 8);
    if t.Leaf? {
      MappingReads(t.items[i].m);
      var v := MappingBytes(t.items[i].m);
      WordOfPrefix(v, val, 0); WordOfPrefix(v, val, 4); WordOfPrefix(v, val, 8);
    } else {
      BlockReads(t.kids[i].block);
      WordOfPrefix(Put64(t.kids[i].block), val, 0);
    }
  }

  /** A node arranged for a tree: its header, and for each entry a place where key
      and value bytes that say what the tree says lie. */
  ghost predicate Arranged(b: octets, h: Header, places: seq<Place>, keys: seq<octets>, vals: seq<octets>, t: Tree) {
    && HeaderFits(h) && HeaderLies(b, h) && h.count == Count(t) == |places| == |keys| == |vals|
    && |b| >= 44 && (LeafBit(h) <==> t.Leaf?)
    && forall i :: 0 <= i < Count(t) ==> PlaceLies(b, h, i, places[i], keys[i], vals[i]) && Says(t, i, keys[i], vals[i])
  }

  /** Main result on stored nodes: keys and values anywhere in their areas and in any
      order, rows of four or of eight bytes, a table of contents anywhere. */
  lemma ArrangedHolds(b: octets, h: Header, places: seq<Place>, keys: seq<octets>, vals: seq<octets>, t: Tree)
    requires Arranged(b, h, places, keys, vals, t)
    ensures NodeHolds(b, t)
  {
    hide HeaderLies, PlaceLies, Says, EntryAt, EntryHolds, Bit, Word16, Word32, LeafBit;
    HeaderReads(b, h);
    FlagBits(h);
    forall i | 0 <= i < Count(t) ensures EntryHolds(t, i, EntryAt(b, i)) {
      EntryReads(b, h, i, places[i], keys[i], vals[i]);
      SaysHolds(t, i, keys[i], vals[i]);
    }
  }

  /** Every node of the tree is arranged somehow at its block and verifies. */
  ghost predicate Stored(disk: Disk, n: nat, t: Tree)
    decreases t
  {
    && Readable(disk(n)) && Verifies(disk(n))
    && (exists h, places, keys, vals :: Arranged(disk(n), h, places, keys, vals, t))
    && (t.Index? ==> forall k :: k in t.kids ==> Stored(disk, k.block, k.tree))
  }

  /** A stored tree, of any height and layout, is one the lookup theorems are about. */
  lemma {:induction false} StoredIsOnDisk(disk: Disk, n: nat, t: Tree)
    requires Stored(disk, n, t)
    ensures OnDisk(disk, n, t)
    decreases t
  {
    hide Arranged, NodeHolds, Verifies, Readable;
    var h, places, keys, vals :| Arranged(disk(n), h, places, keys, vals, t);
    ArrangedHolds(disk(n), h, places, keys, vals, t);
    if t.Index? {
      forall k | k in t.kids ensures OnDisk(disk, k.block, k.tree) { StoredIsOnDisk(disk, k.block, k.tree); }
    }
  }

  // ---- the written layout is one of them ----

  lemma NodeSays(t: Tree, root: bool, block: nat, i: nat)
    requires Fits(t, root, block) && i < Count(t)
    ensures var d := NodeOf(t, root, block); Says(t, i, d.keys[i], d.vals[i])
  {
    hide Put64, KeyBytes, MappingBytes, Equal, RowAt;
    if t.Leaf? { assert t.items[i] in t.items; } else { assert t.kids[i] in t.kids; }
  }

  function WrittenHeader(d: Node): (h: Header)
    requires |d.keys| < 4096
    ensures HeaderFits(h)
  {
    Header(FlagsOf(d.leaf, d.root), |d.keys|, 0, 4 * |d.keys|)
  }

  function WrittenPlace(d: Node, i: nat): (p: Place)
    requires i < |d.keys| < 4096
    ensures PlaceFits(p)
  {
    Place(16 * i, 16, RowAt(0, ValueSize(d.leaf), |d.keys| - i), ValueSize(d.leaf))
  }

  lemma WrittenFlags(d: Node)
    requires |d.keys| < 4096
    ensures var h := WrittenHeader(d); FixedBit(h) && (LeafBit(h) <==> d.leaf) && (RootBit(h) <==> d.root)
  {
  }

  lemma Backwards(n: nat, size: nat, at: nat, i: nat)
    requires i < n
    ensures RowAt(at, size, i) + RowAt(0, size, n - i) == at + RowAt(0, size, n)
    ensures RowAt(56 + 4 * n, 16, i) == 56 + 4 * n + 16 * i && RowAt(56, 4, i) == 56 + 4 * i
  {
  }

  lemma RowIsPlace(d: Node, i: nat)
    requires i < |d.keys| < 4096
    ensures PlaceRow(WrittenPlace(d, i), true) == TocRow(|d.keys|, ValueSize(d.leaf), i)
    ensures WrittenPlace(d, i).key == 16 * i && WrittenPlace(d, i).back == RowAt(0, ValueSize(d.leaf), |d.keys| - i)
    ensures WrittenHeader(d).tocOff == 0 && WrittenHeader(d).tocLen == 4 * |d.keys|
  {
    hide Put16, RowAt, FlagsOf;
  }

  lemma EntryThere(b: octets, d: Node, i: nat)
    requires NodeFits(d) && LaidOut(b, d) && i < |d.keys|
    ensures |d.keys| == |d.vals| < 4096 && |b| == d.block && ValuesAt(d) >= 0
    ensures EntryLies(b, |d.keys|, ValueSize(d.leaf), ValuesAt(d), i, d.keys[i], d.vals[i])
    ensures |d.keys[i]| == 16 && |d.vals[i]| == ValueSize(d.leaf)
  {
    assert d.keys[i] in d.keys && d.vals[i] in d.vals;
    hide EntryLies, HeadLies, RowAt, FlagsOf, ValueSize, ValuesAt;
  }

  lemma EntryParts(b: octets, n: nat, size: nat, at: nat, i: nat, key: octets, val: octets)
    requires i < n < 4096 && EntryLies(b, n, size, at, i, key, val)
    ensures Has(b, RowAt(56, 4, i), TocRow(n, size, i)) && Has(b, RowAt(56 + 4 * n, 16, i), key)
    ensures Has(b, RowAt(at, size, i), val)
  {
    hide Has, TocRow, RowAt;
  }

  lemma ValuesEndThere(d: Node)
    ensures ValuesAt(d) == d.block - Trailer(d.root) - RowAt(0, ValueSize(d.leaf), |d.keys|)
  {
    hide RowAt;
  }

  lemma Lies(b: octets, h: Header, i: nat, p: Place, key: octets, val: octets, leaf: bool, root: bool)
    requires FixedBit(h) && (LeafBit(h) <==> leaf) && (RootBit(h) <==> root) && PlaceFits(p) && h.tocOff == 0
    requires Has(b, 56 + 4 * i, PlaceRow(p, true)) && Has(b, 56 + h.tocLen + p.key, key)
    requires p.back <= |b| - Trailer(root) && Has(b, |b| - Trailer(root) - p.back, val)
    requires |key| == 16 && |val| == ValueSize(leaf)
    ensures PlaceLies(b, h, i, p, key, val)
  {
    hide FixedBit, LeafBit, RootBit, Has, PlaceRow, PlaceFits;
  }

  lemma WrittenPlaceLies(b: octets, d: Node, i: nat)
    requires NodeFits(d) && LaidOut(b, d) && i < |d.keys|
    ensures |d.keys| == |d.vals| < 4096 && PlaceLies(b, WrittenHeader(d), i, WrittenPlace(d, i), d.keys[i], d.vals[i])
  {
    hide *;
    EntryThere(b, d, i);
    EntryParts(b, |d.keys|, ValueSize(d.leaf), ValuesAt(d), i, d.keys[i], d.vals[i]);
    ValuesEndThere(d);
    WrittenFlags(d);
    RowIsPlace(d, i);
    Backwards(|d.keys|, ValueSize(d.leaf), ValuesAt(d), i);
    Lies(b, WrittenHeader(d), i, WrittenPlace(d, i), d.keys[i], d.vals[i], d.leaf, d.root);
  }

  lemma AllPlaced(b: octets, d: Node, t: Tree, places: seq<Place>)
    requires |places| == |d.keys| == |d.vals| == Count(t) < 4096 && d.leaf == t.Leaf?
    requires HeaderLies(b, WrittenHeader(d)) && |b| >= 44
    requires forall i :: 0 <= i < |d.keys| ==> PlaceLies(b, WrittenHeader(d), i, places[i], d.keys[i], d.vals[i])
    requires forall i :: 0 <= i < Count(t) ==> Says(t, i, d.keys[i], d.vals[i])
    ensures Arranged(b, WrittenHeader(d), places, d.keys, d.vals, t)
  {
    WrittenFlags(d);
    hide PlaceLies, Says, HeaderLies, LeafBit, RootBit, FixedBit, FlagsOf;
  }

  /** What is written for a tree's node is arranged for it, verifies, and fills its
      block. */
  lemma NodeReads(t: Tree, root: bool, block: nat)
    requires Fits(t, root, block)
    ensures var b := WriteNode(NodeOf(t, root, block)); |b| == block && Readable(b) && Verifies(b)
    ensures exists h, places, keys, vals :: Arranged(WriteNode(NodeOf(t, root, block)), h, places, keys, vals, t)
  {
    hide *;
    var d := NodeOf(t, root, block);
    var b := WriteNode(d);
    WrittenIsLaid(d);
    HeadIsHeader(b, d);
    var places := WrittenPlaces(b, d);
    forall i | 0 <= i < Count(t) ensures Says(t, i, d.keys[i], d.vals[i]) { NodeSays(t, root, block, i); }
    AllPlaced(b, d, t, places);
    assert Arranged(b, WrittenHeader(d), places, d.keys, d.vals, t);
  }

  lemma WrittenPlaces(b: octets, d: Node) returns (places: seq<Place>)
    requires NodeFits(d) && LaidOut(b, d)
    ensures |places| == |d.keys| == |d.vals| < 4096
    ensures forall i :: 0 <= i < |d.keys| ==> PlaceLies(b, WrittenHeader(d), i, places[i], d.keys[i], d.vals[i])
  {
    assert |d.keys| == |d.vals| < 4096;
    hide *;
    places := seq(|d.keys|, i requires 0 <= i < |d.keys| => WrittenPlace(d, i));
    forall i | 0 <= i < |d.keys|
      ensures PlaceLies(b, WrittenHeader(d), i, places[i], d.keys[i], d.vals[i])
    {
      WrittenPlaceLies(b, d, i);
    }
  }

  lemma HeadIsHeader(b: octets, d: Node)
    requires NodeFits(d) && LaidOut(b, d)
    ensures |d.keys| == |d.vals| < 4096 && HeaderLies(b, WrittenHeader(d))
    ensures |b| >= 44 && |b| == d.block && WrittenHeader(d).count == |d.keys|
  {
    hide EntryLies, Put16, Put32, RowAt, Equal, FlagsOf;
  }

  /** Every node of the tree fits and is written at its block, the root as one. */
  ghost predicate Written(disk: Disk, n: nat, t: Tree, root: bool, block: nat)
    decreases t
  {
    && Fits(t, root, block) && disk(n) == WriteNode(NodeOf(t, root, block))
    && (t.Index? ==> forall k :: k in t.kids ==> Written(disk, k.block, k.tree, false, block))
  }

  /** A written tree, of any height, is stored. */
  lemma {:induction false} WrittenIsStored(disk: Disk, n: nat, t: Tree, root: bool, block: nat)
    requires Written(disk, n, t, root, block)
    ensures Stored(disk, n, t)
    decreases t
  {
    hide Fits, WriteNode, NodeOf, Arranged, Verifies, Readable;
    NodeReads(t, root, block);
    if t.Index? {
      forall k | k in t.kids ensures Stored(disk, k.block, k.tree) {
        WrittenIsStored(disk, k.block, k.tree, false, block);
      }
    }
  }
}
