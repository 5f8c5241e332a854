/** tools/zip_carve.py: recovering zip local file headers from raw bytes, read
    in chunks with a carried overlap. */
module ZipCarve {
  import opened Wrappers
  import opened Octets

  const LFH: octets := [0x50, 0x4B, 3, 4]  // "PK" 3 4, section 4.3.7 of the ZIP APPNOTE
  const LFH_SIZE := 30
  const OVERLAP := 0x1_0000
  const METHODS := {0, 8, 12, 14, 93, 95, 96, 97, 98}

  /** A continuation byte of UTF-8 within the given bounds. */
  predicate Follows(b: octets, k: nat, lo: int, hi: int) { k < |b| && lo <= b[k] <= hi }

  /** Length of the UTF-8 sequence at the front of b, or 0 when it is malformed
      (RFC 3629: no overlong forms, no surrogates, nothing above U+10FFFF). */
  function Utf8Unit(b: octets): (n: nat)
    requires b != []
    ensures n <= |b|
  {
    if b[0] < 0x80 then 1
    else if 0xC2 <= b[0] <= 0xDF && Follows(b, 1, 0x80, 0xBF) then 2
    else if 0xE0 <= b[0] <= 0xEF
      && Follows(b, 1, if b[0] == 0xE0 then 0xA0 else 0x80, if b[0] == 0xED then 0x9F else 0xBF)
      && Follows(b, 2, 0x80, 0xBF) then 3
    else if 0xF0 <= b[0] <= 0xF4
      && Follows(b, 1, if b[0] == 0xF0 then 0x90 else 0x80, if b[0] == 0xF4 then 0x8F else 0xBF)
      && Follows(b, 2, 0x80, 0xBF) && Follows(b, 3, 0x80, 0xBF) then 4
    else 0
  }

  predicate ValidUtf8(b: octets)
    decreases |b|
  {
    b == [] || (Utf8Unit(b) > 0 && ValidUtf8(b[Utf8Unit(b)..]))
  }

  /** A name decodes and holds no control character; in valid UTF-8 those are
      exactly the bytes below 32. */
  predicate AcceptableName(raw: octets) { ValidUtf8(raw) && forall k :: 0 <= k < |raw| ==> raw[k] >= 32 }

  /** A parsed header; names are kept as their UTF-8 bytes. */
  datatype Header = Header(name: octets, methodId: nat, flags: nat, crc: nat, csize: nat, usize: nat, dataAt: nat,
    streamed: bool)

  /** parse_lfh: the header at buf[i..], or None. */
  function Parse(buf: octets, i: nat): Option<Header> {
    if i + LFH_SIZE > |buf| then None
    else
      var fixed := buf[i..i + LFH_SIZE];
      var nlen, elen, methodId := Word16(fixed, 26), Word16(fixed, 28), Word16(fixed, 8);
      if nlen == 0 || nlen > 4096 || elen > 4096 then None
      else if methodId !in METHODS then None
      else if i + LFH_SIZE + nlen > |buf| then None
      else
        var raw := buf[i + LFH_SIZE..i + LFH_SIZE + nlen];
        if !AcceptableName(raw) then None
        else
          var flags := Word16(fixed, 6);
          Some(Header(raw, methodId, flags, Word32(fixed, 14), Word32(fixed, 18), Word32(fixed, 22),
                      LFH_SIZE + nlen + elen, flags / 8 % 2 == 1))
  }

  /** A header with its absolute offset. */
  datatype Entry = Entry(offset: nat, h: Header)
  datatype Key = Key(name: octets, crc: nat, csize: nat)

  function KeyOf(h: Header): Key { Key(h.name, h.crc, h.csize) }

  predicate SignatureAt(buf: octets, i: nat) { i + 4 <= |buf| && buf[i..i + 4] == LFH }

  /** The header whose signature is at offset o, reading no byte from `hi` on. */
  function HitAt(file: octets, hi: nat, o: nat): Option<Header>
    requires hi <= |file|
  {
    if SignatureAt(file[..hi], o) then Parse(file[..hi], o) else None
  }

  // ---- what a carving is ----

  /** One entry for each (name, crc, compressed size) among the headers found in
      file[start..hi], no later than any header with that key. */
  ghost predicate Carved(out: seq<Entry>, file: octets, start: nat, hi: nat)
    requires hi <= |file|
  {
    && (forall e :: e in out ==> start <= e.offset && HitAt(file, hi, e.offset) == Some(e.h))
    && (forall o ::
       start <= o < hi && HitAt(file, hi, o).Some? ==> Represented(out, KeyOf(HitAt(file, hi, o).value), o))
    && (forall i, j :: 0 <= i < j < |out| ==> KeyOf(out[i].h) != KeyOf(out[j].h))
  }

  ghost predicate Represented(out: seq<Entry>, key: Key, o: nat) {
    exists e :: e in out && KeyOf(e.h) == key && e.offset <= o
  }

  /** The entries of a carving are determined by the bytes alone. */
  lemma CarvedIsUnique(a: seq<Entry>, b: seq<Entry>, file: octets, start: nat, hi: nat)
    requires hi <= |file| && Carved(a, file, start, hi) && Carved(b, file, start, hi)
    ensures (set e | e in a) == (set e | e in b)
  {
    CarvedWithin(a, b, file, start, hi);
    CarvedWithin(b, a, file, start, hi);
  }

  lemma HitInside(file: octets, hi: nat, o: nat)
    requires hi <= |file| && HitAt(file, hi, o).Some?
    ensures o < hi && o + LFH_SIZE + |HitAt(file, hi, o).value.name| <= hi && |HitAt(file, hi, o).value.name| <= 4096
  {
  }

  lemma SameKeySame(out: seq<Entry>, e: Entry, f: Entry)
    requires forall i, j :: 0 <= i < j < |out| ==> KeyOf(out[i].h) != KeyOf(out[j].h)
    requires e in out && f in out && KeyOf(e.h) == KeyOf(f.h)
    ensures e == f
  {
  }

  lemma CarvedWithin(a: seq<Entry>, b: seq<Entry>, file: octets, start: nat, hi: nat)
    requires hi <= |file| && Carved(a, file, start, hi) && Carved(b, file, start, hi)
    ensures forall e :: e in a ==> e in b
  {
    hide HitAt;
    forall e | e in a ensures e in b {
      HitInside(file, hi, e.offset);
      assert Represented(b, KeyOf(e.h), e.offset);
      var f :| f in b && KeyOf(f.h) == KeyOf(e.h) && f.offset <= e.offset;
      HitInside(file, hi, f.offset);
      assert Represented(a, KeyOf(f.h), f.offset);
      var g :| g in a && KeyOf(g.h) == KeyOf(f.h) && g.offset <= f.offset;
      SameKeySame(a, e, g);
    }
  }

  /** Two headers are taken for one when name, checksum and compressed size agree. */
  lemma SameKey(g: Header, h: Header)
    ensures KeyOf(g) == KeyOf(h) <==> g.name == h.name && g.crc == h.crc && g.csize == h.csize
  {
  }

  /** A carved entry is the first header with its name, checksum and compressed size. */
  lemma CarvedIsFirst(out: seq<Entry>, file: octets, start: nat, hi: nat, e: Entry, o: nat)
    requires hi <= |file| && Carved(out, file, start, hi) && e in out
    requires start <= o < hi && HitAt(file, hi, o).Some?
    requires var h := HitAt(file, hi, o).value; h.name == e.h.name && h.crc == e.h.crc && h.csize == e.h.csize
    ensures e.offset <= o
  {
    hide HitAt;
    SameKey(HitAt(file, hi, o).value, e.h);
    assert Represented(out, KeyOf(e.h), o);
    var f :| f in out && KeyOf(f.h) == KeyOf(e.h) && f.offset <= o;
    SameKeySame(out, e, f);
  }

  /** One entry for each name, checksum and compressed size: every header found has
      one, and no two are alike. */
  lemma CarvedIsOneEach(out: seq<Entry>, file: octets, start: nat, hi: nat, o: nat)
    requires hi <= |file| && Carved(out, file, start, hi) && start <= o < hi && HitAt(file, hi, o).Some?
    ensures
      var h := HitAt(file, hi, o).value;
      exists k :: 0 <= k < |out| && out[k].h.name == h.name && out[k].h.crc == h.crc && out[k].h.csize == h.csize
        && forall j :: 0 <= j < |out| && j != k ==>
             !(out[j].h.name == h.name && out[j].h.crc == h.crc && out[j].h.csize == h.csize)
  {
    hide HitAt;
    var h := HitAt(file, hi, o).value;
    assert Represented(out, KeyOf(h), o);
    var e :| e in out && KeyOf(e.h) == KeyOf(h) && e.offset <= o;
    var k :| 0 <= k < |out| && out[k] == e;
    SameKey(e.h, h);
    forall j | 0 <= j < |out| && j != k
      ensures !(out[j].h.name == h.name && out[j].h.crc == h.crc && out[j].h.csize == h.csize)
    {
      SameKey(out[j].h, e.h);
      assert KeyOf(out[if j < k then j else k].h) != KeyOf(out[if j < k then k else j].h);
    }
  }

  // ---- what a header is ----

  /** A local file header as section 4.3.7 of the ZIP APPNOTE lays it out, up to its
      name. */
  datatype Fields = Fields(version: nat, flags: nat, methodId: nat, time: nat, date: nat, crc: nat, csize: nat,
    usize: nat,
    name: octets, elen: nat)

  predicate FieldsFit(f: Fields) {
    && f.version < 0x1_0000 && f.flags < 0x1_0000 && f.methodId < 0x1_0000 && f.time < 0x1_0000 && f.date < 0x1_0000
    && f.crc < 0x1_0000_0000 && f.csize < 0x1_0000_0000 && f.usize < 0x1_0000_0000
    && |f.name| < 0x1_0000 && f.elen < 0x1_0000
  }

  function WriteHeader(f: Fields): octets
    requires FieldsFit(f)
  {
    [0x50, 0x4B, 3, 4] + (Put16(f.version) + (Put16(f.flags) + (Put16(f.methodId) + (Put16(f.time) + (Put16(f.date)
      + (Put32(f.crc) + (Put32(f.csize) + (Put32(f.usize) + (Put16(|f.name|) + (Put16(f.elen) + f.name))))))))))
  }

  lemma Short(b: octets, pos: nat, n: nat)
    requires n < 0x1_0000 && Has(b, pos, Put16(n))
    ensures pos + 2 <= |b| && Word16(b, pos) == n
  {
    assert b[pos] == b[pos..pos + 2][0] && b[pos + 1] == b[pos..pos + 2][1];
  }

  lemma Long(b: octets, pos: nat, n: nat)
    requires n < 0x1_0000_0000 && Has(b, pos, Put32(n))
    ensures pos + 4 <= |b| && Word32(b, pos) == n
  {
    hide Put32, Word32;
    ReadBack32(b[..pos], n, b[pos + 4..]);
    assert b == b[..pos] + Put32(n) + b[pos + 4..];
  }

  /** Where the fields of a written header lie. */
  lemma HeaderLies(b: octets, i: nat, f: Fields)
    requires FieldsFit(f) && Has(b, i, WriteHeader(f))
    ensures Has(b, i, [0x50, 0x4B, 3, 4]) && Has(b, i + 30, f.name) && i + 30 + |f.name| <= |b|
    ensures Word16(b, i + 6) == f.flags && Word16(b, i + 8) == f.methodId && Word32(b, i + 14) == f.crc
    ensures Word32(b, i + 18) == f.csize && Word32(b, i + 22) == f.usize
    ensures Word16(b, i + 26) == |f.name| && Word16(b, i + 28) == f.elen
  {
    hide Put16, Put32, Word16, Word32, Has;
    var g, v, l, m, t, d := [0x50, 0x4B, 3, 4], Put16(f.version), Put16(f.flags), Put16(f.methodId), Put16(f.time),
      Put16(f.date);
    var c, x, u, n, e := Put32(f.crc), Put32(f.csize), Put32(f.usize), Put16(|f.name|), Put16(f.elen);
    HasParts(b, i, g, v + (l + (m + (t + (d + (c + (x + (u + (n + (e + f.name))))))))));
    HasParts(b, i + 4, v, l + (m + (t + (d + (c + (x + (u + (n + (e + f.name)))))))));
    HasParts(b, i + 6, l, m + (t + (d + (c + (x + (u + (n + (e + f.name))))))));
    HasParts(b, i + 8, m, t + (d + (c + (x + (u + (n + (e + f.name)))))));
    HasParts(b, i + 10, t, d + (c + (x + (u + (n + (e + f.name))))));
    HasParts(b, i + 12, d, c + (x + (u + (n + (e + f.name)))));
    HasParts(b, i + 14, c, x + (u + (n + (e + f.name))));
    HasParts(b, i + 18, x, u + (n + (e + f.name)));
    HasParts(b, i + 22, u, n + (e + f.name));
    HasParts(b, i + 26, n, e + f.name);
    HasParts(b, i + 28, e, f.name);
    Short(b, i + 6, f.flags); Short(b, i + 8, f.methodId); Short(b, i + 26, |f.name|); Short(b, i + 28, f.elen);
    Long(b, i + 14, f.crc); Long(b, i + 18, f.csize); Long(b, i + 22, f.usize);
    NameEnds(b, i + 30, f.name);
  }

  lemma NameEnds(b: octets, pos: nat, v: octets)
    requires Has(b, pos, v)
    ensures pos + |v| <= |b| && b[pos..pos + |v|] == v
  {
  }

  lemma InWindow(b: octets, i: nat, k: nat)
    requires i + 30 <= |b| && k + 2 <= 30
    ensures Word16(b[i..i + 30], k) == Word16(b, i + k)
    ensures k + 4 <= 30 ==> Word32(b[i..i + 30], k) == Word32(b, i + k)
  {
  }

  /** A header written anywhere is found and read back, if its name is acceptable and
      its lengths and method are ones the tool takes; otherwise it is passed over. */
  lemma HeaderReads(b: octets, i: nat, f: Fields)
    requires FieldsFit(f) && Has(b, i, WriteHeader(f))
    ensures SignatureAt(b, i)
    ensures Parse(b, i) ==
      if 1 <= |f.name| <= 4096 && f.elen <= 4096 && f.methodId in {0, 8, 12, 14, 93, 95, 96, 97, 98}
        && AcceptableName(f.name)
      then Some(Header(f.name, f.methodId, f.flags, f.crc, f.csize, f.usize, 30 + |f.name| + f.elen,
        f.flags / 8 % 2 == 1))
      else None
  {
    hide Word16, Word32, AcceptableName, WriteHeader, FieldsFit;
    HeaderLies(b, i, f);
    InWindow(b, i, 6); InWindow(b, i, 8); InWindow(b, i, 14); InWindow(b, i, 18); InWindow(b, i, 22);
    InWindow(b, i, 26); InWindow(b, i, 28);
    NameEnds(b, i + 30, f.name);
  }

  // ---- which names are acceptable ----

  /** A Unicode scalar value that is no control character below 32. */
  predicate Plain(c: nat) { 32 <= c < 0xD800 || 0xE000 <= c < 0x11_0000 }

  /** RFC 3629, section 3. */
  function Utf8(c: nat): (b: octets)
    requires Plain(c)
    ensures 1 <= |b| <= 4
  {
    if c < 0x80 then [c]
    else if c < 0x800 then [0xC0 + c / 0x40, 0x80 + c % 0x40]
    else if c < 0x1_0000 then [0xE0 + c / 0x1000, 0x80 + c / 0x40 % 0x40, 0x80 + c % 0x40]
    else [0xF0 + c / 0x4_0000, 0x80 + c / 0x1000 % 0x40, 0x80 + c / 0x40 % 0x40, 0x80 + c % 0x40]
  }

  function Text(cs: seq<nat>): octets
    requires forall c <- cs :: Plain(c)
  {
    if cs == [] then []
    else
      assert cs[0] in cs && forall c <- cs[1..] :: c in cs;
      Utf8(cs[0]) + Text(cs[1..])
  }

  lemma UnitReads(c: nat, rest: octets)
    requires Plain(c)
    ensures Utf8Unit(Utf8(c) + rest) == |Utf8(c)| && forall x <- Utf8(c) :: x >= 32
  {
    OwnUnit(c);
    hide Utf8, Utf8Unit;
    UnitOfFront(Utf8(c) + rest, Utf8(c));
  }

  lemma OwnUnit(c: nat)
    requires Plain(c)
    ensures Utf8Unit(Utf8(c)) == |Utf8(c)| && forall x <- Utf8(c) :: x >= 32
  {
    if c >= 0x1_0000 { FourOctets(c); } else if c >= 0x800 { ThreeOctets(c); }
  }

  lemma ThreeOctets(c: nat)
    requires Plain(c) && 0x800 <= c < 0x1_0000
    ensures Utf8Unit(Utf8(c)) == |Utf8(c)| && forall x <- Utf8(c) :: x >= 32
  {
  }

  lemma FourOctets(c: nat)
    requires Plain(c) && c >= 0x1_0000
    ensures Utf8Unit(Utf8(c)) == |Utf8(c)| && forall x <- Utf8(c) :: x >= 32
  {
  }

  /** The unit at the front is decided by its own bytes. */
  lemma UnitOfFront(b: octets, u: octets)
    requires u <= b && u != [] && Utf8Unit(u) == |u|
    ensures Utf8Unit(b) == |u|
  {
  }

  /** A number in base 64. */
  lemma Sextets(c: nat, p: nat, q: nat, r: nat, s: nat)
    requires c == p * 0x4_0000 + q * 0x1000 + r * 0x40 + s && q < 0x40 && r < 0x40 && s < 0x40
    ensures c / 0x4_0000 == p && c / 0x1000 == p * 0x40 + q && c / 0x40 == (p * 0x40 + q) * 0x40 + r && c % 0x40 == s
    ensures c / 0x1000 % 0x40 == q && c / 0x40 % 0x40 == r
  {
  }

  lemma UnitIs(b: octets) returns (c: nat)
    requires b != [] && Utf8Unit(b) > 0 && b[0] >= 32
    ensures Plain(c) && Utf8(c) == b[..Utf8Unit(b)]
  {
    var n, x: int := Utf8Unit(b), b[0];
    if n == 1 {
      c := x;
    } else {
      var y: int := b[1];
      if n == 2 {
        c := (x - 0xC0) * 0x40 + (y - 0x80);
        Sextets(c, 0, 0, x - 0xC0, y - 0x80);
      } else {
        var z: int := b[2];
        if n == 3 {
          c := (x - 0xE0) * 0x1000 + (y - 0x80) * 0x40 + (z - 0x80);
          Sextets(c, 0, x - 0xE0, y - 0x80, z - 0x80);
        } else {
          var t: int := b[3];
          c := (x - 0xF0) * 0x4_0000 + (y - 0x80) * 0x1000 + (z - 0x80) * 0x40 + (t - 0x80);
          Sextets(c, x - 0xF0, y - 0x80, z - 0x80, t - 0x80);
        }
      }
    }
  }

  lemma {:induction false} TextIsAcceptable(cs: seq<nat>)
    requires forall c <- cs :: Plain(c)
    ensures AcceptableName(Text(cs))
    decreases |cs|
  {
    if cs != [] {
      assert cs[0] in cs && forall c <- cs[1..] :: c in cs;
      var rest := Text(cs[1..]);
      TextIsAcceptable(cs[1..]);
      UnitReads(cs[0], rest);
      hide Utf8, Utf8Unit;
      assert (Utf8(cs[0]) + rest)[|Utf8(cs[0])|..] == rest;
      forall k | 0 <= k < |Text(cs)| ensures Text(cs)[k] >= 32 {
        if k < |Utf8(cs[0])| { assert Text(cs)[k] in Utf8(cs[0]); }
      }
    }
  }

  lemma {:induction false} AcceptableIsText(raw: octets) returns (cs: seq<nat>)
    requires AcceptableName(raw)
    ensures (forall c <- cs :: Plain(c)) && raw == Text(cs)
    decreases |raw|
  {
    cs := [];
    if raw != [] {
      var n := Utf8Unit(raw);
      var c := UnitIs(raw);
      hide Utf8, Utf8Unit;
      var rest := AcceptableIsText(raw[n..]);
      cs := [c] + rest;
      assert forall x <- cs :: x == c || x in rest;
      assert cs[1..] == rest && raw == raw[..n] + raw[n..];
    }
  }

  /** The names taken are exactly the UTF-8 texts without control characters. */
  lemma NameIsText(raw: octets)
    ensures AcceptableName(raw) <==> exists cs: seq<nat> :: (forall c <- cs :: Plain(c)) && raw == Text(cs)
  {
    hide AcceptableName;
    if AcceptableName(raw) { var cs := AcceptableIsText(raw); }
    if cs: seq<nat> :| (forall c <- cs :: Plain(c)) && raw == Text(cs) { TextIsAcceptable(cs); }
  }

  // ---- parsing does not care where the buffer was cut ----

  lemma SliceOfSlice(s: octets, lo: nat, hi: nat, a: nat, b: nat)
    requires lo <= hi <= |s| && a <= b <= hi - lo
    ensures s[lo..hi][a..b] == s[lo + a..lo + b]
  {
    var x, y := s[lo..hi][a..b], s[lo + a..lo + b];
    assert forall k :: 0 <= k < b - a ==> x[k] == y[k];
  }

  /** Cutting off the front of the buffer changes nothing but the index. */
  lemma ParseFromCut(file: octets, lo: nat, hi: nat, o: nat)
    requires lo <= o && o <= hi <= |file|
    ensures Parse(file[lo..hi], o - lo) == Parse(file[..hi], o)
  {
    hide AcceptableName, Word16, Word32;
    if o + LFH_SIZE <= hi {
      SliceOfSlice(file, lo, hi, o - lo, o - lo + LFH_SIZE);
      SliceOfSlice(file, 0, hi, o, o + LFH_SIZE);
      var nlen := Word16(file[o..o + LFH_SIZE], 26);
      if o + LFH_SIZE + nlen <= hi {
        var a, b := o + LFH_SIZE, o + LFH_SIZE + nlen;
        SliceOfSlice(file, lo, hi, a - lo, b - lo);
        SliceOfSlice(file, 0, hi, a, b);
      }
    }
  }

  /** Reading further finds the same header, and a header that ends by h1 was
      already found there. */
  lemma HitGrows(file: octets, h1: nat, h2: nat, o: nat)
    requires h1 <= h2 <= |file|
    ensures HitAt(file, h1, o).Some? ==> HitAt(file, h2, o) == HitAt(file, h1, o)
    ensures HitAt(file, h2, o).Some? && o + LFH_SIZE + |HitAt(file, h2, o).value.name| <= h1 ==>
      HitAt(file, h1, o) == HitAt(file, h2, o)
  {
    hide AcceptableName, Word16, Word32;
    if o + LFH_SIZE <= h1 {
      assert file[..h1][o..o + LFH_SIZE] == file[o..o + LFH_SIZE] == file[..h2][o..o + LFH_SIZE];
      var nlen := Word16(file[o..o + LFH_SIZE], 26);
      if o + LFH_SIZE + nlen <= h1 {
        var a, b := o + LFH_SIZE, o + LFH_SIZE + nlen;
        assert file[..h1][a..b] == file[a..b] == file[..h2][a..b];
      }
    }
  }

  // ---- one chunk ----

  /** Headers before offset `upto` that end by `hi` are represented. */
  ghost predicate FoundBefore(out: seq<Entry>, file: octets, start: nat, hi: nat, upto: nat)
    requires hi <= |file|
  {
    forall o :: start <= o < upto && HitAt(file, hi, o).Some? ==> Represented(out, KeyOf(HitAt(file, hi, o).value), o)
  }

  /** The state while a chunk is scanned: what was carved up to `pos` is kept,
      everything added lies before `upto`. */
  ghost predicate Scanning(out: seq<Entry>, before: seq<Entry>, file: octets, start: nat, hi: nat, upto: nat)
    requires hi <= |file|
  {
    && before <= out
    && (forall e :: e in out ==> start <= e.offset && HitAt(file, hi, e.offset) == Some(e.h))
    && FoundBefore(out, file, start, hi, upto)
    && (forall i, j :: 0 <= i < j < |out| ==> KeyOf(out[i].h) != KeyOf(out[j].h))
    && (forall i :: |before| <= i < |out| ==> out[i].offset < upto)
  }

  /** The carried overlap is long enough: a header that starts before it was
      complete, and so found, in the chunks already read. */
  lemma ScanStarts(before: seq<Entry>, file: octets, start: nat, pos: nat, hi: nat, base: nat)
    requires pos <= hi <= |file| && Carved(before, file, start, pos)
    requires base == start || base + OVERLAP <= pos
    ensures Scanning(before, before, file, start, hi, base)
  {
    hide HitAt;
    forall e | e in before ensures HitAt(file, hi, e.offset) == Some(e.h) { HitGrows(file, pos, hi, e.offset); }
    forall o | start <= o < base && HitAt(file, hi, o).Some?
      ensures Represented(before, KeyOf(HitAt(file, hi, o).value), o)
    {
      HitInside(file, hi, o);
      HitGrows(file, pos, hi, o);
      HitInside(file, pos, o);
    }
  }

  /** A header whose key was seen is represented by an earlier entry. */
  lemma SeenEarlier(out: seq<Entry>, before: seq<Entry>, file: octets, start: nat, pos: nat, hi: nat, o: nat)
    requires pos <= hi <= |file| && start <= o && Carved(before, file, start, pos)
    requires Scanning(out, before, file, start, hi, o) && HitAt(file, hi, o).Some?
    requires exists e :: e in out && KeyOf(e.h) == KeyOf(HitAt(file, hi, o).value)
    ensures Represented(out, KeyOf(HitAt(file, hi, o).value), o)
  {
    hide HitAt;
    var h := HitAt(file, hi, o).value;
    var e :| e in out && KeyOf(e.h) == KeyOf(h);
    if e.offset > o {
      var k :| 0 <= k < |out| && out[k] == e;
      assert k < |before| && before[k] == e && e in before;
      HitInside(file, pos, e.offset);
      HitGrows(file, pos, hi, o);
      HitInside(file, pos, o);
      CarvedIsFirst(before, file, start, pos, e, o);
    }
  }

  // ---- the scanner ----

  /** bytes.find(LFH, i): the first signature at or after i, or |buf|. */
  method Find(buf: octets, i: nat) returns (k: nat)
    requires i <= |buf|
    ensures i <= k <= |buf| && (k < |buf| ==> SignatureAt(buf, k))
    ensures forall j :: i <= j < k ==> !SignatureAt(buf, j)
  {
    k := i;
    while k < |buf| && !SignatureAt(buf, k)
      invariant i <= k <= |buf|
      invariant forall j :: i <= j < k ==> !SignatureAt(buf, j)
    {
      k := k + 1;
    }
  }

  lemma SignatureFromCut(file: octets, base: nat, hi: nat, j: nat)
    requires base <= hi <= |file|
    ensures SignatureAt(file[base..hi], j) <==> SignatureAt(file[..hi], base + j)
  {
    if base + j + 4 <= hi {
      SliceOfSlice(file, base, hi, j, j + 4);
      SliceOfSlice(file, 0, hi, base + j, base + j + 4);
    }
  }

  lemma NoSignatureNoHit(file: octets, base: nat, hi: nat, i: nat, k: nat)
    requires base <= hi <= |file| && i <= k
    requires forall j :: i <= j < k ==> !SignatureAt(file[base..hi], j)
    ensures forall o :: base + i <= o < base + k ==> HitAt(file, hi, o) == None
  {
    forall o | base + i <= o < base + k ensures HitAt(file, hi, o) == None {
      SignatureFromCut(file, base, hi, o - base);
      assert !SignatureAt(file[base..hi], o - base);
    }
  }

  predicate Seen(seen: set<Key>, out: seq<Entry>) { seen == set e | e in out :: KeyOf(e.h) }

  /** One turn of the search: the header at a signature is added unless its
      key was seen. */
  method ScanOne(file: octets, start: nat, ghost pos: nat, base: nat, hi: nat, buf: octets, i: nat,
                 ghost before: seq<Entry>, out0: seq<Entry>, seen0: set<Key>)
      returns (out: seq<Entry>, seen: set<Key>)
    requires start <= base <= hi <= |file| && pos <= hi && buf == file[base..hi] && SignatureAt(buf, i)
    requires Carved(before, file, start, pos)
    requires Scanning(out0, before, file, start, hi, base + i) && Seen(seen0, out0)
    ensures Scanning(out, before, file, start, hi, base + i + 1) && Seen(seen, out)
  {
    hide Parse, Scanning, Carved, SignatureAt;
    HitIsParse(file, base, hi, i);
    hide HitAt;
    out, seen := out0, seen0;
    var e := Parse(buf, i);
    if e.Some? && KeyOf(e.value) !in seen {
      out := out + [Entry(base + i, e.value)];
      seen := seen + {KeyOf(e.value)};
      AddEntry(out0, before, file, start, hi, base + i, e.value);
      SeenMore(seen0, out0, Entry(base + i, e.value));
    } else {
      if e.Some? { SeenEarlier(out, before, file, start, pos, hi, base + i); }
      SkipOne(out, before, file, start, hi, base + i);
    }
  }

  lemma SeenMore(seen: set<Key>, out: seq<Entry>, e: Entry)
    requires Seen(seen, out)
    ensures Seen(seen + {KeyOf(e.h)}, out + [e])
  {
  }

  /** One chunk: every signature in the buffer, in order. */
  method ScanBuffer(file: octets, start: nat, ghost pos: nat, base: nat, hi: nat, buf: octets, before: seq<Entry>,
    seen0: set<Key>)
      returns (out: seq<Entry>, seen: set<Key>)
    requires start <= base <= hi <= |file| && pos <= hi && buf == file[base..hi]
    requires Carved(before, file, start, pos) && Seen(seen0, before)
    requires base == start || base + OVERLAP <= pos
    ensures Carved(out, file, start, hi) && Seen(seen, out)
  {
    hide HitAt, Scanning, Seen, SignatureAt, Carved;
    out, seen := before, seen0;
    ScanStarts(before, file, start, pos, hi, base);
    var i := Find(buf, 0);
    NoSignatureNoHit(file, base, hi, 0, i);
    SkipTo(out, before, file, start, hi, base, base + i);
    while i < |buf|
      invariant i <= |buf| && (i < |buf| ==> SignatureAt(buf, i))
      invariant Scanning(out, before, file, start, hi, base + i) && Seen(seen, out)
    {
      out, seen := ScanOne(file, start, pos, base, hi, buf, i, before, out, seen);
      var next := Find(buf, i + 1);
      NoSignatureNoHit(file, base, hi, i + 1, next);
      SkipTo(out, before, file, start, hi, base + i + 1, base + next);
      i := next;
    }
    ScanEnds(out, before, file, start, hi);
  }

  lemma ScanEnds(out: seq<Entry>, before: seq<Entry>, file: octets, start: nat, hi: nat)
    requires hi <= |file| && Scanning(out, before, file, start, hi, hi)
    ensures Carved(out, file, start, hi)
  {
    hide HitAt;
  }

  lemma HitIsParse(file: octets, base: nat, hi: nat, i: nat)
    requires base <= hi <= |file| && SignatureAt(file[base..hi], i)
    ensures HitAt(file, hi, base + i) == Parse(file[base..hi], i)
  {
    SignatureFromCut(file, base, hi, i);
    ParseFromCut(file, base, hi, base + i);
    hide Parse;
  }

  lemma SkipTo(out: seq<Entry>, before: seq<Entry>, file: octets, start: nat, hi: nat, from: nat, to: nat)
    requires from <= to && hi <= |file| && Scanning(out, before, file, start, hi, from)
    requires forall o :: from <= o < to ==> HitAt(file, hi, o) == None
    ensures Scanning(out, before, file, start, hi, to)
  {
    hide HitAt;
  }

  lemma SkipOne(out: seq<Entry>, before: seq<Entry>, file: octets, start: nat, hi: nat, o: nat)
    requires hi <= |file| && Scanning(out, before, file, start, hi, o)
    requires HitAt(file, hi, o).Some? ==> Represented(out, KeyOf(HitAt(file, hi, o).value), o)
    ensures Scanning(out, before, file, start, hi, o + 1)
  {
    hide HitAt;
  }

  lemma AddEntry(out: seq<Entry>, before: seq<Entry>, file: octets, start: nat, hi: nat, o: nat, h: Header)
    requires hi <= |file| && start <= o && Scanning(out, before, file, start, hi, o) && HitAt(file, hi, o) == Some(h)
    requires forall e :: e in out ==> KeyOf(e.h) != KeyOf(h)
    ensures Scanning(out + [Entry(o, h)], before, file, start, hi, o + 1)
  {
    hide HitAt;
    var out1 := out + [Entry(o, h)];
    forall p | start <= p < o + 1 && HitAt(file, hi, p).Some?
      ensures Represented(out1, KeyOf(HitAt(file, hi, p).value), p)
    {
      if p < o {
        var e :| e in out && KeyOf(e.h) == KeyOf(HitAt(file, hi, p).value) && e.offset <= p;
        assert e in out1;
      } else {
        assert Entry(o, h) in out1;
      }
    }
  }

  /** fh.seek(pos); fh.read(n). */
  function ReadAt(file: octets, pos: nat, n: nat): (b: octets)
    ensures pos <= |file| ==> pos + |b| <= |file| && b == file[pos..pos + |b|]
    ensures |b| <= n && (b == [] <==> pos >= |file| || n == 0)
    ensures |b| < n ==> pos + |b| >= |file|
  {
    if pos >= |file| then [] else if pos + n > |file| then file[pos..] else file[pos..pos + n]
  }

  /** The bytes carried over: everything so far, or the last OVERLAP of it. */
  predicate Carries(file: octets, start: nat, carryPos: nat, carry: octets, pos: nat) {
    && start <= carryPos <= pos <= |file| && carry == file[carryPos..pos]
    && (carryPos == start || carryPos + OVERLAP == pos)
  }

  lemma CarryOn(file: octets, start: nat, base: nat, carry: octets, pos: nat, block: octets)
    requires Carries(file, start, base, carry, pos)
    requires pos + |block| <= |file| && block == file[pos..pos + |block|]
    ensures var buf, hi := carry + block, pos + |block|;
      && buf == file[base..hi]
      && var next := if |buf| > OVERLAP then buf[|buf| - OVERLAP..] else buf;
      Carries(file, start, base + |buf| - |next|, next, hi)
  {
    var buf, hi := carry + block, pos + |block|;
    Concatenate(file, base, pos, hi);
    if |buf| > OVERLAP { SliceOfSlice(file, base, hi, |buf| - OVERLAP, |buf|); }
  }

  lemma Concatenate(s: octets, a: nat, b: nat, c: nat)
    requires a <= b <= c <= |s|
    ensures s[a..b] + s[b..c] == s[a..c]
  {
  }

  /** The scan: read a chunk, search it behind the carried overlap, carry on.
      The range read is cut at the end of the file. */
  method Scan(file: octets, start: nat, length: nat, chunk: nat) returns (out: seq<Entry>)
    requires chunk > 0
    ensures start <= |file| ==> Carved(out, file, start, RangeEnd(file, start, length))
    ensures start > |file| ==> out == []
  {
    hide Carved, Seen, ReadAt;
    var end := start + length;
    var pos: nat := start;
    var carryPos: nat := start;
    var carry: octets := [];
    var seen: set<Key> := {};
    out := [];
    NothingCarved(file, start);
    while pos < end
      invariant start <= pos <= end
      invariant start <= |file| ==> Carries(file, start, carryPos, carry, pos) && Carved(out, file, start, pos)
      invariant start > |file| ==> out == [] && pos == start
      invariant Seen(seen, out)
      decreases end - pos
    {
      var left: nat := end - pos;
      var block := ReadAt(file, pos, if chunk < left then chunk else left);
      if block == [] { break; }
      CarryOn(file, start, carryPos, carry, pos, block);
      var buf := carry + block;
      out, seen := ScanBuffer(file, start, pos, carryPos, pos + |block|, buf, out, seen);
      carry := if |buf| > OVERLAP then buf[|buf| - OVERLAP..] else buf;
      carryPos := carryPos + |buf| - |carry|;
      pos := pos + |block|;
    }
  }

  lemma NothingCarved(file: octets, start: nat)
    ensures start <= |file| ==> Carved([], file, start, start)
    ensures Seen({}, [])
  {
  }

  /** The range stops at its end or at the end of the file. */
  function RangeEnd(file: octets, start: nat, length: nat): (e: nat)
    ensures e <= |file|
  {
    if start + length < |file| then start + length else |file|
  }

  // ---- one pass over the whole range ----

  /** The headers at offsets start..o of a range ending at hi, each key once. */
  function OnePass(file: octets, start: nat, hi: nat, o: nat): seq<Entry>
    requires start <= o <= hi <= |file|
    decreases o
  {
    if o == start then []
    else
      var out := OnePass(file, start, hi, o - 1);
      match HitAt(file, hi, o - 1)
      case None => out
      case Some(h) => if exists e :: e in out && KeyOf(e.h) == KeyOf(h) then out else out + [Entry(o - 1, h)]
  }

  lemma {:induction false} OnePassScans(file: octets, start: nat, hi: nat, o: nat)
    requires start <= o <= hi <= |file|
    ensures Scanning(OnePass(file, start, hi, o), [], file, start, hi, o)
    decreases o
  {
    hide HitAt, Scanning, Carved;
    NothingCarved(file, start);
    if o == start {
      ScanStarts([], file, start, start, hi, start);
    } else {
      var out := OnePass(file, start, hi, o - 1);
      OnePassScans(file, start, hi, o - 1);
      match HitAt(file, hi, o - 1)
      case None => SkipOne(out, [], file, start, hi, o - 1);
      case Some(h) =>
        if exists e :: e in out && KeyOf(e.h) == KeyOf(h) {
          SeenEarlier(out, [], file, start, start, hi, o - 1);
          SkipOne(out, [], file, start, hi, o - 1);
        } else {
          AddEntry(out, [], file, start, hi, o - 1, h);
        }
    }
  }

  /** Chunking is invisible: whatever the chunk size, a scan returns the same
      entries, as a set, as one pass over the whole range. */
  lemma ChunkingIsInvisible(out: seq<Entry>, file: octets, start: nat, hi: nat)
    requires start <= hi <= |file| && Carved(out, file, start, hi)
    ensures (set e | e in out) == (set e | e in OnePass(file, start, hi, hi))
  {
    OnePassScans(file, start, hi, hi);
    ScanEnds(OnePass(file, start, hi, hi), [], file, start, hi);
    CarvedIsUnique(out, OnePass(file, start, hi, hi), file, start, hi);
    hide *;
  }
}
