/** im4m_props.py: the recursive walk over a DER-encoded manifest. */
module Der {
  import opened Wrappers
  import opened Octets

  /** What the walk yields: first tag byte, content range, nesting depth. */
  datatype Item = Item(tag: byte, body: nat, stop: nat, depth: nat)

  /** A field that was read, and where the next one starts. */
  datatype Field = Field(value: nat, next: nat)

  predicate Constructed(tag: byte) { tag / 0x20 % 2 == 1 }

  /** der_read_len; None where it raises. A length field cut off by the end of the
      buffer is read from the bytes there are. */
  function ReadLen(buf: octets, i: nat): (r: Option<Field>)
    ensures r.Some? ==> r.value.next > i
  {
    if i >= |buf| then None
    else if buf[i] < 0x80 then Some(Field(buf[i], i + 1))
    else
      var n := buf[i] - 0x80;
      if n == 0 || n > 4 then None else Some(Field(BigEndian(Clipped(buf, i + 1, i + 1 + n)), i + 1 + n))
  }

  /** Where the continuation bytes of a high tag number end. */
  function SkipTag(buf: octets, i: nat): (next: nat)
    ensures next > i
    decreases |buf| - i
  {
    if i < |buf| && buf[i] >= 0x80 then SkipTag(buf, i + 1) else i + 1
  }

  /** der_read_tag; None where it raises. */
  function ReadTag(buf: octets, i: nat): (r: Option<Field>)
    ensures r.Some? ==> r.value.next > i && i < |buf| && r.value.value == buf[i]
  {
    if i >= |buf| then None
    else Some(Field(buf[i], if buf[i] % 0x20 == 0x1F then SkipTag(buf, i + 1) else i + 1))
  }

  /** One header at i, at a given depth. */
  function Header(buf: octets, i: nat, depth: nat): (r: Option<Item>)
    ensures r.Some? ==> i + 2 <= r.value.body <= r.value.stop && r.value.depth == depth
  {
    match ReadTag(buf, i)
    case None => None
    case Some(tag) =>
      match ReadLen(buf, tag.next)
      case None => None
      case Some(len) => Some(Item(buf[i], len.next, len.next + len.value, depth))
  }

  /** walk, as the sequence of what it yields. */
  function Walk(buf: octets, start: nat, end: nat, depth: nat): seq<Item>
    decreases end - start
  {
    if start + 1 >= end then []
    else
      match Header(buf, start, depth)
      case None => []
      case Some(item) =>
        if item.stop > end then []
        else [item] + Inner(buf, start, end, item) + Walk(buf, item.stop, end, depth)
  }

  function Inner(buf: octets, start: nat, end: nat, item: Item): seq<Item>
    requires start + 2 <= item.body <= item.stop <= end
    decreases end - start, 0
  {
    if Constructed(item.tag) then Walk(buf, item.body, item.stop, item.depth + 1) else []
  }

  lemma WalkStep(buf: octets, i: nat, end: nat, depth: nat)
    ensures i + 1 >= end || Header(buf, i, depth).None? || Header(buf, i, depth).value.stop > end ==>
      Walk(buf, i, end, depth) == []
    ensures i + 1 < end && Header(buf, i, depth).Some? && Header(buf, i, depth).value.stop <= end ==>
      var item := Header(buf, i, depth).value;
      Walk(buf, i, end, depth)
        == [item] + (if Constructed(item.tag) then Walk(buf, item.body, item.stop, depth + 1) else [])
        + Walk(buf, item.stop, end, depth)
  {
    hide Header;
    if i + 1 < end && Header(buf, i, depth).Some? { HeaderFacts(buf, i, depth); }
  }

  /** The source's form: a cursor loop that recurses into constructed values. */
  method WalkLoop(buf: octets, start: nat, end: nat, depth: nat) returns (out: seq<Item>)
    ensures out == Walk(buf, start, end, depth)
    decreases end - start
  {
    hide Walk, Header;
    out := [];
    var i := start;
    while i + 1 < end
      invariant start <= i
      invariant out + Walk(buf, i, end, depth) == Walk(buf, start, end, depth)
      decreases end - i
    {
      var header := Header(buf, i, depth);
      WalkStep(buf, i, end, depth);
      if header.None? || header.value.stop > end {
        assert out + [] == out;
        return;
      }
      var item := header.value;
      out := out + [item];
      if Constructed(item.tag) {
        var inner := WalkLoop(buf, item.body, item.stop, depth + 1);
        out := out + inner;
      }
      i := item.stop;
    }
    WalkStep(buf, i, end, depth);
    assert out + [] == out;
  }

  // ---- on any bytes: nested or disjoint ranges ----

  predicate Inside(a: Item, b: Item) {
    b.body + 2 <= a.body && a.stop <= b.stop && a.depth > b.depth && Constructed(b.tag)
  }

  /** An earlier item either contains a later one or ends before it begins. */
  ghost predicate Laminar(items: seq<Item>) {
    forall i, j :: 0 <= i < j < |items| ==> Inside(items[j], items[i]) || items[i].stop + 2 <= items[j].body
  }

  ghost predicate Within(items: seq<Item>, start: nat, end: nat, depth: nat) {
    forall j :: 0 <= j < |items| ==> start + 2 <= items[j].body <= items[j].stop <= end && items[j].depth >= depth
  }

  lemma {:induction false} WalkIsWithin(buf: octets, start: nat, end: nat, depth: nat)
    ensures Within(Walk(buf, start, end, depth), start, end, depth)
    ensures Walk(buf, start, end, depth) != [] ==> Walk(buf, start, end, depth)[0].depth == depth
    decreases end - start
  {
    hide Header;
    if start + 1 < end && Header(buf, start, depth).Some? && Header(buf, start, depth).value.stop <= end {
      var item := Header(buf, start, depth).value;
      HeaderFacts(buf, start, depth);
      if Constructed(item.tag) { WalkIsWithin(buf, item.body, item.stop, depth + 1); }
      WalkIsWithin(buf, item.stop, end, depth);
    }
  }

  lemma HeaderFacts(buf: octets, i: nat, depth: nat)
    requires Header(buf, i, depth).Some?
    ensures i + 2 <= Header(buf, i, depth).value.body <= Header(buf, i, depth).value.stop
      && Header(buf, i, depth).value.depth == depth
  {
  }

  lemma LaminarJoin(item: Item, inner: seq<Item>, rest: seq<Item>, end: nat)
    requires Laminar(inner) && Laminar(rest) && item.body <= item.stop
    requires Within(inner, item.body, item.stop, item.depth + 1) && (inner != [] ==> Constructed(item.tag))
    requires Within(rest, item.stop, end, item.depth)
    ensures Laminar([item] + inner + rest)
  {
    var items := [item] + inner + rest;
    forall i, j | 0 <= i < j < |items| ensures Inside(items[j], items[i]) || items[i].stop + 2 <= items[j].body {
      if i > |inner| {
        assert items[i] == rest[i - 1 - |inner|] && items[j] == rest[j - 1 - |inner|];
      } else if j > |inner| {
        assert items[j] == rest[j - 1 - |inner|];
        if i > 0 { assert items[i] == inner[i - 1]; }
      } else {
        assert items[j] == inner[j - 1];
        if i > 0 { assert items[i] == inner[i - 1]; }
      }
    }
  }

  /** Whatever the bytes, the walk ends and its ranges are nested or disjoint. */
  lemma {:induction false} WalkIsLaminar(buf: octets, start: nat, end: nat, depth: nat)
    ensures Laminar(Walk(buf, start, end, depth)) && Within(Walk(buf, start, end, depth), start, end, depth)
    decreases end - start
  {
    hide Header, Walk, Laminar;
    WalkIsWithin(buf, start, end, depth);
    WalkStep(buf, start, end, depth);
    if start + 1 < end && Header(buf, start, depth).Some? && Header(buf, start, depth).value.stop <= end {
      var item := Header(buf, start, depth).value;
      HeaderFacts(buf, start, depth);
      var inner: seq<Item> := [];
      NoneIsLaminar();
      if Constructed(item.tag) {
        WalkIsLaminar(buf, item.body, item.stop, depth + 1);
        inner := Walk(buf, item.body, item.stop, depth + 1);
      }
      WalkIsLaminar(buf, item.stop, end, depth);
      LaminarJoin(item, inner, Walk(buf, item.stop, end, depth), end);
    } else {
      NoneIsLaminar();
    }
  }

  lemma NoneIsLaminar()
    ensures Laminar([])
  {
  }

  // ---- where each header stands ----

  /** i is the sibling just before j. */
  ghost predicate Sibling(items: seq<Item>, i: nat, j: nat)
    requires i < j < |items|
  {
    items[i].depth == items[j].depth && forall k :: i < k < j ==> items[k].depth > items[j].depth
  }

  /** The header of item j is at p: where the walk began, at the start of its
      parent's content, or where its previous sibling stopped. */
  ghost predicate Stands(items: seq<Item>, j: nat, p: nat, start: nat)
    requires j < |items|
  {
    || (j == 0 && p == start)
    || (j > 0 && items[j].depth == items[j - 1].depth + 1 && Constructed(items[j - 1].tag) && p == items[j - 1].body)
    || (exists i: nat :: i < j && Sibling(items, i, j) && p == items[i].stop)
  }

  ghost predicate HeadersStand(buf: octets, items: seq<Item>, start: nat) {
    forall j :: 0 <= j < |items| ==> HeaderStands(buf, items, j, start)
  }

  ghost predicate HeaderStands(buf: octets, items: seq<Item>, j: nat, start: nat)
    requires j < |items|
  {
    exists p :: Stands(items, j, p, start) && Header(buf, p, items[j].depth) == Some(items[j])
  }

  lemma StandsFurtherOn(before: seq<Item>, items: seq<Item>, j: nat, p: nat, start: nat)
    requires j < |items| && Stands(items, j, p, start) && j > 0
    ensures Stands(before + items, |before| + j, p, 0)
  {
    var all := before + items;
    assert forall k :: 0 <= k < |items| ==> all[|before| + k] == items[k];
    if !(items[j].depth == items[j - 1].depth + 1 && Constructed(items[j - 1].tag) && p == items[j - 1].body) {
      var i: nat :| i < j && Sibling(items, i, j) && p == items[i].stop;
      assert Sibling(all, |before| + i, |before| + j) by {
        forall k | |before| + i < k < |before| + j
          ensures all[k].depth > items[j].depth
        {
          assert all[k] == items[k - |before|];
        }
      }
    }
  }

  lemma StandsWithMore(items: seq<Item>, after: seq<Item>, j: nat, p: nat, start: nat)
    requires j < |items| && Stands(items, j, p, start)
    ensures Stands(items + after, j, p, start)
  {
    var all := items + after;
    assert forall k :: 0 <= k < |items| ==> all[k] == items[k];
    if !(j == 0 && p == start)
      && !(j > 0 && items[j].depth == items[j - 1].depth + 1 && Constructed(items[j - 1].tag)
      && p == items[j - 1].body) {
      var i: nat :| i < j && Sibling(items, i, j) && p == items[i].stop;
      assert Sibling(all, i, j);
    }
  }

  lemma Stood(buf: octets, items: seq<Item>, j: nat, start: nat) returns (p: nat)
    requires j < |items| && HeadersStand(buf, items, start)
    ensures Stands(items, j, p, start) && Header(buf, p, items[j].depth) == Some(items[j]) && (j == 0 ==> p == start)
  {
    hide Header;
    assert HeaderStands(buf, items, j, start);
    p :| Stands(items, j, p, start) && Header(buf, p, items[j].depth) == Some(items[j]);
  }

  lemma Standing(buf: octets, items: seq<Item>, j: nat, p: nat, start: nat)
    requires j < |items| && Stands(items, j, p, start) && Header(buf, p, items[j].depth) == Some(items[j])
    ensures HeaderStands(buf, items, j, start)
  {
    hide Header, Stands;
  }

  lemma InnerStands(buf: octets, item: Item, inner: seq<Item>, rest: seq<Item>, j: nat, start: nat)
    requires HeadersStand(buf, inner, item.body) && j < |inner| && Constructed(item.tag)
      && inner[0].depth == item.depth + 1
    ensures HeaderStands(buf, [item] + inner + rest, 1 + j, start)
  {
    hide Header, HeadersStand, HeaderStands, Stands;
    var p := Stood(buf, inner, j, item.body);
    if j > 0 {
      StandsFurtherOn([item], inner, j, p, item.body);
    } else {
      StandsAsChild(item, inner);
    }
    StandsWithMore([item] + inner, rest, 1 + j, p, 0);
    StandsAnywhere([item] + inner + rest, 1 + j, p, start);
    assert ([item] + inner + rest)[1 + j] == inner[j];
    Standing(buf, [item] + inner + rest, 1 + j, p, start);
  }

  lemma StandsAsChild(item: Item, inner: seq<Item>)
    requires inner != [] && Constructed(item.tag) && inner[0].depth == item.depth + 1
    ensures Stands([item] + inner, 1, item.body, 0)
  {
  }

  /** Past the first item, the starting point does not matter. */
  lemma StandsAnywhere(items: seq<Item>, j: nat, p: nat, start: nat)
    requires 0 < j < |items| && Stands(items, j, p, 0)
    ensures Stands(items, j, p, start)
  {
  }

  lemma RestStands(buf: octets, item: Item, inner: seq<Item>, rest: seq<Item>, j: nat, start: nat)
    requires HeadersStand(buf, rest, item.stop) && j < |rest| && rest[0].depth == item.depth
    requires forall k :: 0 <= k < |inner| ==> inner[k].depth > item.depth
    ensures HeaderStands(buf, [item] + inner + rest, 1 + |inner| + j, start)
  {
    hide Header, HeadersStand, HeaderStands, Stands;
    var p := Stood(buf, rest, j, item.stop);
    if j > 0 {
      StandsFurtherOn([item] + inner, rest, j, p, item.stop);
    } else {
      StandsAsSibling(item, inner, rest);
    }
    StandsAnywhere([item] + inner + rest, 1 + |inner| + j, p, start);
    assert ([item] + inner + rest)[1 + |inner| + j] == rest[j];
    Standing(buf, [item] + inner + rest, 1 + |inner| + j, p, start);
  }

  lemma StandsAsSibling(item: Item, inner: seq<Item>, rest: seq<Item>)
    requires rest != [] && rest[0].depth == item.depth && forall k :: 0 <= k < |inner| ==> inner[k].depth > item.depth
    ensures Stands([item] + inner + rest, 1 + |inner|, item.stop, 0)
  {
    var all, at := [item] + inner + rest, 1 + |inner|;
    assert all[0] == item && all[at] == rest[0];
    assert Sibling(all, 0, at) by {
      forall k | 0 < k < at ensures all[k].depth > all[at].depth { assert all[k] == inner[k - 1]; }
    }
  }

  /** Siblings are consecutive, and a constructed value's content begins with its
      first child: every header stands where the one before it left off. */
  lemma {:induction false} WalkHeadersStand(buf: octets, start: nat, end: nat, depth: nat)
    ensures HeadersStand(buf, Walk(buf, start, end, depth), start)
    decreases end - start
  {
    hide Header, Walk, HeaderStands, Stands;
    WalkStep(buf, start, end, depth);
    if start + 1 < end && Header(buf, start, depth).Some? && Header(buf, start, depth).value.stop <= end {
      var item := Header(buf, start, depth).value;
      HeaderFacts(buf, start, depth);
      var inner: seq<Item> := [];
      if Constructed(item.tag) {
        inner := Walk(buf, item.body, item.stop, depth + 1);
        WalkHeadersStand(buf, item.body, item.stop, depth + 1);
        WalkIsWithin(buf, item.body, item.stop, depth + 1);
      }
      var rest := Walk(buf, item.stop, end, depth);
      WalkHeadersStand(buf, item.stop, end, depth);
      WalkIsWithin(buf, item.stop, end, depth);
      var all := [item] + inner + rest;
      forall j | 0 <= j < |all| ensures HeaderStands(buf, all, j, start) {
        if j == 0 {
          FirstStands(buf, item, inner + rest, start);
          assert [item] + (inner + rest) == all;
        } else if j <= |inner| {
          InnerStands(buf, item, inner, rest, j - 1, start);
        } else {
          RestStands(buf, item, inner, rest, j - 1 - |inner|, start);
        }
      }
    }
  }

  lemma FirstStands(buf: octets, item: Item, after: seq<Item>, start: nat)
    requires Header(buf, start, item.depth) == Some(item)
    ensures HeaderStands(buf, [item] + after, 0, start)
  {
    hide Header;
    assert Stands([item] + after, 0, start, start);
  }

  // ---- on well-formed DER: exactly the preorder ----

  /** A value with its identifier octets and the form of its length: 0 for the short
      form, otherwise the number of length octets (X.690, sections 8.1.2 and 8.1.3). */
  datatype Tlv = Tlv(tag: octets, form: nat, content: Content)
  datatype Content = Primitive(bytes: octets) | Children(list: seq<Tlv>)

  predicate ValidTag(tag: octets) {
    if |tag| == 0 then false
    else if tag[0] % 0x20 != 0x1F then |tag| == 1
    else |tag| >= 2 && tag[|tag| - 1] < 0x80 && forall i :: 0 < i < |tag| - 1 ==> tag[i] >= 0x80
  }

  /** The length n in the given form. */
  function PutLen(n: nat, form: nat): octets
    requires if form == 0 then n < 0x80 else form <= 4 && n < Pow256(form)
  {
    if form == 0 then [n] else [0x80 + form] + PutBig(n, form)
  }

  function ContentBytes(c: Content): Option<octets>
    decreases c, 1
  {
    match c case Primitive(bytes) => Some(bytes) case Children(list) => Encode(list)
  }

  function EncodeOne(t: Tlv): Option<octets>
    decreases t, 2
  {
    match ContentBytes(t.content)
    case None => None
    case Some(b) =>
      if ValidTag(t.tag) && (t.tag[0] / 0x20 % 2 == 1) == t.content.Children?
        && (if t.form == 0 then |b| < 0x80 else t.form <= 4 && |b| < Pow256(t.form)) then
      Some(t.tag + PutLen(|b|, t.form) + b)
      else None
  }

  /** The octets of a forest, or None if it is not well formed. */
  function Encode(ts: seq<Tlv>): Option<octets>
    decreases ts, 0
  {
    if ts == [] then Some([])
    else
      match EncodeOne(ts[0])
      case None => None
      case Some(a) => match Encode(ts[1..]) case None => None case Some(b) => Some(a + b)
  }

  lemma {:induction false} SkipReads(buf: octets, i: nat, last: nat)
    requires i <= last < |buf| && buf[last] < 0x80 && forall k :: i <= k < last ==> buf[k] >= 0x80
    ensures SkipTag(buf, i) == last + 1
    decreases last - i
  {
    if i < last { SkipReads(buf, i + 1, last); }
  }

  lemma TagReads(buf: octets, at: nat, tag: octets)
    requires ValidTag(tag) && at + |tag| <= |buf| && buf[at..at + |tag|] == tag
    ensures ReadTag(buf, at) == Some(Field(tag[0], at + |tag|))
  {
    assert forall k :: 0 <= k < |tag| ==> buf[at + k] == tag[k];
    if tag[0] % 0x20 == 0x1F { SkipReads(buf, at + 1, at + |tag| - 1); }
  }

  lemma LenReads(buf: octets, at: nat, n: nat, form: nat)
    requires if form == 0 then n < 0x80 else form <= 4 && n < Pow256(form)
    requires at + |PutLen(n, form)| <= |buf| && buf[at..at + |PutLen(n, form)|] == PutLen(n, form)
    ensures ReadLen(buf, at) == Some(Field(n, at + |PutLen(n, form)|))
  {
    hide PutBig, Pow256;
    var b := PutLen(n, form);
    assert buf[at] == b[0];
    if form > 0 {
      assert buf[at + 1..at + 1 + form] == buf[at..at + |b|][1..] == PutBig(n, form);
      BigReadsBack(n, form);
    }
  }

  lemma HeaderReads(buf: octets, at: nat, tag: octets, n: nat, form: nat, depth: nat)
    requires ValidTag(tag) && if form == 0 then n < 0x80 else form <= 4 && n < Pow256(form)
    requires at + |tag + PutLen(n, form)| <= |buf| && buf[at..at + |tag + PutLen(n, form)|] == tag + PutLen(n, form)
    ensures
      var body := at + |tag + PutLen(n, form)|;
      Header(buf, at, depth) == Some(Item(tag[0], body, body + n, depth))
  {
    hide PutLen, ReadTag, ReadLen, ValidTag;
    var b := tag + PutLen(n, form);
    assert buf[at..at + |tag|] == buf[at..at + |b|][..|tag|] == tag;
    assert buf[at + |tag|..at + |b|] == buf[at..at + |b|][|tag|..] == PutLen(n, form);
    TagReads(buf, at, tag);
    LenReads(buf, at + |tag|, n, form);
    assert buf[at] == tag[0] by { TagIsFirst(buf, at, tag); }
  }

  lemma TagIsFirst(buf: octets, at: nat, tag: octets)
    requires ValidTag(tag) && at + |tag| <= |buf| && buf[at..at + |tag|] == tag
    ensures buf[at] == tag[0]
  {
  }

  /** The values of a forest in preorder, with the ranges they occupy from at on. */
  function Preorder(ts: seq<Tlv>, at: nat, depth: nat): seq<Item>
    requires Encode(ts).Some?
    decreases ts, 3
  {
    if ts == [] then []
    else
      assert EncodeOne(ts[0]).Some? && ContentBytes(ts[0].content).Some?;
      var content := ContentBytes(ts[0].content).value;
      var stop := at + |EncodeOne(ts[0]).value|;
      [Item(ts[0].tag[0], stop - |content|, stop, depth)] + Below(ts[0].content, stop - |content|, depth)
        + Preorder(ts[1..], stop, depth)
  }

  function Below(c: Content, at: nat, depth: nat): seq<Item>
    requires ContentBytes(c).Some?
    decreases c, 3
  {
    match c case Primitive(_) => [] case Children(list) => Preorder(list, at, depth + 1)
  }

  lemma SliceThrice(a: octets, x: octets, y: octets, z: octets)
    ensures (a + (x + y) + z)[|a|..|a| + |x|] == x
  {
  }

  lemma Regroup(a: octets, x: octets, y: octets, z: octets)
    ensures a + (x + y) + z == (a + x) + y + z && a + (x + y) + z == a + x + (y + z)
    ensures |a + (x + y)| == |(a + x) + y| && |a + x| == |a| + |x|
  {
  }

  /** The parts a well-formed value is made of. */
  lemma EncodeParts(t: Tlv)
    requires EncodeOne(t).Some?
    ensures ContentBytes(t.content).Some? && ValidTag(t.tag) && Constructed(t.tag[0]) == t.content.Children?
    ensures
      var n := |ContentBytes(t.content).value|;
      && (if t.form == 0 then n < 0x80 else t.form <= 4 && n < Pow256(t.form))
      && EncodeOne(t) == Some(t.tag + PutLen(n, t.form) + ContentBytes(t.content).value)
  {
    hide PutLen, ContentBytes, ValidTag, Pow256;
  }

  /** The first value of a forest: its header reads, and ends inside. */
  lemma FirstReads(before: octets, t: Tlv, after: octets, depth: nat)
    requires EncodeOne(t).Some?
    ensures ContentBytes(t.content).Some? && t.tag != [] && Constructed(t.tag[0]) == t.content.Children?
    ensures
      var n, stop := |ContentBytes(t.content).value|, |before + EncodeOne(t).value|;
      && n + 2 <= |EncodeOne(t).value|
      && Header(before + EncodeOne(t).value + after, |before|, depth) == Some(Item(t.tag[0], stop - n, stop, depth))
  {
    EncodeParts(t);
    var content := ContentBytes(t.content).value;
    var head := t.tag + PutLen(|content|, t.form);
    assert |head| >= 2 && t.tag != [];
    hide *;
    SliceThrice(before, head, content, after);
    HeaderReads(before + (head + content) + after, |before|, t.tag, |content|, t.form, depth);
  }

  lemma ForestSplits(ts: seq<Tlv>, at: nat, depth: nat)
    requires Encode(ts).Some? && ts != []
    ensures EncodeOne(ts[0]).Some? && Encode(ts[1..]).Some?
      && Encode(ts) == Some(EncodeOne(ts[0]).value + Encode(ts[1..]).value)
    ensures ContentBytes(ts[0].content).Some? && ts[0].tag != []
    ensures
      var n, stop := |ContentBytes(ts[0].content).value|, at + |EncodeOne(ts[0]).value|;
      && stop >= n
      && Preorder(ts, at, depth)
         == [Item(ts[0].tag[0], stop - n, stop, depth)] + Below(ts[0].content, stop - n, depth)
         + Preorder(ts[1..], stop, depth)
  {
    hide Below, PutLen;
    EncodeParts(ts[0]);
  }

  lemma OneMore(buf: octets, at: nat, item: Item, end: nat, below: seq<Item>, rest: seq<Item>)
    requires Header(buf, at, item.depth) == Some(item) && item.stop <= end
    requires below == if Constructed(item.tag) then Walk(buf, item.body, item.stop, item.depth + 1) else []
    requires rest == Walk(buf, item.stop, end, item.depth)
    ensures Walk(buf, at, end, item.depth) == [item] + below + rest
  {
    hide Walk, Header;
    WalkStep(buf, at, end, item.depth);
    HeaderFacts(buf, at, item.depth);
  }

  lemma NoValues(buf: octets, at: nat, depth: nat)
    ensures Encode([]) == Some([]) && Preorder([], at, depth) == [] && Walk(buf, at, at, depth) == []
  {
  }

  lemma BelowIs(c: Content, at: nat, depth: nat)
    requires ContentBytes(c).Some?
    ensures c.Primitive? ==> Below(c, at, depth) == []
    ensures c.Children? ==> ContentBytes(c) == Encode(c.list) && Below(c, at, depth) == Preorder(c.list, at, depth + 1)
  {
    hide Preorder;
  }

  /** On every well-formed forest, anywhere in a buffer and at any depth, the walk
      yields exactly its preorder. */
  lemma {:induction false} WalkIsPreorder(buf: octets, before: octets, ts: seq<Tlv>, after: octets, depth: nat)
    requires Encode(ts).Some? && buf == before + Encode(ts).value + after
    ensures Walk(buf, |before|, |before| + |Encode(ts).value|, depth) == Preorder(ts, |before|, depth)
    decreases ts, 3
  {
    hide *;
    if ts == [] {
      NoValues(buf, |before|, depth);
    } else {
      var t, rest := ts[0], ts[1..];
      ForestSplits(ts, |before|, depth);
      var one, others := EncodeOne(t).value, Encode(rest).value;
      Regroup(before, one, others, after);
      FirstReads(before, t, others + after, depth);
      BelowIsWalked(buf, before, t, others + after, depth);
      WalkIsPreorder(buf, before + one, rest, after, depth);
      var n, stop := |ContentBytes(t.content).value|, |before| + |one|;
      OneMore(buf, |before|, Item(t.tag[0], stop - n, stop, depth), |before| + |one + others|,
              Below(t.content, stop - n, depth), Preorder(rest, stop, depth));
    }
  }

  lemma {:induction false} BelowIsWalked(buf: octets, before: octets, t: Tlv, after: octets, depth: nat)
    requires EncodeOne(t).Some? && buf == before + EncodeOne(t).value + after
    ensures ContentBytes(t.content).Some? && t.tag != [] && |EncodeOne(t).value| >= |ContentBytes(t.content).value|
    ensures
      var stop := |before| + |EncodeOne(t).value|;
      var body := stop - |ContentBytes(t.content).value|;
      Below(t.content, body, depth) == if Constructed(t.tag[0]) then Walk(buf, body, stop, depth + 1) else []
    decreases t, 3
  {
    hide *;
    EncodeParts(t);
    TagIsThere(t);
    var content := ContentBytes(t.content).value;
    var head := t.tag + PutLen(|content|, t.form);
    Regroup(before, head, content, after);
    BelowIs(t.content, |before + head|, depth);
    if t.content.Children? { WalkIsPreorder(buf, before + head, t.content.list, after, depth + 1); }
  }

  lemma TagIsThere(t: Tlv)
    requires ValidTag(t.tag)
    ensures t.tag != []
  {
  }
}
