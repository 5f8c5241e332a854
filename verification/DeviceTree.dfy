/** devicetree.py: Apple's flattened device tree, printed and parsed back. */
module DeviceTree {
  import opened Wrappers
  import opened Octets

  const NAME_LEN := 32
  const PLACEHOLDER := 0x8000_0000

  /** A property; names are kept as their encoded bytes. */
  datatype Prop = Prop(key: octets, value: octets)

  /** Insertion-ordered properties with distinct keys, children in order, and the
      names whose stored length carried the placeholder flag. */
  datatype Node = Node(props: seq<Prop>, children: seq<Node>, placeholders: set<octets>)

  function Pad4(n: nat): (p: nat)
    ensures p < 4 && (n + p) % 4 == 0
  {
    (4 - n % 4) % 4
  }

  // ---- printing ----

  function SerialiseProp(p: Prop): (b: octets)
    requires |p.key| < NAME_LEN && |p.value| < 0x1_0000_0000
    ensures |b| == 36 + |p.value| + Pad4(|p.value|)
  {
    p.key + Zeros(NAME_LEN - |p.key|) + Put32(|p.value|) + p.value + Zeros(Pad4(|p.value|))
  }

  /** All properties, or None where a name or a length is refused. */
  function SerialiseProps(props: seq<Prop>): Option<octets>
    decreases |props|
  {
    if props == [] then Some([])
    else if |props[0].key| >= NAME_LEN || |props[0].value| >= 0x1_0000_0000 then None
    else
      match SerialiseProps(props[1..])
      case None => None
      case Some(rest) => Some(SerialiseProp(props[0]) + rest)
  }

  /** Node.serialise: counts, properties, then the children. */
  function Serialise(t: Node): (b: Option<octets>)
    ensures b.Some? ==> |b.value| >= 8
    decreases t, 1
  {
    if |t.props| >= 0x1_0000_0000 || |t.children| >= 0x1_0000_0000 then None
    else
      match SerialiseProps(t.props)
      case None => None
      case Some(props) =>
        match SerialiseAll(t.children)
        case None => None
        case Some(children) => Some(Put32(|t.props|) + Put32(|t.children|) + props + children)
  }

  function SerialiseAll(ts: seq<Node>): Option<octets>
    decreases ts, 0
  {
    if ts == [] then Some([])
    else
      match Serialise(ts[0])
      case None => None
      case Some(b) =>
        match SerialiseAll(ts[1..])
        case None => None
        case Some(rest) => Some(b + rest)
  }

  // ---- parsing ----

  /** Everything before the first NUL. */
  function CutAtNul(raw: octets): (name: octets)
    ensures |name| <= |raw| && name <= raw && forall k :: 0 <= k < |name| ==> name[k] != 0
  {
    if raw == [] || raw[0] == 0 then [] else [raw[0]] + CutAtNul(raw[1..])
  }

  /** Dictionary assignment: in place for a known key, at the end otherwise. */
  function SetProp(props: seq<Prop>, key: octets, value: octets): (r: seq<Prop>)
    ensures |props| <= |r| <= |props| + 1
    decreases |props|
  {
    if props == [] then [Prop(key, value)]
    else if props[0].key == key then [Prop(key, value)] + props[1..]
    else [props[0]] + SetProp(props[1..], key, value)
  }

  datatype PropsRead = PropsRead(props: seq<Prop>, placeholders: set<octets>, off: nat)

  /** The next n properties from buf[off..]; None where unpack_from raises. */
  function ParseProps(buf: octets, off: nat, n: nat, props: seq<Prop>,
    placeholders: set<octets>): (r: Option<PropsRead>)
    ensures r.Some? ==> r.value.off >= off
    decreases n
  {
    if n == 0 then Some(PropsRead(props, placeholders, off))
    else if off + NAME_LEN + 4 > |buf| then None
    else
      var stored := Word32(buf, off + NAME_LEN);
      var length := stored % PLACEHOLDER;
      var at := off + NAME_LEN + 4;
      var key := CutAtNul(buf[off..off + NAME_LEN]);
      var value := Clipped(buf, at, at + length);
      ParseProps(buf, at + length + Pad4(length), n - 1, SetProp(props, key, value),
                 if stored >= PLACEHOLDER then placeholders + {key} else placeholders)
  }

  datatype NodeRead = NodeRead(t: Node, off: nat)
  datatype NodesRead = NodesRead(ts: seq<Node>, off: nat)

  function Left(buf: octets, off: nat): nat { if off < |buf| then |buf| - off else 0 }

  /** parse(buf, off). */
  function Parse(buf: octets, off: nat): (r: Option<NodeRead>)
    ensures r.Some? ==> r.value.off >= off + 8 && off + 8 <= |buf|
    decreases Left(buf, off), 0
  {
    if off + 8 > |buf| then None
    else
      match ParseProps(buf, off + 8, Word32(buf, off), [], {})
      case None => None
      case Some(ps) =>
        match ParseAll(buf, ps.off, Word32(buf, off + 4))
        case None => None
        case Some(cs) => Some(NodeRead(Node(ps.props, cs.ts, ps.placeholders), cs.off))
  }

  function ParseAll(buf: octets, off: nat, n: nat): (r: Option<NodesRead>)
    ensures r.Some? ==> r.value.off >= off
    decreases Left(buf, off), 1
  {
    if n == 0 then Some(NodesRead([], off))
    else
      match Parse(buf, off)
      case None => None
      case Some(c) =>
        match ParseAll(buf, c.off, n - 1)
        case None => None
        case Some(cs) => Some(NodesRead([c.t] + cs.ts, cs.off))
  }

  // ---- which trees ----

  predicate GoodProp(p: Prop) {
    |p.key| < NAME_LEN && (forall k :: 0 <= k < |p.key| ==> p.key[k] != 0) && |p.value| < PLACEHOLDER
  }

  ghost predicate Distinct(props: seq<Prop>) { forall i, j :: 0 <= i < j < |props| ==> props[i].key != props[j].key }

  ghost predicate WellFormed(t: Node) {
    && |t.props| < 0x1_0000_0000 && |t.children| < 0x1_0000_0000
    && (forall p :: p in t.props ==> GoodProp(p)) && Distinct(t.props)
    && forall c :: c in t.children ==> WellFormed(c)
  }

  /** The tree with no placeholder marks: what a printed tree says. */
  function Plain(t: Node): Node
    decreases t, 1
  {
    Node(t.props, PlainAll(t.children), {})
  }

  function PlainAll(ts: seq<Node>): (r: seq<Node>)
    decreases ts, 0
  {
    if ts == [] then [] else [Plain(ts[0])] + PlainAll(ts[1..])
  }

  // ---- templates: lengths with the placeholder flag ----

  /** A property as firmware templates store it: the top bit of the length says that
      the value is a placeholder. */
  function MarkedProp(p: Prop, mark: bool): octets
    requires GoodProp(p)
  {
    var stored: nat := if mark then 0x8000_0000 + |p.value| else |p.value|;
    p.key + Zeros(32 - |p.key|) + Put32(stored) + p.value + Zeros(Pad4(|p.value|))
  }

  function MarkedProps(props: seq<Prop>, marks: set<octets>): octets
    requires forall p :: p in props ==> GoodProp(p)
    decreases |props|
  {
    if props == [] then [] else MarkedProp(props[0], props[0].key in marks) + MarkedProps(props[1..], marks)
  }

  /** A tree with its placeholder flags. */
  ghost function Marked(t: Node): octets
    requires WellFormed(t)
    decreases t, 1
  {
    Put32(|t.props|) + Put32(|t.children|) + MarkedProps(t.props, t.placeholders) + MarkedAll(t.children)
  }

  ghost function MarkedAll(ts: seq<Node>): octets
    requires forall t :: t in ts ==> WellFormed(t)
    decreases ts, 0
  {
    if ts == [] then []
    else
      assert ts[0] in ts && forall t :: t in ts[1..] ==> t in ts;
      Marked(ts[0]) + MarkedAll(ts[1..])
  }

  /** Only names of properties carry a flag. */
  ghost predicate MarksOwn(t: Node) {
    && (forall k :: k in t.placeholders ==> exists p :: p in t.props && p.key == k)
    && forall c :: c in t.children ==> MarksOwn(c)
  }

  /** The names among these properties that carry the flag. */
  function Flagged(props: seq<Prop>, marks: set<octets>): set<octets> { set p | p in props && p.key in marks :: p.key }

  // ---- round trip ----

  lemma CutName(key: octets, n: nat, rest: octets)
    requires (forall k :: 0 <= k < |key| ==> key[k] != 0) && n > 0
    ensures CutAtNul(key + Zeros(n) + rest) == key
    decreases |key|
  {
    if key != [] {
      assert (key + Zeros(n) + rest)[1..] == key[1..] + Zeros(n) + rest;
      CutName(key[1..], n, rest);
    }
  }

  lemma {:induction false} SetNew(props: seq<Prop>, key: octets, value: octets)
    requires forall p :: p in props ==> p.key != key
    ensures SetProp(props, key, value) == props + [Prop(key, value)]
    decreases |props|
  {
    if props != [] { SetNew(props[1..], key, value); }
  }

  /** The 36 bytes at `off` and the value after them spell out p. */
  predicate PropAt(buf: octets, off: nat, p: Prop, mark: bool) {
    && off + 36 <= |buf| && Word32(buf, off + 32) == (if mark then 0x8000_0000 + |p.value| else |p.value|)
    && CutAtNul(buf[off..off + 32]) == p.key
    && Clipped(buf, off + 36, off + 36 + |p.value|) == p.value
  }

  lemma PropFields(front: octets, p: Prop, mark: bool, back: octets)
    requires GoodProp(p)
    ensures PropAt(front + MarkedProp(p, mark) + back, |front|, p, mark)
    ensures |MarkedProp(p, mark)| == 36 + |p.value| + Pad4(|p.value|)
  {
    hide *;
    var name, size, after := MarkedParts(p, mark);
    var buf := front + MarkedProp(p, mark) + back;
    FieldsLie(front, name, size, p.value, after, back);
    ReadBack32(front + name, Stored(p, mark), p.value + after + back);
    Spelled(buf, |front|, p, mark, name);
  }

  function Stored(p: Prop, mark: bool): nat { if mark then 0x8000_0000 + |p.value| else |p.value| }

  /** Name field, length field and padding of a printed property. */
  lemma MarkedParts(p: Prop, mark: bool) returns (name: octets, size: octets, after: octets)
    requires GoodProp(p)
    ensures Stored(p, mark) < 0x1_0000_0000 && size == Put32(Stored(p, mark)) && |size| == 4
    ensures MarkedProp(p, mark) == name + size + p.value + after
    ensures |name| == 32 && CutAtNul(name) == p.key && |after| == Pad4(|p.value|)
  {
    name, size, after := p.key + Zeros(32 - |p.key|), Put32(Stored(p, mark)), Zeros(Pad4(|p.value|));
    assert p.key + Zeros(32 - |p.key|) + [] == p.key + Zeros(32 - |p.key|);
    CutName(p.key, 32 - |p.key|, []);
    hide Put32, Zeros, Pad4, CutAtNul;
  }

  lemma Spelled(buf: octets, off: nat, p: Prop, mark: bool, name: octets)
    requires off + 36 + |p.value| <= |buf| && buf[off..off + 32] == name && CutAtNul(name) == p.key
    requires Word32(buf, off + 32) == Stored(p, mark) && buf[off + 36..off + 36 + |p.value|] == p.value
    ensures PropAt(buf, off, p, mark)
  {
    hide Word32, CutAtNul;
  }

  lemma FieldsLie(front: octets, name: octets, size: octets, value: octets, after: octets, back: octets)
    ensures
      var buf := front + (name + size + value + after) + back;
      && buf == (front + name) + size + (value + after + back)
      && buf[|front|..|front| + |name|] == name
      && buf[|front| + |name| + |size|..|front| + |name| + |size| + |value|] == value
  {
  }

  lemma PropStepAt(buf: octets, off: nat, p: Prop, mark: bool, n: nat, done: seq<Prop>, ph: set<octets>)
    requires |p.value| < 0x8000_0000 && PropAt(buf, off, p, mark)
    ensures ParseProps(buf, off, n + 1, done, ph) ==
      ParseProps(buf, off + 36 + |p.value| + Pad4(|p.value|), n, SetProp(done, p.key, p.value),
                 if mark then ph + {p.key} else ph)
  {
    hide CutAtNul, Clipped, Word32, SetProp, Pad4;
  }

  /** Reading one printed property moves it from the bytes to the dictionary. */
  lemma PropStep(front: octets, p: Prop, mark: bool, back: octets, n: nat, done: seq<Prop>, ph: set<octets>)
    requires GoodProp(p) && forall q :: q in done ==> q.key != p.key
    ensures var buf := front + MarkedProp(p, mark) + back;
      ParseProps(buf, |front|, n + 1, done, ph)
      == ParseProps(buf, |front + MarkedProp(p, mark)|, n, done + [p], if mark then ph + {p.key} else ph)
  {
    hide ParseProps, MarkedProp, SetProp, Word32, CutAtNul, Clipped, Pad4, PropAt, Distinct;
    PropFields(front, p, mark, back);
    PropStepAt(front + MarkedProp(p, mark) + back, |front|, p, mark, n, done, ph);
    SetNew(done, p.key, p.value);
  }

  lemma DistinctFrom(done: seq<Prop>, props: seq<Prop>)
    requires props != [] && Distinct(done + props)
    ensures forall q :: q in done ==> q.key != props[0].key
  {
    forall q | q in done ensures q.key != props[0].key {
      var i :| 0 <= i < |done| && done[i] == q;
      assert (done + props)[i] == q && (done + props)[|done|] == props[0];
    }
  }

  lemma {:induction false} PropsRoundTrip(front: octets, props: seq<Prop>, marks: set<octets>, back: octets,
    done: seq<Prop>, ph: set<octets>)
    requires (forall p :: p in props ==> GoodProp(p)) && Distinct(done + props)
    ensures var s := MarkedProps(props, marks);
      ParseProps(front + s + back, |front|, |props|, done, ph)
      == Some(PropsRead(done + props, ph + Flagged(props, marks), |front| + |s|))
    decreases |props|
  {
    hide MarkedProp, ParseProps, GoodProp;
    if props == [] {
      assert done + props == done && ph + Flagged(props, marks) == ph;
      NoProps(front + [] + back, |front|, done, ph);
    } else {
      var p := props[0];
      var mark := p.key in marks;
      var ph1 := if mark then ph + {p.key} else ph;
      assert p in props && forall q :: q in props[1..] ==> q in props;
      assert (done + [p]) + props[1..] == done + props;
      PropsRoundTrip(front + MarkedProp(p, mark), props[1..], marks, back, done + [p], ph1);
      var rest := MarkedProps(props[1..], marks);
      Regroup(front, MarkedProp(p, mark), rest, back);
      DistinctFrom(done, props);
      PropStep(front, p, mark, rest + back, |props| - 1, done, ph);
      FlaggedFirst(props, marks, ph);
    }
  }

  lemma FlaggedFirst(props: seq<Prop>, marks: set<octets>, ph: set<octets>)
    requires props != []
    ensures ph + Flagged(props, marks) ==
      (if props[0].key in marks then ph + {props[0].key} else ph) + Flagged(props[1..], marks)
  {
    assert forall p :: p in props <==> p == props[0] || p in props[1..];
  }

  lemma NoProps(buf: octets, off: nat, done: seq<Prop>, ph: set<octets>)
    ensures ParseProps(buf, off, 0, done, ph) == Some(PropsRead(done, ph, off))
  {
  }

  lemma Regroup(a: octets, b: octets, c: octets, d: octets)
    ensures a + (b + c) + d == a + b + (c + d) == (a + b) + c + d
  {
  }

  /** A template, flags and all, with anything before and after it, parses to its tree. */
  lemma {:induction false} TemplateRoundTrip(front: octets, t: Node, back: octets)
    requires WellFormed(t) && MarksOwn(t)
    ensures Parse(front + Marked(t) + back, |front|) == Some(NodeRead(t, |front| + |Marked(t)|))
    decreases t, 1
  {
    hide MarkedProps, ParseProps, Word32, Put32;
    assert [] + t.props == t.props && {} + Flagged(t.props, t.placeholders) == t.placeholders;
    var ps, cs := MarkedProps(t.props, t.placeholders), MarkedAll(t.children);
    var counts := Put32(|t.props|) + Put32(|t.children|);
    AllTemplates(front + counts + ps, t.children, back);
    Regroup4(front, counts, ps, cs, back);
    assert Marked(t) == counts + ps + cs;
    NodeCounts(front, |t.props|, |t.children|, ps + cs + back);
    PropsRoundTrip(front + counts, t.props, t.placeholders, cs + back, [], {});
  }

  lemma {:induction false} AllTemplates(front: octets, ts: seq<Node>, back: octets)
    requires forall t :: t in ts ==> WellFormed(t) && MarksOwn(t)
    ensures ParseAll(front + MarkedAll(ts) + back, |front|, |ts|) == Some(NodesRead(ts, |front| + |MarkedAll(ts)|))
    decreases ts, 0
  {
    hide Marked, Parse, WellFormed, MarksOwn, ParseAll;
    if ts == [] {
      NoNodes(front + [] + back, |front|);
    } else {
      assert ts[0] in ts && forall t :: t in ts[1..] ==> t in ts;
      var b, rest := Marked(ts[0]), MarkedAll(ts[1..]);
      TemplateRoundTrip(front, ts[0], rest + back);
      AllTemplates(front + b, ts[1..], back);
      Regroup(front, b, rest, back);
      NodesStep(front + (b + rest) + back, |front|, ts[0], ts[1..], |front| + |b|, |front| + |b| + |rest|);
      assert [ts[0]] + ts[1..] == ts;
    }
  }

  lemma NoNodes(buf: octets, off: nat)
    ensures ParseAll(buf, off, 0) == Some(NodesRead([], off))
  {
  }

  lemma NodesStep(buf: octets, off: nat, t: Node, ts: seq<Node>, mid: nat, end: nat)
    requires Parse(buf, off) == Some(NodeRead(t, mid)) && ParseAll(buf, mid, |ts|) == Some(NodesRead(ts, end))
    ensures ParseAll(buf, off, |ts| + 1) == Some(NodesRead([t] + ts, end))
  {
    hide Parse;
  }

  /** The printer's bytes are the template without flags. */
  lemma {:induction false} PrintedIsMarked(t: Node)
    requires WellFormed(t)
    ensures WellFormed(Plain(t)) && MarksOwn(Plain(t)) && Serialise(t) == Some(Marked(Plain(t)))
    decreases t, 1
  {
    hide SerialiseProps, MarkedProps, Put32, GoodProp;
    PropsPrinted(t.props);
    AllPrintedIsMarked(t.children);
  }

  lemma {:induction false} AllPrintedIsMarked(ts: seq<Node>)
    requires forall t :: t in ts ==> WellFormed(t)
    ensures |PlainAll(ts)| == |ts| && forall t :: t in PlainAll(ts) ==> WellFormed(t) && MarksOwn(t)
    ensures SerialiseAll(ts) == Some(MarkedAll(PlainAll(ts)))
    decreases ts, 0
  {
    hide Serialise, Plain, WellFormed, MarksOwn, Marked;
    if ts != [] {
      assert ts[0] in ts && forall t :: t in ts[1..] ==> t in ts;
      PrintedIsMarked(ts[0]);
      AllPrintedIsMarked(ts[1..]);
      assert PlainAll(ts)[1..] == PlainAll(ts[1..]);
    }
  }

  lemma {:induction false} PropsPrinted(props: seq<Prop>)
    requires forall p :: p in props ==> GoodProp(p)
    ensures SerialiseProps(props) == Some(MarkedProps(props, {}))
    decreases |props|
  {
    if props != [] {
      assert props[0] in props && forall p :: p in props[1..] ==> p in props;
      PropsPrinted(props[1..]);
    }
    hide Put32, Zeros;
  }

  /** Printing and parsing a node, with anything before and after it. */
  lemma NodeRoundTrip(front: octets, t: Node, back: octets)
    requires WellFormed(t)
    ensures Serialise(t).Some?
    ensures var s := Serialise(t).value;
      Parse(front + s + back, |front|) == Some(NodeRead(Plain(t), |front| + |s|))
  {
    hide *;
    PrintedIsMarked(t);
    TemplateRoundTrip(front, Plain(t), back);
  }

  lemma Regroup4(a: octets, b: octets, c: octets, d: octets, e: octets)
    ensures a + (b + c + d) + e == a + b + (c + d + e)
    ensures a + (b + c + d) + e == (a + b) + c + (d + e)
    ensures a + (b + c + d) + e == (a + b + c) + d + e
  {
  }

  lemma NodeCounts(front: octets, m: nat, n: nat, back: octets)
    requires m < 0x1_0000_0000 && n < 0x1_0000_0000
    ensures var buf := front + (Put32(m) + Put32(n)) + back;
      |buf| >= |front| + 8 && Word32(buf, |front|) == m && Word32(buf, |front| + 4) == n
  {
    var buf := front + (Put32(m) + Put32(n)) + back;
    assert buf == front + Put32(m) + (Put32(n) + back);
    assert buf == (front + Put32(m)) + Put32(n) + back;
    ReadBack32(front, m, Put32(n) + back);
    ReadBack32(front + Put32(m), n, back);
  }

  // ---- normal form ----

  lemma {:induction false} SetPropGood(props: seq<Prop>, key: octets, value: octets)
    requires Distinct(props)
    ensures Distinct(SetProp(props, key, value))
    ensures forall p :: p in SetProp(props, key, value) ==> p in props || p == Prop(key, value)
    decreases |props|
  {
    if props != [] && props[0].key != key {
      var r := SetProp(props[1..], key, value);
      TailDistinct(props);
      SetPropGood(props[1..], key, value);
      forall j | 0 < j < |r| + 1 ensures ([props[0]] + r)[j].key != props[0].key {
        assert ([props[0]] + r)[j] == r[j - 1] && r[j - 1] in r;
        if r[j - 1] in props[1..] {
          var m :| 0 <= m < |props[1..]| && props[1..][m] == r[j - 1];
          assert props[m + 1] == r[j - 1];
        }
      }
    } else if props != [] {
      TailDistinct(props);
      assert forall p :: p in props[1..] ==> p in props;
    }
  }

  lemma TailDistinct(props: seq<Prop>)
    requires props != [] && Distinct(props)
    ensures Distinct(props[1..])
  {
  }

  /** A property as parsed: NUL-free name of at most 32 bytes, value below 2^31. */
  predicate ParsedProp(p: Prop) {
    |p.key| <= NAME_LEN && (forall k :: 0 <= k < |p.key| ==> p.key[k] != 0) && |p.value| < PLACEHOLDER
  }

  lemma {:induction false} ParsedProps(buf: octets, off: nat, n: nat, props: seq<Prop>, ph: set<octets>)
    requires Distinct(props) && (forall p :: p in props ==> ParsedProp(p)) && ParseProps(buf, off, n, props, ph).Some?
    ensures var r := ParseProps(buf, off, n, props, ph).value;
      Distinct(r.props) && (forall p :: p in r.props ==> ParsedProp(p)) && |r.props| <= |props| + n
    decreases n
  {
    hide Distinct, Word32, CutAtNul, Clipped;
    if n > 0 {
      var length := Word32(buf, off + NAME_LEN) % PLACEHOLDER;
      var key := CutAtNul(buf[off..off + NAME_LEN]);
      var value := Clipped(buf, off + NAME_LEN + 4, off + NAME_LEN + 4 + length);
      SetPropGood(props, key, value);
      assert ParsedProp(Prop(key, value));
      var ph1 := if Word32(buf, off + NAME_LEN) >= PLACEHOLDER then ph + {key} else ph;
      ParsedProps(buf, off + NAME_LEN + 4 + length + Pad4(length), n - 1, SetProp(props, key, value), ph1);
    }
  }

  /** No name fills its 32-byte field, anywhere in the tree. */
  ghost predicate ShortNames(t: Node) {
    (forall p :: p in t.props ==> |p.key| < NAME_LEN) && forall c :: c in t.children ==> ShortNames(c)
  }

  /** Whatever parses is a tree the printer accepts, unless a name fills its field. */
  lemma {:induction false} ParsedIsWellFormed(buf: octets, off: nat)
    requires Parse(buf, off).Some?
    ensures ShortNames(Parse(buf, off).value.t) ==> WellFormed(Parse(buf, off).value.t)
    decreases Left(buf, off), 0
  {
    var n, m := Word32(buf, off), Word32(buf, off + 4);
    ParsedProps(buf, off + 8, n, [], {});
    var ps := ParseProps(buf, off + 8, n, [], {}).value;
    ParsedAll(buf, ps.off, m);
    hide ParseProps, Word32;
  }

  lemma {:induction false} ParsedAll(buf: octets, off: nat, n: nat)
    requires ParseAll(buf, off, n).Some?
    ensures |ParseAll(buf, off, n).value.ts| == n
    ensures forall c :: c in ParseAll(buf, off, n).value.ts && ShortNames(c) ==> WellFormed(c)
    decreases Left(buf, off), 1
  {
    hide Parse, WellFormed, ShortNames;
    if n > 0 {
      ParsedIsWellFormed(buf, off);
      ParsedAll(buf, Parse(buf, off).value.off, n - 1);
    }
  }

  /** What the printer takes: counts and lengths of 32 bits, names shorter than their field. */
  ghost predicate Printable(t: Node) {
    && |t.props| < 0x1_0000_0000 && |t.children| < 0x1_0000_0000
    && (forall p :: p in t.props ==> |p.key| < 32 && |p.value| < 0x1_0000_0000)
    && forall c :: c in t.children ==> Printable(c)
  }

  lemma {:induction false} PrintsExactly(t: Node)
    ensures Serialise(t).Some? <==> Printable(t)
    decreases t, 1
  {
    PropsPrintExactly(t.props);
    AllPrintExactly(t.children);
    hide SerialiseProps;
  }

  lemma {:induction false} AllPrintExactly(ts: seq<Node>)
    ensures SerialiseAll(ts).Some? <==> forall t :: t in ts ==> Printable(t)
    decreases ts, 0
  {
    hide Serialise, Printable;
    if ts != [] {
      assert ts[0] in ts && forall t :: t in ts <==> t == ts[0] || t in ts[1..];
      PrintsExactly(ts[0]);
      AllPrintExactly(ts[1..]);
    }
  }

  lemma {:induction false} PropsPrintExactly(props: seq<Prop>)
    ensures SerialiseProps(props).Some? <==> forall p :: p in props ==> |p.key| < 32 && |p.value| < 0x1_0000_0000
    decreases |props|
  {
    if props != [] {
      assert props[0] in props && forall p :: p in props <==> p == props[0] || p in props[1..];
      PropsPrintExactly(props[1..]);
    }
    hide SerialiseProp;
  }

  lemma {:induction false} PropsPrintShort(props: seq<Prop>)
    requires SerialiseProps(props).Some?
    ensures forall p :: p in props ==> |p.key| < NAME_LEN
    decreases |props|
  {
    if props != [] { PropsPrintShort(props[1..]); }
    hide SerialiseProp;
  }

  /** A name that fills its field makes the printer raise. */
  lemma {:induction false} PrintsShort(t: Node)
    requires Serialise(t).Some?
    ensures ShortNames(t)
    decreases t, 1
  {
    hide SerialiseProps;
    PropsPrintShort(t.props);
    AllPrintShort(t.children);
  }

  lemma {:induction false} AllPrintShort(ts: seq<Node>)
    requires SerialiseAll(ts).Some?
    ensures forall t :: t in ts ==> ShortNames(t)
    decreases ts, 0
  {
    hide Serialise, ShortNames;
    if ts != [] {
      PrintsShort(ts[0]);
      AllPrintShort(ts[1..]);
    }
  }

  /** The printer takes a parsed tree back if and only if no name fills its field. */
  lemma ParsedPrintsExactly(buf: octets, off: nat)
    requires Parse(buf, off).Some?
    ensures Serialise(Parse(buf, off).value.t).Some? <==> ShortNames(Parse(buf, off).value.t)
  {
    hide Parse, Serialise, ShortNames, WellFormed;
    var t := Parse(buf, off).value.t;
    if Serialise(t).Some? { PrintsShort(t); }
    if ShortNames(t) {
      ParsedIsWellFormed(buf, off);
      NodeRoundTrip([], t, []);
    }
  }

  /** Printing what was parsed is a normal form: it parses to the same tree with
      the placeholder bits gone, and printing that again gives the same bytes. */
  lemma PrintedIsNormal(buf: octets, off: nat)
    requires Parse(buf, off).Some? && Serialise(Parse(buf, off).value.t).Some?
    ensures var t := Parse(buf, off).value.t;
      && Parse(Serialise(t).value, 0) == Some(NodeRead(Plain(t), |Serialise(t).value|))
      && Serialise(Plain(t)) == Serialise(t)
  {
    hide Parse, Serialise, Plain;
    var t := Parse(buf, off).value.t;
    PrintsShort(t);
    ParsedIsWellFormed(buf, off);
    NodeRoundTrip([], t, []);
    assert [] + Serialise(t).value + [] == Serialise(t).value;
    PlainPrints(t);
  }

  lemma {:induction false} PlainPrints(t: Node)
    ensures Serialise(Plain(t)) == Serialise(t)
    decreases t, 1
  {
    PlainAllPrints(t.children);
  }

  lemma {:induction false} PlainAllPrints(ts: seq<Node>)
    ensures |PlainAll(ts)| == |ts| && SerialiseAll(PlainAll(ts)) == SerialiseAll(ts)
    decreases ts, 0
  {
    hide Serialise, Plain;
    if ts != [] {
      PlainPrints(ts[0]);
      PlainAllPrints(ts[1..]);
      assert PlainAll(ts)[1..] == PlainAll(ts[1..]);
    }
  }
}
