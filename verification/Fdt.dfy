/** fdt_read.py: the token loop over a flattened device tree blob. */
module Fdt {
  import opened Wrappers
  import opened Octets
  import DeviceTree

  const FDT_MAGIC := 0xD00D_FEED
  const FDT_BEGIN_NODE := 1
  const FDT_END_NODE := 2
  const FDT_PROP := 3
  const FDT_NOP := 4
  const FDT_END := 9

  /** An entry of the node list: path components, depth, properties. */
  datatype Listed = Listed(path: seq<octets>, depth: int, props: seq<DeviceTree.Prop>)

  function Big32(b: octets, i: nat): nat
    requires i + 4 <= |b|
  {
    BigEndian(b[i..i + 4])
  }

  /** bytes.index(0, from). */
  function FindNul(b: octets, from: nat): (r: Option<nat>)
    ensures r.Some? ==> from <= r.value < |b| && b[r.value] == 0 && forall k :: from <= k < r.value ==> b[k] != 0
    ensures r.None? ==> forall k :: from <= k < |b| ==> b[k] != 0
    decreases |b| - from
  {
    if from >= |b| then None else if b[from] == 0 then Some(from) else FindNul(b, from + 1)
  }

  predicate Aligned(n: int) { n % 4 == 0 }

  /** (n + 3) & ~3. */
  function Up4(n: nat): (r: nat)
    ensures n <= r < n + 4 && Aligned(r)
  {
    (n + 3) / 4 * 4
  }

  /** The loop's variables. */
  datatype Scan = Scan(pos: nat, depth: int, path: seq<octets>, nodes: seq<Listed>)

  datatype Turn = On(s: Scan) | Finished(nodes: seq<Listed>) | Raised

  function AddProp(nodes: seq<Listed>, key: octets, value: octets): (r: seq<Listed>)
    ensures |r| == |nodes|
  {
    if nodes == [] then []
    else
      var last := nodes[|nodes| - 1];
      nodes[|nodes| - 1 := last.(props := DeviceTree.SetProp(last.props, key, value))]
  }

  function BeginNode(blob: octets, s: Scan): Turn {
    match FindNul(blob, s.pos)
    case None => Raised
    case Some(end) =>
      var path := s.path + [blob[s.pos..end]];
      On(Scan(Up4(end + 1), s.depth + 1, path, s.nodes + [Listed(path, s.depth, [])]))
  }

  function EndNode(s: Scan): Turn {
    if s.path == [] then Raised else On(s.(depth := s.depth - 1, path := s.path[..|s.path| - 1]))
  }

  function Property(blob: octets, strings: octets, s: Scan): Turn {
    if s.pos + 8 > |blob| then Raised
    else
      var plen, noff, at := Big32(blob, s.pos), Big32(blob, s.pos + 4), s.pos + 8;
      match FindNul(strings, noff)
      case None => Raised
      case Some(end) =>
        On(s.(pos := Up4(at + plen), nodes := AddProp(s.nodes, strings[noff..end], Clipped(blob, at, at + plen))))
  }

  /** One turn of the loop: a token, and what it stands for. */
  function Token(blob: octets, strings: octets, s: Scan): (t: Turn)
    ensures t.On? ==> t.s.pos >= s.pos + 4
  {
    if s.pos + 4 > |blob| then Raised
    else
      var tok, s1 := Big32(blob, s.pos), s.(pos := s.pos + 4);
      if tok == FDT_BEGIN_NODE then BeginNode(blob, s1)
      else if tok == FDT_END_NODE then EndNode(s1)
      else if tok == FDT_PROP then Property(blob, strings, s1)
      else if tok == FDT_NOP then On(s1)
      else if tok == FDT_END then Finished(s.nodes)
      else Raised
  }

  /** The loop from a state on; None where the source raises. */
  function From(blob: octets, strings: octets, limit: nat, s: Scan): Option<seq<Listed>>
    decreases limit - s.pos
  {
    if s.pos >= limit then Some(s.nodes)
    else
      match Token(blob, strings, s)
      case Raised => None
      case Finished(nodes) => Some(nodes)
      case On(s1) => From(blob, strings, limit, s1)
  }

  const START: Scan := Scan(0, 0, [], [])

  function ParseSpec(blob: octets): Option<seq<Listed>> {
    if |blob| < 40 || Big32(blob, 0) != FDT_MAGIC then None
    else
      var offStruct, offStrings, sizeStrings, sizeStruct :=
        Big32(blob, 8), Big32(blob, 12), Big32(blob, 32), Big32(blob, 36);
      From(blob, Clipped(blob, offStrings, offStrings + sizeStrings), offStruct + sizeStruct, START.(pos := offStruct))
  }

  /** parse. At every turn the depth is the number of open nodes. */
  method Parse(blob: octets) returns (r: Option<seq<Listed>>)
    ensures r == ParseSpec(blob)
    ensures r.Some? ==> Levelled(r.value)
  {
    hide From, Token, Big32;
    if |blob| < 40 || Big32(blob, 0) != FDT_MAGIC { return None; }
    var offStruct, offStrings, sizeStrings, sizeStruct :=
      Big32(blob, 8), Big32(blob, 12), Big32(blob, 32), Big32(blob, 36);
    var strings := Clipped(blob, offStrings, offStrings + sizeStrings);
    var limit := offStruct + sizeStruct;
    var s := START.(pos := offStruct);
    while s.pos < limit
      invariant From(blob, strings, limit, s) == From(blob, strings, limit, START.(pos := offStruct))
      invariant s.depth == |s.path| && Levelled(s.nodes)
      decreases limit - s.pos
    {
      FromStep(blob, strings, limit, s);
      TokenKeepsDepth(blob, strings, s);
      match Token(blob, strings, s) {
        case Raised => return None;
        case Finished(nodes) => return Some(nodes);
        case On(s1) => s := s1;
      }
    }
    FromStep(blob, strings, limit, s);
    return Some(s.nodes);
  }

  lemma FromStep(blob: octets, strings: octets, limit: nat, s: Scan)
    ensures s.pos >= limit ==> From(blob, strings, limit, s) == Some(s.nodes)
    ensures s.pos < limit ==>
      var t := Token(blob, strings, s);
      From(blob, strings, limit, s) == if t.Raised? then None
        else if t.Finished? then Some(t.nodes) else From(blob, strings, limit, t.s)
  {
    hide Token;
  }

  ghost predicate Levelled(nodes: seq<Listed>) { forall n <- nodes :: n.depth == |n.path| - 1 }

  /** The depth is the height of the stack of open nodes, and is what each node is listed with. */
  lemma TokenKeepsDepth(blob: octets, strings: octets, s: Scan)
    requires s.depth == |s.path| && Levelled(s.nodes)
    ensures Token(blob, strings, s).Finished? ==> Levelled(Token(blob, strings, s).nodes)
    ensures Token(blob, strings, s).On? ==>
      Token(blob, strings, s).s.depth == |Token(blob, strings, s).s.path| && Levelled(Token(blob, strings, s).s.nodes)
  {
    hide Big32, Clipped;
  }

  // ---- trees and their tokens (Devicetree Specification, section 5.4) ----

  datatype Ref = Ref(noff: nat, key: octets, value: octets)

  datatype Tree = Tree(name: octets, props: seq<Ref>, children: seq<Tree>)

  datatype Tok = Begin(name: octets) | End | Prop(ref: Ref) | Nop | Fin

  ghost predicate KeyAt(strings: octets, noff: nat, key: octets) {
    && noff + |key| < |strings| && strings[noff..noff + |key|] == key && strings[noff + |key|] == 0
    && forall k :: 0 <= k < |key| ==> key[k] != 0
  }

  /** Names hold no NUL, and each property name is in the strings block. */
  ghost predicate ValidTok(strings: octets, t: Tok) {
    match t
    case Begin(name) => forall k :: 0 <= k < |name| ==> name[k] != 0
    case Prop(ref) => |ref.value| < 0x1_0000_0000 && ref.noff < 0x1_0000_0000 && KeyAt(strings, ref.noff, ref.key)
    case _ => true
  }

  function Big4(n: nat): (b: octets)
    requires n < 0x1_0000_0000
    ensures |b| == 4
  {
    assert Pow256(4) == 0x1_0000_0000 by {
      assert Pow256(1) == 0x100 && Pow256(2) == 0x1_0000 && Pow256(3) == 0x100_0000;
    }
    PutBig(n, 4)
  }

  /** A payload padded to whole words, with extra zeros first. */
  function Padded(b: octets, extra: nat): (r: octets)
    ensures |r| == Up4(|b| + extra) && b <= r && forall k :: |b| <= k < |r| ==> r[k] == 0
  {
    b + Zeros(Up4(|b| + extra) - |b|)
  }

  function EncodeTok(t: Tok): (b: octets)
    requires t.Prop? ==> |t.ref.value| < 0x1_0000_0000 && t.ref.noff < 0x1_0000_0000
    ensures |b| >= 4 && Aligned(|b|)
  {
    hide Big4, Padded, Up4;
    match t
    case Begin(name) => Big4(1) + Padded(name, 1)
    case End => Big4(2)
    case Prop(ref) => Big4(3) + (Big4(|ref.value|) + Big4(ref.noff)) + Padded(ref.value, 0)
    case Nop => Big4(4)
    case Fin => Big4(9)
  }

  function EncodeToks(strings: octets, ts: seq<Tok>): (b: octets)
    requires forall t <- ts :: ValidTok(strings, t)
  {
    if ts == [] then []
    else
      assert ValidTok(strings, ts[0]) && forall t <- ts[1..] :: t in ts;
      EncodeTok(ts[0]) + EncodeToks(strings, ts[1..])
  }

  /** What one token does to the open path and the list. */
  function Do(ts: seq<Tok>, path: seq<octets>, nodes: seq<Listed>): Option<seq<Listed>>
    decreases |ts|
  {
    if ts == [] then Some(nodes)
    else
      match ts[0]
      case Begin(name) => Do(ts[1..], path + [name], nodes + [Listed(path + [name], |path|, [])])
      case End => if path == [] then None else Do(ts[1..], path[..|path| - 1], nodes)
      case Prop(ref) => Do(ts[1..], path, AddProp(nodes, ref.key, ref.value))
      case Nop => Do(ts[1..], path, nodes)
      case Fin => Some(nodes)
  }

  // ---- the scan does what the tokens say ----

  lemma Big4Reads(b: octets, i: nat, n: nat)
    requires n < 0x1_0000_0000 && i + 4 <= |b| && b[i..i + 4] == Big4(n)
    ensures Big32(b, i) == n
  {
    assert Pow256(4) == 0x1_0000_0000 by {
      assert Pow256(1) == 0x100 && Pow256(2) == 0x1_0000 && Pow256(3) == 0x100_0000;
    }
    BigReadsBack(n, 4);
  }

  lemma {:induction false} NulIsAt(b: octets, from: nat, at: nat)
    requires from <= at < |b| && b[at] == 0 && forall k :: from <= k < at ==> b[k] != 0
    ensures FindNul(b, from) == Some(at)
    decreases at - from
  {
    if from < at { NulIsAt(b, from + 1, at); }
  }

  lemma TagReads(blob: octets, pos: nat, n: nat, rest: octets)
    requires n < 0x1_0000_0000 && Has(blob, pos, Big4(n) + rest)
    ensures pos + 4 <= |blob| && Big32(blob, pos) == n && Has(blob, pos + 4, rest)
  {
    hide Big4, Big32;
    HasParts(blob, pos, Big4(n), rest);
    Big4Reads(blob, pos, n);
  }

  /** A padded name in the blob is NUL-terminated there. */
  lemma NameLies(blob: octets, pos: nat, name: octets)
    requires Has(blob, pos, Padded(name, 1)) && forall k :: 0 <= k < |name| ==> name[k] != 0
    ensures KeyAt(blob, pos, name)
  {
    var b := Padded(name, 1);
    HasAt(blob, pos, b, |name|);
    assert blob[pos..pos + |name|] == blob[pos..pos + |b|][..|name|] == name;
  }

  lemma Advance(pos: nat)
    requires Aligned(pos)
    ensures Aligned(pos + 4)
  {
  }

  lemma AlignedEnd(pos: nat, n: nat)
    requires Aligned(pos)
    ensures Up4(pos + n) == pos + Up4(n)
  {
  }

  lemma BeginReads(blob: octets, s: Scan, name: octets)
    requires Aligned(s.pos) && Has(blob, s.pos, Padded(name, 1)) && forall k :: 0 <= k < |name| ==> name[k] != 0
    ensures BeginNode(blob, s)
      == On(Scan(s.pos + |Padded(name, 1)|, s.depth + 1, s.path + [name],
                 s.nodes + [Listed(s.path + [name], s.depth, [])]))
  {
    hide FindNul, Has, Padded, KeyAt, Up4;
    NameLies(blob, s.pos, name);
    KeyReads(blob, s.pos, name);
    AlignedEnd(s.pos, |name| + 1);
  }

  lemma KeyReads(strings: octets, noff: nat, key: octets)
    requires KeyAt(strings, noff, key)
    ensures FindNul(strings, noff) == Some(noff + |key|) && strings[noff..noff + |key|] == key
  {
    hide FindNul;
    forall k | noff <= k < noff + |key| ensures strings[k] != 0 { assert strings[k] == key[k - noff]; }
    NulIsAt(strings, noff, noff + |key|);
  }

  lemma ValueReads(blob: octets, at: nat, value: octets)
    requires Has(blob, at, Padded(value, 0))
    ensures Clipped(blob, at, at + |value|) == value
  {
    var b := Padded(value, 0);
    assert blob[at..at + |value|] == blob[at..at + |b|][..|value|] == value;
  }

  lemma PropertyReads(blob: octets, strings: octets, s: Scan, ref: Ref)
    requires Aligned(s.pos) && ValidTok(strings, Prop(ref))
      && Has(blob, s.pos, (Big4(|ref.value|) + Big4(ref.noff)) + Padded(ref.value, 0))
    ensures Property(blob, strings, s)
      == On(s.(pos := s.pos + 8 + |Padded(ref.value, 0)|, nodes := AddProp(s.nodes, ref.key, ref.value)))
  {
    hide Big4, Big32, AddProp, FindNul, Has, KeyAt, Clipped, Up4, Aligned, Padded;
    Advance(s.pos);
    Advance(s.pos + 4);
    AlignedEnd(s.pos + 8, |ref.value|);
    HasParts(blob, s.pos, Big4(|ref.value|) + Big4(ref.noff), Padded(ref.value, 0));
    TagReads(blob, s.pos, |ref.value|, Big4(ref.noff));
    Alone(blob, s.pos + 4, ref.noff);
    KeyReads(strings, ref.noff, ref.key);
    ValueReads(blob, s.pos + 8, ref.value);
  }

  /** What a token does to the loop's variables. */
  function Act(t: Tok, s: Scan, next: nat): Turn {
    match t
    case Begin(name) => On(Scan(next, s.depth + 1, s.path + [name], s.nodes + [Listed(s.path + [name], s.depth, [])]))
    case End => if s.path == [] then Raised else On(Scan(next, s.depth - 1, s.path[..|s.path| - 1], s.nodes))
    case Prop(ref) => On(s.(pos := next, nodes := AddProp(s.nodes, ref.key, ref.value)))
    case Nop => On(s.(pos := next))
    case Fin => Finished(s.nodes)
  }

  /** Which tag leads where. */
  lemma TurnByTag(blob: octets, strings: octets, s: Scan, n: nat)
    requires s.pos + 4 <= |blob| && Big32(blob, s.pos) == n
    ensures n == FDT_BEGIN_NODE ==> Token(blob, strings, s) == BeginNode(blob, s.(pos := s.pos + 4))
    ensures n == FDT_END_NODE ==> Token(blob, strings, s) == EndNode(s.(pos := s.pos + 4))
    ensures n == FDT_PROP ==> Token(blob, strings, s) == Property(blob, strings, s.(pos := s.pos + 4))
    ensures n == FDT_NOP ==> Token(blob, strings, s) == On(s.(pos := s.pos + 4))
    ensures n == FDT_END ==> Token(blob, strings, s) == Finished(s.nodes)
  {
    hide BeginNode, EndNode, Property, Big32;
  }

  /** One encoded token, read and acted on. */
  lemma TokReads(blob: octets, strings: octets, s: Scan, t: Tok)
    requires Aligned(s.pos) && ValidTok(strings, t) && Has(blob, s.pos, EncodeTok(t))
    ensures Token(blob, strings, s) == Act(t, s, s.pos + |EncodeTok(t)|)
  {
    hide *;
    if t.Begin? {
      BeginTokReads(blob, strings, s, t.name);
    } else if t.Prop? {
      PropTokReads(blob, strings, s, t.ref);
    } else {
      BareTokReads(blob, strings, s, t);
    }
  }

  lemma BeginTokReads(blob: octets, strings: octets, s: Scan, name: octets)
    requires Aligned(s.pos) && ValidTok(strings, Begin(name)) && Has(blob, s.pos, EncodeTok(Begin(name)))
    ensures Token(blob, strings, s) == Act(Begin(name), s, s.pos + |EncodeTok(Begin(name))|)
  {
    hide Big4, Big32, Padded, BeginNode, Has, Token, Aligned;
    Advance(s.pos);
    TagReads(blob, s.pos, FDT_BEGIN_NODE, Padded(name, 1));
    TurnByTag(blob, strings, s, FDT_BEGIN_NODE);
    BeginReads(blob, s.(pos := s.pos + 4), name);
  }

  lemma BareTokReads(blob: octets, strings: octets, s: Scan, t: Tok)
    requires !t.Begin? && !t.Prop? && Has(blob, s.pos, EncodeTok(t))
    ensures Token(blob, strings, s) == Act(t, s, s.pos + |EncodeTok(t)|)
  {
    hide Big4, Big32, Has, Token;
    var n := if t.End? then FDT_END_NODE else if t.Nop? then FDT_NOP else FDT_END;
    Alone(blob, s.pos, n);
    TurnByTag(blob, strings, s, n);
  }

  /** What follows the tag of a property. */
  function PropBody(ref: Ref): (b: octets)
    requires |ref.value| < 0x1_0000_0000 && ref.noff < 0x1_0000_0000
    ensures |b| == 8 + |Padded(ref.value, 0)|
  {
    (Big4(|ref.value|) + Big4(ref.noff)) + Padded(ref.value, 0)
  }

  lemma PropTokIs(strings: octets, ref: Ref)
    requires ValidTok(strings, Prop(ref))
    ensures |ref.value| < 0x1_0000_0000 && ref.noff < 0x1_0000_0000
    ensures EncodeTok(Prop(ref)) == Big4(FDT_PROP) + PropBody(ref)
    ensures |EncodeTok(Prop(ref))| == 12 + |Padded(ref.value, 0)|
  {
    hide Big4, Padded;
    var b, p := Big4(|ref.value|) + Big4(ref.noff), Padded(ref.value, 0);
    assert Big4(FDT_PROP) + b + p == Big4(FDT_PROP) + (b + p);
  }

  lemma BodyReads(blob: octets, strings: octets, s: Scan, ref: Ref)
    requires Aligned(s.pos) && ValidTok(strings, Prop(ref))
    requires |ref.value| < 0x1_0000_0000 && ref.noff < 0x1_0000_0000 && Has(blob, s.pos, PropBody(ref))
    ensures Property(blob, strings, s)
      == On(s.(pos := s.pos + 8 + |Padded(ref.value, 0)|, nodes := AddProp(s.nodes, ref.key, ref.value)))
  {
    hide Has, Property, AddProp, Padded, Big4, ValidTok;
    PropertyReads(blob, strings, s, ref);
  }

  lemma ActProp(ref: Ref, s: Scan, next: nat)
    ensures Act(Prop(ref), s, next) == On(s.(pos := next, nodes := AddProp(s.nodes, ref.key, ref.value)))
  {
  }

  lemma PropTokReads(blob: octets, strings: octets, s: Scan, ref: Ref)
    requires Aligned(s.pos) && ValidTok(strings, Prop(ref)) && Has(blob, s.pos, EncodeTok(Prop(ref)))
    ensures Token(blob, strings, s) == Act(Prop(ref), s, s.pos + |EncodeTok(Prop(ref))|)
  {
    PropTokIs(strings, ref);
    hide *;
    TagReads(blob, s.pos, FDT_PROP, PropBody(ref));
    TurnByTag(blob, strings, s, FDT_PROP);
    Advance(s.pos);
    BodyReads(blob, strings, s.(pos := s.pos + 4), ref);
    ActProp(ref, s, s.pos + |EncodeTok(Prop(ref))|);
  }

  lemma Alone(blob: octets, pos: nat, n: nat)
    requires n < 0x1_0000_0000 && Has(blob, pos, Big4(n))
    ensures pos + 4 <= |blob| && Big32(blob, pos) == n
  {
    hide Big4, Big32;
    assert Big4(n) + [] == Big4(n);
    TagReads(blob, pos, n, []);
  }

  lemma DoActs(ts: seq<Tok>, s: Scan, next: nat)
    requires ts != [] && s.depth == |s.path|
    ensures
      var r := Act(ts[0], s, next);
      && Do(ts, s.path, s.nodes)
         == (if r.Raised? then None else if r.Finished? then Some(r.nodes) else Do(ts[1..], r.s.path, r.s.nodes))
      && (r.On? ==> r.s.pos == next && r.s.depth == |r.s.path|) && (r.On? ==> ts[0] != Fin)
  {
    hide AddProp;
  }

  lemma Sum4(a: nat, b: nat)
    requires Aligned(a) && Aligned(b)
    ensures Aligned(a + b)
  {
  }

  lemma FinLater(ts: seq<Tok>)
    requires Fin in ts && ts[0] != Fin
    ensures Fin in ts[1..]
  {
    assert ts == [ts[0]] + ts[1..];
  }

  /** From any aligned position the loop does what the tokens there say. */
  lemma {:induction false} ScanDoes(blob: octets, strings: octets, limit: nat, s: Scan, ts: seq<Tok>)
    requires Aligned(s.pos) && s.depth == |s.path| && (forall t <- ts :: ValidTok(strings, t)) && Fin in ts
    requires Has(blob, s.pos, EncodeToks(strings, ts)) && s.pos + |EncodeToks(strings, ts)| <= limit
    ensures From(blob, strings, limit, s) == Do(ts, s.path, s.nodes)
    decreases |ts|
  {
    hide *;
    var t, rest := ts[0], ts[1..];
    FirstToken(strings, ts);
    HasParts(blob, s.pos, EncodeTok(t), EncodeToks(strings, rest));
    TokReads(blob, strings, s, t);
    FromStep(blob, strings, limit, s);
    DoActs(ts, s, s.pos + |EncodeTok(t)|);
    var r := Token(blob, strings, s);
    if r.On? {
      FinLater(ts);
      Sum4(s.pos, |EncodeTok(t)|);
      ScanDoes(blob, strings, limit, r.s, rest);
    }
  }

  lemma FirstToken(strings: octets, ts: seq<Tok>)
    requires ts != [] && forall t <- ts :: ValidTok(strings, t)
    ensures ValidTok(strings, ts[0]) && forall t <- ts[1..] :: ValidTok(strings, t)
    ensures ts[0].Prop? ==> |ts[0].ref.value| < 0x1_0000_0000 && ts[0].ref.noff < 0x1_0000_0000
    ensures EncodeToks(strings, ts) == EncodeTok(ts[0]) + EncodeToks(strings, ts[1..])
    ensures |EncodeToks(strings, ts)| == |EncodeTok(ts[0])| + |EncodeToks(strings, ts[1..])|
      && Aligned(|EncodeTok(ts[0])|) && |EncodeTok(ts[0])| >= 4
  {
    assert ValidTok(strings, ts[0]) && forall t <- ts[1..] :: t in ts;
    assert ts[0].Prop? ==> |ts[0].ref.value| < 0x1_0000_0000 && ts[0].ref.noff < 0x1_0000_0000;
    hide ValidTok, EncodeTok;
  }

  // ---- NOPs change nothing ----

  function Strip(ts: seq<Tok>): seq<Tok> {
    if ts == [] then [] else if ts[0] == Nop then Strip(ts[1..]) else [ts[0]] + Strip(ts[1..])
  }

  lemma {:induction false} NopsAreInvisible(ts: seq<Tok>, path: seq<octets>, nodes: seq<Listed>)
    ensures Do(ts, path, nodes) == Do(Strip(ts), path, nodes)
    decreases |ts|
  {
    hide AddProp;
    if ts != [] {
      var t, rest := ts[0], ts[1..];
      if t != Nop { assert Strip(ts)[1..] == Strip(rest) && Strip(ts)[0] == t; }
      match t {
        case Begin(name) => NopsAreInvisible(rest, path + [name], nodes + [Listed(path + [name], |path|, [])]);
        case End => if path != [] { NopsAreInvisible(rest, path[..|path| - 1], nodes); }
        case Prop(ref) => NopsAreInvisible(rest, path, AddProp(nodes, ref.key, ref.value));
        case Nop => NopsAreInvisible(rest, path, nodes);
        case Fin =>
      }
    }
  }

  // ---- a flattened tree lists its preorder ----

  function PropToks(props: seq<Ref>): seq<Tok> { if props == [] then [] else [Prop(props[0])] + PropToks(props[1..]) }

  /** Properties first, then the children. */
  function Flatten(t: Tree): seq<Tok>
    decreases t, 1
  {
    [Begin(t.name)] + (PropToks(t.props) + (FlattenAll(t.children) + [End]))
  }

  function FlattenAll(ts: seq<Tree>): seq<Tok>
    decreases ts, 0
  {
    if ts == [] then [] else Flatten(ts[0]) + FlattenAll(ts[1..])
  }

  /** The properties as a dictionary built up in order. */
  function Dict(props: seq<Ref>, done: seq<DeviceTree.Prop>): seq<DeviceTree.Prop>
    decreases |props|
  {
    if props == [] then done else Dict(props[1..], DeviceTree.SetProp(done, props[0].key, props[0].value))
  }

  function Preorder(t: Tree, path: seq<octets>): seq<Listed>
    decreases t, 1
  {
    [Listed(path + [t.name], |path|, Dict(t.props, []))] + PreorderAll(t.children, path + [t.name])
  }

  function PreorderAll(ts: seq<Tree>, path: seq<octets>): seq<Listed>
    decreases ts, 0
  {
    if ts == [] then [] else Preorder(ts[0], path) + PreorderAll(ts[1..], path)
  }

  lemma {:induction false} PropsAreDone(props: seq<Ref>, rest: seq<Tok>, path: seq<octets>, nodes: seq<Listed>,
    l: Listed)
    ensures Do(PropToks(props) + rest, path, nodes + [l]) == Do(rest, path, nodes + [l.(props := Dict(props, l.props))])
    decreases |props|
  {
    var ts := PropToks(props) + rest;
    if props == [] {
      assert ts == rest;
    } else {
      var p := props[0];
      assert ts[0] == Prop(p) && ts[1..] == PropToks(props[1..]) + rest;
      var l1 := l.(props := DeviceTree.SetProp(l.props, p.key, p.value));
      assert AddProp(nodes + [l], p.key, p.value) == nodes + [l1];
      PropsAreDone(props[1..], rest, path, nodes, l1);
    }
  }

  lemma {:induction false} TreeIsListed(t: Tree, rest: seq<Tok>, path: seq<octets>, nodes: seq<Listed>)
    ensures Do(Flatten(t) + rest, path, nodes) == Do(rest, path, nodes + Preorder(t, path))
    decreases t, 1
  {
    var inner := path + [t.name];
    var l := Listed(inner, |path|, []);
    var kids := FlattenAll(t.children);
    var l1 := l.(props := Dict(t.props, []));
    TokensRegroup(t, rest);
    BeginIsDone(t.name, PropToks(t.props) + (kids + ([End] + rest)), path, nodes);
    hide Do, Dict, AddProp, PropToks, FlattenAll;
    PropsAreDone(t.props, kids + ([End] + rest), inner, nodes, l);
    ForestIsListed(t.children, [End] + rest, inner, nodes + [l1]);
    EndIsDone(rest, inner, nodes + [l1] + PreorderAll(t.children, inner));
    assert inner[..|inner| - 1] == path;
    assert nodes + [l1] + PreorderAll(t.children, inner) == nodes + Preorder(t, path);
  }

  lemma TokensRegroup(t: Tree, rest: seq<Tok>)
    ensures Flatten(t) + rest == [Begin(t.name)] + (PropToks(t.props) + (FlattenAll(t.children) + ([End] + rest)))
  {
    hide PropToks, FlattenAll;
  }

  lemma BeginIsDone(name: octets, rest: seq<Tok>, path: seq<octets>, nodes: seq<Listed>)
    ensures Do([Begin(name)] + rest, path, nodes)
      == Do(rest, path + [name], nodes + [Listed(path + [name], |path|, [])])
  {
    assert ([Begin(name)] + rest)[1..] == rest;
  }

  lemma EndIsDone(rest: seq<Tok>, path: seq<octets>, nodes: seq<Listed>)
    requires path != []
    ensures Do([End] + rest, path, nodes) == Do(rest, path[..|path| - 1], nodes)
  {
    assert ([End] + rest)[1..] == rest;
  }

  lemma {:induction false} ForestIsListed(ts: seq<Tree>, rest: seq<Tok>, path: seq<octets>, nodes: seq<Listed>)
    ensures Do(FlattenAll(ts) + rest, path, nodes) == Do(rest, path, nodes + PreorderAll(ts, path))
    decreases ts, 0
  {
    hide Do, Flatten, Preorder;
    if ts == [] {
      assert FlattenAll(ts) + rest == rest && nodes + PreorderAll(ts, path) == nodes;
    } else {
      assert FlattenAll(ts) + rest == Flatten(ts[0]) + (FlattenAll(ts[1..]) + rest);
      TreeIsListed(ts[0], FlattenAll(ts[1..]) + rest, path, nodes);
      ForestIsListed(ts[1..], rest, path, nodes + Preorder(ts[0], path));
      assert nodes + Preorder(ts[0], path) + PreorderAll(ts[1..], path) == nodes + PreorderAll(ts, path);
    }
  }

  /** A blob whose structure block is that tree, with NOPs anywhere. */
  ghost predicate Flattened(blob: octets, t: Tree, toks: seq<Tok>) {
    && |blob| >= 40 && Big32(blob, 0) == 0xD00D_FEED && Aligned(Big32(blob, 8))
    && var strings := Clipped(blob, Big32(blob, 12), Big32(blob, 12) + Big32(blob, 32));
       && (forall u <- toks :: ValidTok(strings, u)) && Strip(toks) == Flatten(t) + [Fin]
       && Has(blob, Big32(blob, 8), EncodeToks(strings, toks)) && |EncodeToks(strings, toks)| <= Big32(blob, 36)
  }

  /** Parsing a flattened tree lists its nodes in preorder, with their paths,
      depths and properties. */
  lemma ParseListsPreorder(blob: octets, t: Tree, toks: seq<Tok>)
    requires Flattened(blob, t, toks)
    ensures ParseSpec(blob) == Some(Preorder(t, []))
  {
    hide From, Big32, Do, Flatten, Preorder, EncodeToks, ValidTok, Has;
    var strings := Clipped(blob, Big32(blob, 12), Big32(blob, 12) + Big32(blob, 32));
    StripKeepsFin(toks);
    assert (Flatten(t) + [Fin])[|Flatten(t)|] == Fin;
    var off := Big32(blob, 8);
    ScanDoes(blob, strings, off + Big32(blob, 36), START.(pos := off), toks);
    NopsAreInvisible(toks, [], []);
    TreeIsListed(t, [Fin], [], []);
    FinIsDone([] + Preorder(t, []));
    assert [] + Preorder(t, []) == Preorder(t, []);
  }

  lemma {:induction false} StripKeepsFin(ts: seq<Tok>)
    ensures Fin in Strip(ts) <==> Fin in ts
    decreases |ts|
  {
    if ts != [] {
      StripKeepsFin(ts[1..]);
      assert ts == [ts[0]] + ts[1..];
    }
  }

  lemma FinIsDone(nodes: seq<Listed>)
    ensures Do([Fin], [], nodes) == Some(nodes)
  {
  }
}
