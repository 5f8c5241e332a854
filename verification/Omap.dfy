/** apfs_omap.py: the object-map B-tree walk, against a flat list of mappings. */
module Omap {
  import opened Wrappers
  import opened Octets
  import opened Fletcher

  const LEAF := 2
  const INFO_SIZE := 40

  /** Block contents by number; a read past the end comes back empty. */
  type Disk = nat -> octets

  /** Python slicing: negative bounds count from the end, and all are clipped. */
  function Clip(i: int, n: nat): nat {
    if i < 0 then if i + n < 0 then 0 else i + n else if i > n then n else i
  }

  function Slice(b: octets, i: int, j: int): octets {
    var lo, hi := Clip(i, |b|), Clip(j, |b|);
    if lo <= hi then b[lo..hi] else []
  }

  predicate Between(lo: int, k: int, hi: int) { lo <= k < hi }

  /** A slice keeps the bytes whose place is between the bounds, in order; a negative
      bound counts from the end. */
  lemma SliceKeeps(b: octets, i: int, j: int) returns (lo: nat)
    ensures
      var from, to := if i < 0 then i + |b| else i, if j < 0 then j + |b| else j;
      && lo + |Slice(b, i, j)| <= |b| && Slice(b, i, j) == b[lo..lo + |Slice(b, i, j)|]
      && forall k :: 0 <= k < |b| ==> (Between(lo, k, lo + |Slice(b, i, j)|) <==> Between(from, k, to))
  {
    lo := if Clip(i, |b|) <= Clip(j, |b|) then Clip(i, |b|) else 0;
  }

  datatype Entry = Entry(key: octets, val: octets)

  predicate Bit(flags: nat, k: nat)
    requires k > 0
  {
    flags / k % 2 == 1
  }

  /** Entry i of a node; None where unpack_from raises. */
  function EntryAt(node: octets, i: nat): Option<Entry>
    requires |node| >= 44
  {
    var flags, tocOff, tocLen := Word16(node, 32), Word16(node, 40), Word16(node, 42);
    var keyBase := 56 + tocOff + tocLen;
    var valBase := |node| - (if Bit(flags, 1) then INFO_SIZE else 0);
    if Bit(flags, 4) then
      var at := 56 + tocOff + 4 * i;
      if at + 4 > |node| then None
      else
        var kstart, vstart := keyBase + Word16(node, at), valBase - Word16(node, at + 2);
        Some(Entry(Slice(node, kstart, kstart + 16), Slice(node, vstart, vstart + if Bit(flags, LEAF) then 16 else 8)))
    else
      var at := 56 + tocOff + 8 * i;
      if at + 8 > |node| then None
      else
        var kstart, vstart := keyBase + Word16(node, at), valBase - Word16(node, at + 4);
        Some(Entry(Slice(node, kstart, kstart + Word16(node, at + 2)),
          Slice(node, vstart, vstart + Word16(node, at + 6))))
  }

  /** Object id and transaction id, in lexicographic order. */
  datatype Key = Key(oid: nat, xid: nat)

  predicate AtMost(a: Key, b: Key) { a.oid < b.oid || (a.oid == b.oid && a.xid <= b.xid) }
  predicate Before(a: Key, b: Key) { a.oid < b.oid || (a.oid == b.oid && a.xid < b.xid) }

  function KeyOf(key: octets): Key
    requires |key| >= 16
  {
    Key(Word64(key, 0), Word64(key, 8))
  }

  datatype Mapping = Mapping(paddr: nat, flags: nat, size: nat, xid: nat)

  datatype Lookup =
    | Found(m: Mapping)
    | BadChecksum(block: nat)
    | NoEntry               // nothing at or below the target in some node
    | OtherObject(oid: nat) // the nearest leaf entry belongs to another object
    | Crashed                // a struct.error escapes
    | Running               // the walk has not ended within the fuel

  datatype Best = Nothing | Candidate(key: Key, val: octets) | Broken

  /** The scan of one node: the last entry not above the target. */
  function Scan(node: octets, target: Key, i: nat, n: nat, best: Best): Best
    requires |node| >= 44 && i <= n
    decreases n - i
  {
    if i == n || best.Broken? then best
    else
      match EntryAt(node, i)
      case None => Broken
      case Some(e) =>
        if |e.key| < 16 || !AtMost(KeyOf(e.key), target) then Scan(node, target, i + 1, n, best)
        else Scan(node, target, i + 1, n, Candidate(KeyOf(e.key), e.val))
  }

  datatype Visit = Done(r: Lookup) | Descend(child: nat)

  /** One turn of the loop on a node already in hand. */
  function VisitNode(node: octets, oid: nat, limit: nat): Visit {
    if |node| < 44 then Done(Crashed)
    else Settle(Scan(node, Key(oid, limit), 0, Word32(node, 36), Nothing), Bit(Word16(node, 32), LEAF), oid)
  }

  /** What the best entry of a node leads to. */
  function Settle(best: Best, leaf: bool, oid: nat): Visit {
    match best
    case Broken => Done(Crashed)
    case Nothing => Done(NoEntry)
    case Candidate(key, val) =>
      if leaf then
        if key.oid != oid then Done(OtherObject(key.oid))
        else if |val| < 16 then Done(Crashed)
        else Done(Found(Mapping(Word64(val, 8), Word32(val, 0), Word32(val, 4), key.xid)))
      else if |val| < 8 then Done(Crashed)
      else Descend(Word64(val, 0))
  }

  /** Reading a block and checking it raises when it is too short to hold a
      checksum or does not divide into words. */
  predicate Readable(b: octets) { |b| >= 8 && |b| % 4 == 0 }

  /** The whole walk from block n, for at most `fuel` descents. */
  function Walk(disk: Disk, n: nat, oid: nat, limit: nat, fuel: nat): Lookup
    decreases fuel
  {
    if !Readable(disk(n)) then Crashed
    else if !Verifies(disk(n)) then BadChecksum(n)
    else
      match VisitNode(disk(n), oid, limit)
      case Done(r) => r
      case Descend(child) => if fuel == 0 then Running else Walk(disk, child, oid, limit, fuel - 1)
  }

  /** `omap_lookup`, for walks that end; the source loops forever on the others. */
  method OmapLookup(disk: Disk, root: nat, oid: nat, limit: nat, ghost fuel: nat) returns (r: Lookup)
    requires Walk(disk, root, oid, limit, fuel) != Running
    ensures r == Walk(disk, root, oid, limit, fuel)
  {
    hide VisitNode, Checksum, Word64;
    var node := disk(root);
    if !Readable(node) { return Crashed; }
    var sum := Fletcher64(node);
    if sum != Some(Word64(node, 0)) { return BadChecksum(root); }
    ghost var at, left := root, fuel;
    while true
      invariant node == disk(at) && Readable(node) && Verifies(node)
      invariant Walk(disk, at, oid, limit, left) == Walk(disk, root, oid, limit, fuel)
      decreases left
    {
      var visit := VisitLoop(node, oid, limit);
      if visit.Done? { return visit.r; }
      var child := visit.child;
      node := disk(child);
      if !Readable(node) { return Crashed; }
      sum := Fletcher64(node);
      if sum != Some(Word64(node, 0)) { return BadChecksum(child); }
      at, left := child, left - 1;
    }
  }

  /** The body of the loop up to the next descent. */
  method VisitLoop(node: octets, oid: nat, limit: nat) returns (v: Visit)
    ensures v == VisitNode(node, oid, limit)
  {
    hide Scan, Word64, Word32;
    if |node| < 44 { return Done(Crashed); }
    var flags, nkeys := Word16(node, 32), Word32(node, 36);
    var best := ScanLoop(node, Key(oid, limit), nkeys);
    if best.Broken? { return Done(Crashed); }
    if best.Nothing? { return Done(NoEntry); }
    if Bit(flags, LEAF) {
      if best.key.oid != oid { return Done(OtherObject(best.key.oid)); }
      if |best.val| < 16 { return Done(Crashed); }
      return Done(Found(Mapping(Word64(best.val, 8), Word32(best.val, 0), Word32(best.val, 4), best.key.xid)));
    }
    if |best.val| < 8 { return Done(Crashed); }
    return Descend(Word64(best.val, 0));
  }

  /** Entry i can be read, has a whole key, and is not above the target. */
  predicate Takes(node: octets, target: Key, i: nat)
    requires |node| >= 44
  {
    EntryAt(node, i).Some? && |EntryAt(node, i).value.key| >= 16 && AtMost(KeyOf(EntryAt(node, i).value.key), target)
  }

  /** The last entry taken of the first n, where all n can be read. */
  ghost predicate LastTaken(node: octets, target: Key, n: nat, best: Best)
    requires |node| >= 44
  {
    match best
    case Broken => exists i :: 0 <= i < n && EntryAt(node, i) == None
    case Nothing => forall i :: 0 <= i < n ==> EntryAt(node, i).Some? && !Takes(node, target, i)
    case Candidate(key, val) =>
      && (forall i :: 0 <= i < n ==> EntryAt(node, i).Some?)
      && exists i :: 0 <= i < n && Takes(node, target, i) && key == KeyOf(EntryAt(node, i).value.key)
           && val == EntryAt(node, i).value.val && forall j :: i < j < n ==> !Takes(node, target, j)
  }

  method ScanLoop(node: octets, target: Key, nkeys: nat) returns (best: Best)
    requires |node| >= 44
    ensures best == Scan(node, target, 0, nkeys, Nothing) && LastTaken(node, target, nkeys, best)
  {
    hide EntryAt, KeyOf, AtMost;
    best := Nothing;
    for i := 0 to nkeys
      invariant !best.Broken? && LastTaken(node, target, i, best)
      invariant Scan(node, target, i, nkeys, best) == Scan(node, target, 0, nkeys, Nothing)
    {
      var e := EntryAt(node, i);
      if e == None { return Broken; }
      if |e.value.key| >= 16 && AtMost(KeyOf(e.value.key), target) {
        best := Candidate(KeyOf(e.value.key), e.value.val);
      }
    }
  }

  // ---- trees stored on disk ----

  datatype Item = Item(key: Key, m: Mapping)
  datatype Tree = Leaf(items: seq<Item>) | Index(kids: seq<Kid>)
  datatype Kid = Kid(key: Key, block: nat, tree: Tree)

  /** The leaf entries of a tree, left to right. */
  function Flatten(t: Tree): seq<Item>
  {
    match t case Leaf(items) => items case Index(kids) => FlattenAll(kids)
  }

  function FlattenAll(kids: seq<Kid>): seq<Item> {
    if kids == [] then [] else FlattenKid(kids[0]) + FlattenAll(kids[1..])
  }

  function FlattenKid(k: Kid): seq<Item> { Flatten(k.tree) }

  function Height(t: Tree): nat {
    match t case Leaf(_) => 0 case Index(kids) => 1 + HeightAll(kids)
  }

  function HeightAll(kids: seq<Kid>): nat {
    if kids == [] then 0
    else
      var a, b := HeightKid(kids[0]), HeightAll(kids[1..]);
      if a >= b then a else b
  }

  function HeightKid(k: Kid): nat { Height(k.tree) }

  ghost predicate Sorted(items: seq<Item>) {
    forall i, j :: 0 <= i < j < |items| ==> Before(items[i].key, items[j].key)
  }

  /** Every index key is the first key of its child. */
  ghost predicate Keyed(t: Tree) {
    match t
    case Leaf(_) => true
    case Index(kids) => forall k :: k in kids ==>
      Keyed(k.tree) && Flatten(k.tree) != [] && k.key == Flatten(k.tree)[0].key
  }

  function KeyAt(t: Tree, i: nat): Key
    requires i < Count(t)
  {
    match t case Leaf(items) => items[i].key case Index(kids) => kids[i].key
  }

  function Count(t: Tree): nat { match t case Leaf(items) => |items| case Index(kids) => |kids| }

  /** Entry i of a node says what the tree says. */
  predicate EntryHolds(t: Tree, i: nat, e: Option<Entry>)
    requires i < Count(t)
  {
    && e.Some? && |e.value.key| >= 16 && KeyOf(e.value.key) == KeyAt(t, i)
    && match t
       case Leaf(items) =>
         && |e.value.val| >= 16
         && items[i].m
            == Mapping(Word64(e.value.val, 8), Word32(e.value.val, 0), Word32(e.value.val, 4), items[i].key.xid)
       case Index(kids) => |e.value.val| >= 8 && Word64(e.value.val, 0) == kids[i].block
  }

  ghost predicate NodeHolds(node: octets, t: Tree) {
    && |node| >= 44 && Word32(node, 36) == Count(t)
    && (Bit(Word16(node, 32), LEAF) <==> t.Leaf?)
    && forall i :: 0 <= i < Count(t) ==> EntryHolds(t, i, EntryAt(node, i))
  }

  /** The tree is on disk at block n, every block with a good checksum. */
  ghost predicate OnDisk(disk: Disk, n: nat, t: Tree)
    decreases t
  {
    && Readable(disk(n)) && Verifies(disk(n)) && NodeHolds(disk(n), t)
    && (t.Index? ==> forall k :: k in t.kids ==> OnDisk(disk, k.block, k.tree))
  }

  // ---- the flat reading ----

  /** The last item not above the target. */
  function LastAtMost(items: seq<Item>, target: Key): Option<Item>
    decreases |items|
  {
    if items == [] then None
    else if AtMost(items[|items| - 1].key, target) then Some(items[|items| - 1])
    else LastAtMost(items[..|items| - 1], target)
  }

  function Verdict(it: Option<Item>, oid: nat): Lookup {
    match it
    case None => NoEntry
    case Some(item) => if item.key.oid != oid then OtherObject(item.key.oid) else Found(item.m)
  }

  /** Number of the last of the first n entries not above the target, plus one. */
  function LastIndex(t: Tree, target: Key, n: nat): (k: nat)
    requires n <= Count(t)
    ensures k <= n && (k > 0 ==> AtMost(KeyAt(t, k - 1), target))
    ensures forall j :: k <= j < n ==> !AtMost(KeyAt(t, j), target)
  {
    if n == 0 then 0 else if AtMost(KeyAt(t, n - 1), target) then n else LastIndex(t, target, n - 1)
  }

  function BestUpTo(node: octets, t: Tree, target: Key, n: nat): Best
    requires |node| >= 44 && n <= Count(t)
  {
    var k := LastIndex(t, target, n);
    if k == 0 || EntryAt(node, k - 1) == None then Nothing
    else Candidate(KeyAt(t, k - 1), EntryAt(node, k - 1).value.val)
  }

  lemma ScanStep(node: octets, target: Key, i: nat, n: nat, best: Best)
    requires |node| >= 44 && i < n && !best.Broken?
    requires EntryAt(node, i).Some? && |EntryAt(node, i).value.key| >= 16
    ensures var e := EntryAt(node, i).value;
      Scan(node, target, i, n, best)
        == Scan(node, target, i + 1, n, if AtMost(KeyOf(e.key), target) then Candidate(KeyOf(e.key), e.val) else best)
  {
    hide EntryAt, KeyOf, AtMost;
  }

  lemma BestStep(node: octets, t: Tree, target: Key, i: nat)
    requires |node| >= 44 && i < Count(t) && EntryHolds(t, i, EntryAt(node, i))
    ensures var e := EntryAt(node, i).value;
      BestUpTo(node, t, target, i + 1)
        == if AtMost(KeyOf(e.key), target) then Candidate(KeyOf(e.key), e.val) else BestUpTo(node, t, target, i)
  {
    hide EntryAt, KeyOf, AtMost, Word64, Word32;
  }

  lemma {:induction false} ScanFindsLast(node: octets, t: Tree, target: Key, i: nat)
    requires NodeHolds(node, t) && i <= Count(t)
    ensures Scan(node, target, i, Count(t), BestUpTo(node, t, target, i)) == BestUpTo(node, t, target, Count(t))
    decreases Count(t) - i
  {
    hide EntryAt, KeyOf, AtMost, LastIndex, Word64, Word32;
    if i < Count(t) {
      assert EntryHolds(t, i, EntryAt(node, i));
      ScanStep(node, target, i, Count(t), BestUpTo(node, t, target, i));
      BestStep(node, t, target, i);
      ScanFindsLast(node, t, target, i + 1);
    }
  }

  /** What one visit of a stored node does. */
  lemma VisitStored(node: octets, t: Tree, oid: nat, limit: nat)
    requires NodeHolds(node, t)
    ensures var k := LastIndex(t, Key(oid, limit), Count(t));
      VisitNode(node, oid, limit) ==
        if k == 0 then Done(NoEntry)
        else match t
          case Leaf(items) => Done(Verdict(Some(items[k - 1]), oid))
          case Index(kids) => Descend(kids[k - 1].block)
  {
    var target := Key(oid, limit);
    NodeFacts(node, t);
    hide NodeHolds, EntryAt, Scan, KeyOf, AtMost, LastIndex, Word64, Word32, Word16, Bit, EntryHolds, Settle, Verdict;
    assert BestUpTo(node, t, target, 0) == Nothing by { EmptyIndex(t, target); }
    ScanFindsLast(node, t, target, 0);
    var k := LastIndex(t, target, Count(t));
    VisitSettles(node, oid, limit);
    hide VisitNode;
    if k > 0 {
      EntrySettles(node, t, k, oid);
      assert BestUpTo(node, t, target, Count(t)) == Candidate(KeyAt(t, k - 1), EntryAt(node, k - 1).value.val);
    } else {
      NothingSettles(t.Leaf?, oid);
      assert BestUpTo(node, t, target, Count(t)) == Nothing;
    }
  }

  lemma VisitSettles(node: octets, oid: nat, limit: nat)
    requires |node| >= 44
    ensures VisitNode(node, oid, limit) ==
      Settle(Scan(node, Key(oid, limit), 0, Word32(node, 36), Nothing), Bit(Word16(node, 32), LEAF), oid)
  {
    hide Settle, Scan, Word32, Word16, Bit;
  }

  lemma EmptyIndex(t: Tree, target: Key)
    ensures LastIndex(t, target, 0) == 0
  {
  }

  lemma NothingSettles(leaf: bool, oid: nat)
    ensures Settle(Nothing, leaf, oid) == Done(NoEntry)
  {
  }

  lemma EntrySettles(node: octets, t: Tree, k: nat, oid: nat)
    requires NodeHolds(node, t) && 0 < k <= Count(t)
    ensures EntryAt(node, k - 1).Some?
    ensures Settle(Candidate(KeyAt(t, k - 1), EntryAt(node, k - 1).value.val), t.Leaf?, oid) ==
      match t case Leaf(items) => Done(Verdict(Some(items[k - 1]), oid)) case Index(kids) => Descend(kids[k - 1].block)
  {
    assert EntryHolds(t, k - 1, EntryAt(node, k - 1));
    hide EntryAt, KeyOf, Word64, Word32, NodeHolds;
  }

  lemma NodeFacts(node: octets, t: Tree)
    requires NodeHolds(node, t)
    ensures |node| >= 44 && Word32(node, 36) == Count(t) && (Bit(Word16(node, 32), LEAF) <==> t.Leaf?)
  {
    hide Word64, Word32, Word16, Bit, EntryAt, KeyOf;
  }

  // ---- the flattened list ----

  lemma {:induction false} LastAtMostAppend(a: seq<Item>, b: seq<Item>, target: Key)
    ensures LastAtMost(a + b, target) == if LastAtMost(b, target).Some? then LastAtMost(b, target)
      else LastAtMost(a, target)
    decreases |b|
  {
    hide AtMost;
    if b == [] {
      assert a + b == a;
    } else {
      assert (a + b)[..|a + b| - 1] == a + b[..|b| - 1];
      LastAtMostAppend(a, b[..|b| - 1], target);
    }
  }

  /** In a sorted list with its first key above the target, everything is. */
  lemma {:induction false} NoneAtMost(items: seq<Item>, target: Key)
    requires Sorted(items) && items != [] && !AtMost(items[0].key, target)
    ensures LastAtMost(items, target) == None
    decreases |items|
  {
    if |items| > 1 {
      assert Before(items[0].key, items[|items| - 1].key);
      NoneAtMost(items[..|items| - 1], target);
    }
  }

  lemma {:induction false} SomeAtMost(items: seq<Item>, target: Key)
    requires items != [] && AtMost(items[0].key, target)
    ensures LastAtMost(items, target).Some?
    decreases |items|
  {
    hide AtMost;
    if |items| > 1 { SomeAtMost(items[..|items| - 1], target); }
  }

  lemma {:induction false} FlattenSplit(a: seq<Kid>, b: seq<Kid>)
    ensures FlattenAll(a + b) == FlattenAll(a) + FlattenAll(b)
    decreases |a|
  {
    if a == [] {
      assert a + b == b;
    } else {
      assert (a + b)[1..] == a[1..] + b;
      FlattenSplit(a[1..], b);
    }
  }

  /** From the first key above the target on, nothing is at most the target. */
  lemma NoneFrom(t: Tree, target: Key)
    requires t.Index? && Keyed(t) && Sorted(Flatten(t))
    ensures LastAtMost(FlattenAll(t.kids[LastIndex(t, target, |t.kids|)..]), target) == None
  {
    var kids, k := t.kids, LastIndex(t, target, |t.kids|);
    var before, after := FlattenAll(kids[..k]), FlattenAll(kids[k..]);
    if k < |kids| {
      assert kids == kids[..k] + kids[k..] && kids[k] in kids;
      FlattenSplit(kids[..k], kids[k..]);
      SortedPart(before, after);
      assert after == Flatten(kids[k].tree) + FlattenAll(kids[k..][1..]);
      assert !AtMost(KeyAt(t, k), target);
      NoneAtMost(after, target);
    }
    hide AtMost, Before, LastIndex;
  }

  /** Of what lies before that key, the last subtree has the answer. */
  lemma LastKidAnswers(t: Tree, target: Key, k: nat)
    requires t.Index? && Keyed(t) && 0 < k <= |t.kids| && AtMost(KeyAt(t, k - 1), target)
    ensures LastAtMost(FlattenAll(t.kids[..k]), target) == LastAtMost(Flatten(t.kids[k - 1].tree), target)
  {
    var kids := t.kids;
    assert kids[k - 1] in kids;
    assert kids[..k] == kids[..k - 1] + [kids[k - 1]];
    FlattenSplit(kids[..k - 1], [kids[k - 1]]);
    OneKid(kids[k - 1]);
    LastAtMostAppend(FlattenAll(kids[..k - 1]), Flatten(kids[k - 1].tree), target);
    SomeAtMost(Flatten(kids[k - 1].tree), target);
    hide AtMost;
  }

  /** In an index node the answer lies below the last key not above the target. */
  lemma AnswerIsBelow(t: Tree, target: Key)
    requires t.Index? && Keyed(t) && Sorted(Flatten(t))
    ensures var k := LastIndex(t, target, |t.kids|);
      LastAtMost(Flatten(t), target) == if k == 0 then None else LastAtMost(Flatten(t.kids[k - 1].tree), target)
  {
    hide AtMost, Before, Keyed, Sorted;
    var kids, k := t.kids, LastIndex(t, target, |t.kids|);
    assert k > 0 ==> AtMost(KeyAt(t, k - 1), target);
    assert kids == kids[..k] + kids[k..];
    FlattenSplit(kids[..k], kids[k..]);
    LastAtMostAppend(FlattenAll(kids[..k]), FlattenAll(kids[k..]), target);
    NoneFrom(t, target);
    if k > 0 { LastKidAnswers(t, target, k); }
  }

  lemma OneKid(k: Kid)
    ensures FlattenAll([k]) == Flatten(k.tree)
  {
    assert [k][1..] == [];
  }

  lemma SortedPart(a: seq<Item>, b: seq<Item>)
    requires Sorted(a + b)
    ensures Sorted(a) && Sorted(b)
  {
    forall i, j | 0 <= i < j < |b| ensures Before(b[i].key, b[j].key) {
      assert (a + b)[|a| + i] == b[i] && (a + b)[|a| + j] == b[j];
    }
    forall i, j | 0 <= i < j < |a| ensures Before(a[i].key, a[j].key) {
      assert (a + b)[i] == a[i] && (a + b)[j] == a[j];
    }
  }

  lemma {:induction false} SubtreeSorted(kids: seq<Kid>, i: nat)
    requires i < |kids| && Sorted(FlattenAll(kids))
    ensures Sorted(Flatten(kids[i].tree)) && Height(kids[i].tree) <= HeightAll(kids)
    decreases |kids|
  {
    SortedPart(Flatten(kids[0].tree), FlattenAll(kids[1..]));
    if i > 0 { SubtreeSorted(kids[1..], i - 1); }
    hide Flatten, Height;
  }

  // ---- main results ----

  lemma ChildStored(disk: Disk, n: nat, t: Tree, i: nat)
    requires OnDisk(disk, n, t) && Keyed(t) && Sorted(Flatten(t)) && t.Index? && i < |t.kids|
    ensures var kid := t.kids[i];
      OnDisk(disk, kid.block, kid.tree) && Keyed(kid.tree) && Sorted(Flatten(kid.tree)) && Height(kid.tree) < Height(t)
  {
    hide NodeHolds, Verifies, Readable, Sorted;
    assert t.kids[i] in t.kids;
    SubtreeSorted(t.kids, i);
  }

  lemma NodeStored(disk: Disk, n: nat, t: Tree)
    requires OnDisk(disk, n, t)
    ensures Readable(disk(n)) && Verifies(disk(n)) && NodeHolds(disk(n), t)
  {
  }

  lemma LeafWalk(disk: Disk, n: nat, t: Tree, oid: nat, limit: nat, fuel: nat)
    requires OnDisk(disk, n, t) && t.Leaf?
    ensures Walk(disk, n, oid, limit, fuel) == Verdict(LastAtMost(Flatten(t), Key(oid, limit)), oid)
  {
    NodeStored(disk, n, t);
    VisitStored(disk(n), t, oid, limit);
    LeafAnswer(t.items, Key(oid, limit));
    hide LastIndex, VisitNode, LastAtMost, NodeHolds, Verifies, Readable, OnDisk;
  }

  /** An index node either ends the walk or hands it to one child. */
  lemma IndexWalk(disk: Disk, n: nat, t: Tree, oid: nat, limit: nat, fuel: nat) returns (k: nat)
    requires OnDisk(disk, n, t) && Keyed(t) && Sorted(Flatten(t)) && t.Index? && fuel > 0
    ensures k <= |t.kids|
    ensures LastAtMost(Flatten(t), Key(oid, limit)) == if k == 0 then None
      else LastAtMost(Flatten(t.kids[k - 1].tree), Key(oid, limit))
    ensures Walk(disk, n, oid, limit, fuel) == if k == 0 then NoEntry
      else Walk(disk, t.kids[k - 1].block, oid, limit, fuel - 1)
  {
    k := LastIndex(t, Key(oid, limit), |t.kids|);
    NodeStored(disk, n, t);
    VisitStored(disk(n), t, oid, limit);
    AnswerIsBelow(t, Key(oid, limit));
    hide LastIndex, VisitNode, LastAtMost, NodeHolds, Verifies, Readable, OnDisk, Keyed, Sorted, Flatten;
  }

  /** On a stored, keyed, sorted tree of any height the walk gives the flat verdict. */
  lemma {:induction false} WalkIsFlat(disk: Disk, n: nat, t: Tree, oid: nat, limit: nat, fuel: nat)
    requires OnDisk(disk, n, t) && Keyed(t) && Sorted(Flatten(t)) && fuel >= Height(t)
    ensures Walk(disk, n, oid, limit, fuel) == Verdict(LastAtMost(Flatten(t), Key(oid, limit)), oid)
    decreases Height(t)
  {
    hide *;
    if t.Leaf? {
      LeafWalk(disk, n, t, oid, limit, fuel);
    } else {
      IndexIsHigher(t);
      var k := IndexWalk(disk, n, t, oid, limit, fuel);
      if k > 0 {
        ChildStored(disk, n, t, k - 1);
        WalkIsFlat(disk, t.kids[k - 1].block, t.kids[k - 1].tree, oid, limit, fuel - 1);
      } else {
        VerdictOnNone(oid);
      }
    }
  }

  lemma IndexIsHigher(t: Tree)
    requires t.Index?
    ensures Height(t) > 0
  {
  }

  lemma VerdictOnNone(oid: nat)
    ensures Verdict(None, oid) == NoEntry
  {
  }

  lemma LeafAnswer(items: seq<Item>, target: Key)
    ensures var k := LastIndex(Leaf(items), target, |items|);
      LastAtMost(items, target) == if k == 0 then None else Some(items[k - 1])
  {
    LeafAnswerUpTo(items, target, |items|);
    assert items[..|items|] == items;
  }

  lemma {:induction false} LeafAnswerUpTo(items: seq<Item>, target: Key, n: nat)
    requires n <= |items|
    ensures var k := LastIndex(Leaf(items), target, n);
      LastAtMost(items[..n], target) == if k == 0 then None else Some(items[k - 1])
  {
    hide AtMost;
    if n > 0 {
      assert items[..n][..n - 1] == items[..n - 1];
      LeafAnswerUpTo(items, target, n - 1);
    }
  }

  /** A mapping of `oid` no newer than `limit`. */
  predicate Eligible(it: Item, oid: nat, limit: nat) { it.key.oid == oid && it.key.xid <= limit }

  ghost predicate NewestOf(it: Item, items: seq<Item>, oid: nat, limit: nat) {
    && it in items && Eligible(it, oid, limit)
    && forall other :: other in items && Eligible(other, oid, limit) ==> other.key.xid <= it.key.xid
  }

  lemma {:induction false} LastAtMostIsLast(items: seq<Item>, target: Key) returns (k: nat)
    ensures k <= |items| && (forall j :: k <= j < |items| ==> !AtMost(items[j].key, target))
    ensures LastAtMost(items, target) == (if k == 0 then None else Some(items[k - 1]))
    ensures k > 0 ==> AtMost(items[k - 1].key, target)
    decreases |items|
  {
    k := |items|;
    if items != [] && !AtMost(items[|items| - 1].key, target) {
      k := LastAtMostIsLast(items[..|items| - 1], target);
    }
  }

  /** The verdict in plain terms: the eligible item of the largest xid, and
      failure exactly when there is none. */
  lemma VerdictIsNewest(items: seq<Item>, oid: nat, limit: nat)
    requires Sorted(items)
    ensures var r := Verdict(LastAtMost(items, Key(oid, limit)), oid);
      && (r.Found? <==> exists it :: it in items && Eligible(it, oid, limit))
      && (r.Found? ==> exists it :: NewestOf(it, items, oid, limit) && it.m == r.m)
  {
    var target := Key(oid, limit);
    var k := LastAtMostIsLast(items, target);
    forall other | other in items && Eligible(other, oid, limit)
      ensures k > 0 && items[k - 1].key.oid == oid && other.key.xid <= items[k - 1].key.xid
    {
      var j :| 0 <= j < |items| && items[j] == other;
      assert AtMost(items[j].key, target) && j < k;
      if j < k - 1 { assert Before(items[j].key, items[k - 1].key); }
    }
    if k > 0 && items[k - 1].key.oid == oid {
      assert NewestOf(items[k - 1], items, oid, limit);
    }
  }

  /** `omap_lookup` on any stored well-formed tree: the newest mapping of the
      object no newer than the limit, and an error exactly when none exists. */
  lemma LookupIsFlat(disk: Disk, n: nat, t: Tree, oid: nat, limit: nat, fuel: nat)
    requires OnDisk(disk, n, t) && Keyed(t) && Sorted(Flatten(t)) && fuel >= Height(t)
    ensures var r := Walk(disk, n, oid, limit, fuel);
      && (r.Found? || r.NoEntry? || r.OtherObject?)
      && (r.Found? <==> exists it :: it in Flatten(t) && Eligible(it, oid, limit))
      && (r.Found? ==> exists it :: NewestOf(it, Flatten(t), oid, limit) && it.m == r.m)
  {
    WalkIsFlat(disk, n, t, oid, limit, fuel);
    VerdictIsNewest(Flatten(t), oid, limit);
    hide Walk, OnDisk, Keyed, Sorted, Flatten, LastAtMost, Eligible, NewestOf;
  }

  /** The blocks a walk visits, in order. */
  function Visited(disk: Disk, n: nat, oid: nat, limit: nat, fuel: nat): seq<nat>
    decreases fuel
  {
    if !Readable(disk(n)) || !Verifies(disk(n)) || VisitNode(disk(n), oid, limit).Done? || fuel == 0 then [n]
    else [n] + Visited(disk, VisitNode(disk(n), oid, limit).child, oid, limit, fuel - 1)
  }

  /** On any disk at all, a value is only ever returned along a path of blocks
      whose checksums are good; one bad block on the path is what is reported. */
  lemma {:induction false} ValuesNeedGoodChecksums(disk: Disk, n: nat, oid: nat, limit: nat, fuel: nat)
    ensures var r := Walk(disk, n, oid, limit, fuel);
      && (r.Found? ==> forall b :: b in Visited(disk, n, oid, limit, fuel) ==> Verifies(disk(b)))
      && (forall b ::
         b in Visited(disk, n, oid, limit, fuel) && Readable(disk(b)) && !Verifies(disk(b)) ==> r == BadChecksum(b))
    decreases fuel
  {
    hide VisitNode, Verifies;
    if Readable(disk(n)) && Verifies(disk(n)) && VisitNode(disk(n), oid, limit).Descend? && fuel > 0 {
      ValuesNeedGoodChecksums(disk, VisitNode(disk(n), oid, limit).child, oid, limit, fuel - 1);
    }
  }

  // ---- the newest container superblock ----

  const NXSB: octets := [0x4E, 0x58, 0x53, 0x42]

  /** A checksummed block with the container magic. */
  predicate IsSuperblock(b: octets) {
    Readable(b) && Verifies(b) && |b| >= 36 && b[32] == 0x4E && b[33] == 0x58 && b[34] == 0x53 && b[35] == 0x42
  }

  lemma MagicIs(b: octets)
    ensures IsSuperblock(b) <==> Readable(b) && Verifies(b) && |b| >= 36 && b[32..36] == NXSB
  {
    if |b| >= 36 {
      assert b[32..36][0] == b[32] && b[32..36][1] == b[33] && b[32..36][2] == b[34] && b[32..36][3] == b[35];
    }
    hide Readable, Verifies;
  }

  /** Where `newest_nxsb` ends up; `Fallback` is block 0 taken unchecked. */
  datatype Newest = Superblock(n: nat, xid: nat) | Fallback(xid0: nat) | Unreadable

  /** The first of the highest-numbered valid superblocks in the descriptor
      ring, or block 0 when the ring holds none. */
  method NewestNxsb(disk: Disk) returns (r: Newest)
    ensures |disk(0)| < 0x78 ==> r.Unreadable?
    ensures |disk(0)| >= 0x78 ==>
      var count, base := Word32(disk(0), 0x68) % 0x8000_0000, Word64(disk(0), 0x70);
      && (r.Unreadable? <==> exists k :: base <= k < base + count && !Readable(disk(k)))
      && match r
         case Superblock(n, xid) =>
           && base <= n < base + count && IsSuperblock(disk(n)) && xid == Word64(disk(n), 16)
           && (forall k :: base <= k < base + count && IsSuperblock(disk(k)) ==>
                 Word64(disk(k), 16) < xid || (Word64(disk(k), 16) == xid && n <= k))
         case Fallback(xid) =>
           xid == Word64(disk(0), 16) && forall k :: base <= k < base + count ==> !IsSuperblock(disk(k))
         case Unreadable => true
  {
    hide Checksum, Word64, Word32;
    var head := disk(0);
    if |head| < 0x78 { return Unreadable; }
    var count, base := Word32(head, 0x68) % 0x8000_0000, Word64(head, 0x70);
    r := Fallback(Word64(head, 16));
    for i := 0 to count
      invariant forall k :: base <= k < base + i ==> Readable(disk(k))
      invariant match r
        case Superblock(n, xid) =>
          && base <= n < base + i && IsSuperblock(disk(n)) && xid == Word64(disk(n), 16)
          && (forall k :: base <= k < base + i && IsSuperblock(disk(k)) ==>
                Word64(disk(k), 16) < xid || (Word64(disk(k), 16) == xid && n <= k))
        case Fallback(xid) => xid == Word64(head, 16) && forall k :: base <= k < base + i ==> !IsSuperblock(disk(k))
        case Unreadable => false
    {
      var n := base + i;
      var b := disk(n);
      if !Readable(b) { return Unreadable; }
      var sum := Fletcher64(b);
      MagicIs(b);
      assert IsSuperblock(b) ==> |b| >= 36;
      if sum == Some(Word64(b, 0)) && |b| >= 36 && b[32..36] == NXSB {
        if r.Fallback? || Word64(b, 16) > r.xid { r := Superblock(n, Word64(b, 16)); }
      }
    }
  }
}
