/** build_image.py: where the kernel, tree, boot_args, ramdisk and scratch area
    go, and why filling in the memory map cannot move any of them. */
module BuildImage {
  import opened Wrappers
  import opened Octets
  import opened DeviceTree

  const MIB := 0x10_0000
  const PAGE := 0x1000
  const SIZEOF_BOOT_ARGS := 1152

  function UpMib(n: nat): (r: nat)
    ensures n <= r < n + 0x10_0000 && r % 0x10_0000 == 0
  {
    (n + 0xF_FFFF) / 0x10_0000 * 0x10_0000
  }

  function UpPage(n: nat): (r: nat)
    ensures n <= r < n + 0x1000 && r % 0x1000 == 0
  {
    (n + 0xFFF) / 0x1000 * 0x1000
  }

  /** (n + a - 1) & ~(a - 1), for the powers of two it is called with. */
  function Align(n: nat, a: nat): (r: nat)
    requires a == MIB || a == PAGE
    ensures n <= r < n + a && (if a == MIB then r % MIB == 0 else r % PAGE == 0)
  {
    hide UpMib, UpPage;
    if a == MIB then UpMib(n) else UpPage(n)
  }

  // ---- the size of a printed tree depends on its shape only ----

  function PropSize(p: Prop): nat { 36 + |p.value| + Pad4(|p.value|) }

  function PropsSize(props: seq<Prop>): nat
    decreases |props|
  {
    if props == [] then 0 else PropSize(props[0]) + PropsSize(props[1..])
  }

  function Size(t: Node): nat
    decreases t, 1
  {
    8 + PropsSize(t.props) + SizeAll(t.children)
  }

  function SizeAll(ts: seq<Node>): nat
    decreases ts, 0
  {
    if ts == [] then 0 else Size(ts[0]) + SizeAll(ts[1..])
  }

  lemma {:induction false} PropsPrintSize(props: seq<Prop>)
    ensures SerialiseProps(props).Some? ==> |SerialiseProps(props).value| == PropsSize(props)
    decreases |props|
  {
    if props != [] { PropsPrintSize(props[1..]); }
    hide SerialiseProp;
  }

  /** Serialised size is a function of the property counts, value lengths and children. */
  lemma {:induction false} PrintSize(t: Node)
    ensures Serialise(t).Some? ==> |Serialise(t).value| == Size(t)
    decreases t, 1
  {
    PropsPrintSize(t.props);
    PrintSizeAll(t.children);
    hide SerialiseProps;
  }

  lemma {:induction false} PrintSizeAll(ts: seq<Node>)
    ensures SerialiseAll(ts).Some? ==> |SerialiseAll(ts).value| == SizeAll(ts)
    decreases ts, 0
  {
    hide Serialise, Size;
    if ts != [] { PrintSize(ts[0]); PrintSizeAll(ts[1..]); }
  }

  // ---- the memory map ----

  const NAME: octets := [0x6E, 0x61, 0x6D, 0x65]
  const MEMORY_MAP: octets := [0x6D, 0x65, 0x6D, 0x6F, 0x72, 0x79, 0x2D, 0x6D, 0x61, 0x70]

  function Lookup(props: seq<Prop>, key: octets): Option<octets>
    decreases |props|
  {
    if props == [] then None else if props[0].key == key then Some(props[0].value) else Lookup(props[1..], key)
  }

  /** Node.name. */
  function NameOf(t: Node): octets { if Lookup(t.props, NAME).Some? then CutAtNul(Lookup(t.props, NAME).value) else [] }

  /** The first memory-map node in preorder. */
  function FindMap(t: Node): Option<Node>
    decreases t, 1
  {
    if NameOf(t) == MEMORY_MAP then Some(t) else FindMapAll(t.children)
  }

  function FindMapAll(ts: seq<Node>): Option<Node>
    decreases ts, 0
  {
    if ts == [] then None else if FindMap(ts[0]).Some? then FindMap(ts[0]) else FindMapAll(ts[1..])
  }

  /** Assign one property of that node; no change when there is none. */
  function Fill(t: Node, key: octets, value: octets): Node
    decreases t, 1
  {
    if NameOf(t) == MEMORY_MAP then t.(props := SetProp(t.props, key, value))
    else t.(children := FillAll(t.children, key, value))
  }

  function FillAll(ts: seq<Node>, key: octets, value: octets): (r: seq<Node>)
    ensures |r| == |ts|
    decreases ts, 0
  {
    if ts == [] then []
    else if FindMap(ts[0]).Some? then [Fill(ts[0], key, value)] + ts[1..]
    else [ts[0]] + FillAll(ts[1..], key, value)
  }

  /** The memory map, if there is one, holds a value of n bytes under key. */
  predicate Reserved(t: Node, key: octets, n: nat) {
    match FindMap(t)
    case None => true
    case Some(m) => Lookup(m.props, key).Some? && |Lookup(m.props, key).value| == n
  }

  lemma {:induction false} SetPropLookup(props: seq<Prop>, key: octets, value: octets, other: octets)
    ensures Lookup(SetProp(props, key, value), other) == if other == key then Some(value) else Lookup(props, other)
    decreases |props|
  {
    if props != [] && props[0].key != key {
      SetPropLookup(props[1..], key, value, other);
      assert SetProp(props, key, value)[1..] == SetProp(props[1..], key, value);
    } else if props != [] {
      assert SetProp(props, key, value)[1..] == props[1..];
    }
  }

  /** Overwriting a value by one of the same length changes no size, and
      nothing the printer could object to. */
  lemma {:induction false} SetPropSize(props: seq<Prop>, key: octets, value: octets)
    requires Lookup(props, key).Some? && |Lookup(props, key).value| == |value|
    ensures PropsSize(SetProp(props, key, value)) == PropsSize(props) && |SetProp(props, key, value)| == |props|
    ensures SerialiseProps(props).Some? ==> SerialiseProps(SetProp(props, key, value)).Some?
    decreases |props|
  {
    hide SerialiseProp;
    if props[0].key != key {
      SetPropSize(props[1..], key, value);
      assert SetProp(props, key, value)[1..] == SetProp(props[1..], key, value);
    } else {
      assert SetProp(props, key, value)[1..] == props[1..];
    }
  }

  /** Filling a reserved entry keeps the printed size. */
  lemma {:induction false} FillKeepsSize(t: Node, key: octets, value: octets)
    requires FindMap(t).Some? ==>
      Lookup(FindMap(t).value.props, key).Some? && |Lookup(FindMap(t).value.props, key).value| == |value|
    ensures Size(Fill(t, key, value)) == Size(t)
    ensures Serialise(t).Some? ==> Serialise(Fill(t, key, value)).Some?
    decreases t, 1
  {
    hide SerialiseProps, SetProp, Lookup, NameOf;
    if NameOf(t) == MEMORY_MAP {
      SetPropSize(t.props, key, value);
    } else {
      FillAllKeepsSize(t.children, key, value);
    }
  }

  lemma {:induction false} FillAllKeepsSize(ts: seq<Node>, key: octets, value: octets)
    requires FindMapAll(ts).Some? ==>
      Lookup(FindMapAll(ts).value.props, key).Some? && |Lookup(FindMapAll(ts).value.props, key).value| == |value|
    ensures SizeAll(FillAll(ts, key, value)) == SizeAll(ts)
    ensures SerialiseAll(ts).Some? ==> SerialiseAll(FillAll(ts, key, value)).Some?
    decreases ts, 0
  {
    hide Serialise, Size, Lookup, Fill, FindMap;
    if ts != [] {
      if FindMap(ts[0]).Some? {
        FillKeepsSize(ts[0], key, value);
        assert FillAll(ts, key, value)[1..] == ts[1..];
      } else {
        FillAllKeepsSize(ts[1..], key, value);
        assert FillAll(ts, key, value)[1..] == FillAll(ts[1..], key, value);
      }
    }
  }

  /** The filled node is found again, with that entry and no other changed. */
  lemma {:induction false} FillFinds(t: Node, key: octets, value: octets)
    requires key != NAME
    ensures FindMap(Fill(t, key, value)) ==
      match FindMap(t) case None => None case Some(m) => Some(m.(props := SetProp(m.props, key, value)))
    decreases t, 1
  {
    SetPropLookup(t.props, key, value, NAME);
    FillAllFinds(t.children, key, value);
    hide SetProp, Lookup;
  }

  lemma {:induction false} FillAllFinds(ts: seq<Node>, key: octets, value: octets)
    requires key != NAME
    ensures FindMapAll(FillAll(ts, key, value)) ==
      match FindMapAll(ts) case None => None case Some(m) => Some(m.(props := SetProp(m.props, key, value)))
    decreases ts, 0
  {
    hide SetProp, Fill, FindMap;
    if ts != [] {
      FillFinds(ts[0], key, value);
      FillAllFinds(ts[1..], key, value);
      if FindMap(ts[0]).Some? {
        assert FillAll(ts, key, value)[0] == Fill(ts[0], key, value);
      } else {
        assert FillAll(ts, key, value)[1..] == FillAll(ts[1..], key, value);
      }
    }
  }

  // ---- the build ----

  /** Memory-map names: "DeviceTree", "BootArgs", "RAMDisk"; the trust cache's is an option. */
  const DEVICE_TREE: octets := [0x44, 0x65, 0x76, 0x69, 0x63, 0x65, 0x54, 0x72, 0x65, 0x65]
  const BOOT_ARGS: octets := [0x42, 0x6F, 0x6F, 0x74, 0x41, 0x72, 0x67, 0x73]
  const RAM_DISK: octets := [0x52, 0x41, 0x4D, 0x44, 0x69, 0x73, 0x6B]

  function Ascii(text: string): (b: octets)
    requires forall i :: 0 <= i < |text| ==> text[i] < 128 as char
  {
    seq(|text|, i requires 0 <= i < |text| => text[i] as int)
  }

  /** The names in the tree. */
  lemma Names()
    ensures NAME == Ascii("name") && MEMORY_MAP == Ascii("memory-map") && KERNEL_ONLY == Ascii("kernel-only")
    ensures DEVICE_TREE == Ascii("DeviceTree") && BOOT_ARGS == Ascii("BootArgs") && RAM_DISK == Ascii("RAMDisk")
    ensures TRUE_TEXT == Ascii("true") + [0]
  {
  }

  /** The command line: addresses, an optional trust cache and the name to announce it
      under, an optional ramdisk, and the scratch area to reserve. Sizes of the files are all that placement uses. */
  datatype Request = Request(physBase: nat, ramBase: nat, virtBase: nat,
                             trustCache: Option<Region>, tcKey: octets, ramdisk: Option<nat>, reserve: nat) {
    /** The trust cache is announced under this name. */
    predicate Announces(key: octets) { trustCache.Some? && tcKey == key }
    function RamdiskLen(): nat { if ramdisk.Some? then ramdisk.value else 0 }
  }
  datatype Region = Region(at: nat, len: nat) {
    function End(): nat { at + len }
  }

  /** Where everything went. Addresses are physical unless named otherwise. */
  datatype Layout = Layout(dtOff: nat, baOff: nat, total: nat, ramdisk: Region, scratch: Region,
                           scratchVirt: int, top: nat, baVirtBase: int, dtVirt: int)

  datatype Outcome =
    | Built(layout: Layout, tree: Node, image: octets)
    | RamBaseTooHigh
    | TrustCacheMisplaced
    | TreeRefused       // the printer raises
    | PairRefused       // an address or length does not pack
    | ChangedSize       // one of the three exits for a tree that changed size

  /** boot_args as it depends on the placement; its bytes are the caller's. */
  datatype BootArgs = BootArgs(virtBase: int, physBase: nat, top: nat, deviceTreeP: int, deviceTreeLength: nat)

  predicate Fits64(n: int) { 0 <= n < 0x1_0000_0000_0000_0000 }

  /** The numbers that fit are those eight bytes can hold. */
  lemma Fits64Exactly(n: int)
    ensures Fits64(n) <==> exists b: octets :: |b| == 8 && Word64(b, 0) == n
  {
    hide Word64, Put64;
    if Fits64(n) {
      ReadBack64([], n, []);
      assert [] + Put64(n) + [] == Put64(n);
    }
  }

  function Pair(at: nat, len: nat): (b: octets)
    requires Fits64(at) && Fits64(len)
    ensures |b| == 16
  {
    Put64(at) + Put64(len)
  }

  /** The entries minimal_vmapple_tree reserves for what will be filled in. */
  ghost predicate ReservedFor(t: Node, q: Request) {
    && Reserved(t, DEVICE_TREE, 16) && Reserved(t, BOOT_ARGS, 16)
    && (q.trustCache.Some? ==> Reserved(t, q.tcKey, 16))
    && (FindMap(t).Some? ==> !q.Announces(NAME))
    && (q.ramdisk.Some? ==> Reserved(t, RAM_DISK, 16))
  }

  const KERNEL_ONLY: octets := [0x6B, 0x65, 0x72, 0x6E, 0x65, 0x6C, 0x2D, 0x6F, 0x6E, 0x6C, 0x79]
  const TRUE_TEXT: octets := [0x74, 0x72, 0x75, 0x65, 0]

  /** The memory-map node of minimal_vmapple_tree. An entry is reserved at its
      final size, and only for what will be there. */
  function MemoryMap(wantRamdisk: bool, wantTrustCache: bool, tcKey: octets): Node {
    var p0 := SetProp([], NAME, MEMORY_MAP + [0]);
    var p1 := SetProp(p0, KERNEL_ONLY, TRUE_TEXT);
    var p2 := SetProp(SetProp(p1, DEVICE_TREE, Zeros(16)), BOOT_ARGS, Zeros(16));
    var p3 := if wantRamdisk then SetProp(p2, RAM_DISK, Zeros(16)) else p2;
    Node(if wantTrustCache then SetProp(p3, tcKey, Zeros(16)) else p3, [], {})
  }

  /** The node for a request. */
  function MapFor(q: Request): Node { MemoryMap(q.ramdisk.Some?, q.trustCache.Some?, q.tcKey) }

  lemma KeysDiffer()
    ensures NAME != KERNEL_ONLY && NAME != DEVICE_TREE && NAME != BOOT_ARGS && NAME != RAM_DISK
    ensures DEVICE_TREE != BOOT_ARGS && DEVICE_TREE != RAM_DISK && BOOT_ARGS != RAM_DISK && KERNEL_ONLY != RAM_DISK
  {
    assert |NAME| == 4 && |KERNEL_ONLY| == 11 && |DEVICE_TREE| == 10 && |BOOT_ARGS| == 8 && |RAM_DISK| == 7;
  }

  /** What the map holds under a key, one assignment at a time. */
  lemma MapLookup(wantRamdisk: bool, wantTrustCache: bool, tcKey: octets, key: octets)
    ensures Lookup(MemoryMap(wantRamdisk, wantTrustCache, tcKey).props, key) ==
      if wantTrustCache && key == tcKey then Some(Zeros(16))
      else if wantRamdisk && key == RAM_DISK then Some(Zeros(16))
      else if key == BOOT_ARGS || key == DEVICE_TREE then Some(Zeros(16))
      else if key == KERNEL_ONLY then Some(TRUE_TEXT)
      else if key == NAME then Some(MEMORY_MAP + [0]) else None
  {
    var p0 := SetProp([], NAME, MEMORY_MAP + [0]);
    var p1 := SetProp(p0, KERNEL_ONLY, TRUE_TEXT);
    var p2 := SetProp(p1, DEVICE_TREE, Zeros(16));
    var p3 := SetProp(p2, BOOT_ARGS, Zeros(16));
    var p4 := if wantRamdisk then SetProp(p3, RAM_DISK, Zeros(16)) else p3;
    SetPropLookup([], NAME, MEMORY_MAP + [0], key);
    assert Lookup([], key) == None;
    hide SetProp, Lookup, Zeros;
    SetPropLookup(p0, KERNEL_ONLY, TRUE_TEXT, key);
    SetPropLookup(p1, DEVICE_TREE, Zeros(16), key);
    SetPropLookup(p2, BOOT_ARGS, Zeros(16), key);
    SetPropLookup(p3, RAM_DISK, Zeros(16), key);
    SetPropLookup(p4, tcKey, Zeros(16), key);
  }

  /** The node goes by its name unless the trust cache takes that entry. */
  lemma MemoryMapName(wantRamdisk: bool, wantTrustCache: bool, tcKey: octets)
    ensures NameOf(MemoryMap(wantRamdisk, wantTrustCache, tcKey)) == MEMORY_MAP <==> !(wantTrustCache && tcKey == NAME)
  {
    KeysDiffer();
    MapLookup(wantRamdisk, wantTrustCache, tcKey, NAME);
    CutName(MEMORY_MAP, 1, []);
    assert MEMORY_MAP + Zeros(1) + [] == MEMORY_MAP + [0];
    assert CutAtNul(Zeros(16)) == [];
    hide SetProp, Lookup, Zeros, MemoryMap, CutAtNul;
  }

  /** A tree with that node is ready for every request it was built for, and
      announces no ramdisk or trust cache that will not be there. */
  lemma MemoryMapReserves(t: Node, q: Request)
    requires FindMap(t) == Some(MapFor(q))
    ensures ReservedFor(t, q)
    ensures q.ramdisk.None? && !q.Announces(RAM_DISK) ==> Lookup(FindMap(t).value.props, RAM_DISK) == None
    ensures q.trustCache.None? && q.tcKey !in {NAME, KERNEL_ONLY, DEVICE_TREE, BOOT_ARGS, RAM_DISK} ==>
      Lookup(FindMap(t).value.props, q.tcKey) == None
  {
    assert MapFor(q) == MemoryMap(q.ramdisk.Some?, q.trustCache.Some?, q.tcKey) by { hide MemoryMap; }
    hide *;
    MapReserved(t, q);
    MapWithout(t, q);
    FoundByName(t);
    MemoryMapName(q.ramdisk.Some?, q.trustCache.Some?, q.tcKey);
    AllReserved(t, q);
  }

  lemma AllReserved(t: Node, q: Request)
    requires Reserved(t, DEVICE_TREE, 16) && Reserved(t, BOOT_ARGS, 16) && !(q.trustCache.Some? && q.tcKey == NAME)
    requires (q.trustCache.Some? ==> Reserved(t, q.tcKey, 16)) && (q.ramdisk.Some? ==> Reserved(t, RAM_DISK, 16))
    ensures ReservedFor(t, q)
  {
    hide Reserved, FindMap;
  }

  lemma MapReserved(t: Node, q: Request)
    requires FindMap(t) == Some(MapFor(q))
    ensures Reserved(t, DEVICE_TREE, 16) && Reserved(t, BOOT_ARGS, 16)
    ensures (q.trustCache.Some? ==> Reserved(t, q.tcKey, 16)) && (q.ramdisk.Some? ==> Reserved(t, RAM_DISK, 16))
  {
    hide SetProp, Lookup, Zeros, MemoryMap, FindMap;
    MapLookup(q.ramdisk.Some?, q.trustCache.Some?, q.tcKey, DEVICE_TREE);
    MapLookup(q.ramdisk.Some?, q.trustCache.Some?, q.tcKey, BOOT_ARGS);
    MapLookup(q.ramdisk.Some?, q.trustCache.Some?, q.tcKey, RAM_DISK);
    MapLookup(q.ramdisk.Some?, q.trustCache.Some?, q.tcKey, q.tcKey);
  }

  lemma MapWithout(t: Node, q: Request)
    requires FindMap(t) == Some(MapFor(q))
    ensures q.ramdisk.None? && !q.Announces(RAM_DISK) ==> Lookup(FindMap(t).value.props, RAM_DISK) == None
    ensures q.trustCache.None? && q.tcKey !in {NAME, KERNEL_ONLY, DEVICE_TREE, BOOT_ARGS, RAM_DISK} ==>
      Lookup(FindMap(t).value.props, q.tcKey) == None
  {
    KeysDiffer();
    hide SetProp, Lookup, Zeros, MemoryMap, FindMap;
    MapLookup(q.ramdisk.Some?, q.trustCache.Some?, q.tcKey, RAM_DISK);
    MapLookup(q.ramdisk.Some?, q.trustCache.Some?, q.tcKey, q.tcKey);
  }

  lemma {:induction false} FoundByName(t: Node)
    requires FindMap(t).Some?
    ensures NameOf(FindMap(t).value) == MEMORY_MAP
    decreases t, 1
  {
    hide NameOf;
    if NameOf(t) != MEMORY_MAP { AllFoundByName(t.children); }
  }

  lemma {:induction false} AllFoundByName(ts: seq<Node>)
    requires FindMapAll(ts).Some?
    ensures NameOf(FindMapAll(ts).value) == MEMORY_MAP
    decreases ts, 0
  {
    hide NameOf, FindMap;
    if FindMap(ts[0]).Some? { FoundByName(ts[0]); } else { AllFoundByName(ts[1..]); }
  }

  /** The nodes in the order `walk` yields them. */
  function Preorder(t: Node): seq<Node>
    decreases t, 1
  {
    [t] + PreorderAll(t.children)
  }

  function PreorderAll(ts: seq<Node>): seq<Node>
    decreases ts, 0
  {
    if ts == [] then [] else Preorder(ts[0]) + PreorderAll(ts[1..])
  }

  function FirstMap(ts: seq<Node>): Option<Node> {
    if ts == [] then None else if NameOf(ts[0]) == MEMORY_MAP then Some(ts[0]) else FirstMap(ts[1..])
  }

  lemma {:induction false} FirstMapSplits(a: seq<Node>, b: seq<Node>)
    ensures FirstMap(a + b) == if FirstMap(a).Some? then FirstMap(a) else FirstMap(b)
    decreases |a|
  {
    hide NameOf;
    if a == [] { assert a + b == b; } else {
      assert (a + b)[1..] == a[1..] + b;
      FirstMapSplits(a[1..], b);
    }
  }

  /** The search finds the first memory map in preorder. */
  lemma {:induction false} FindMapIsFirst(t: Node)
    ensures FindMap(t) == FirstMap(Preorder(t))
    decreases t, 1
  {
    hide NameOf;
    FindAllIsFirst(t.children);
    assert Preorder(t)[1..] == PreorderAll(t.children);
  }

  lemma {:induction false} FindAllIsFirst(ts: seq<Node>)
    ensures FindMapAll(ts) == FirstMap(PreorderAll(ts))
    decreases ts, 0
  {
    hide NameOf, FindMap, Preorder;
    if ts != [] {
      FindMapIsFirst(ts[0]);
      FindAllIsFirst(ts[1..]);
      FirstMapSplits(Preorder(ts[0]), PreorderAll(ts[1..]));
    }
  }

  /** In any tree that holds that node under its own name, with no memory map before
      it in preorder, it is the node found. */
  lemma MemoryMapIsFound(t: Node, before: seq<Node>, after: seq<Node>, q: Request)
    requires Preorder(t) == before + [MapFor(q)] + after && !q.Announces(NAME)
    requires forall n :: n in before ==> NameOf(n) != MEMORY_MAP
    ensures FindMap(t) == Some(MapFor(q))
  {
    hide NameOf, MemoryMap, FindMap, Preorder;
    var m := MapFor(q);
    FindMapIsFirst(t);
    FirstMapSplits(before, [m] + after);
    assert before + [m] + after == before + ([m] + after);
    NoneBefore(before);
    MemoryMapName(q.ramdisk.Some?, q.trustCache.Some?, q.tcKey);
  }

  lemma {:induction false} NoneBefore(ts: seq<Node>)
    requires forall n :: n in ts ==> NameOf(n) != MEMORY_MAP
    ensures FirstMap(ts) == None
    decreases |ts|
  {
    hide NameOf;
    if ts != [] { NoneBefore(ts[1..]); }
  }

  lemma FillReserved(t: Node, key: octets, value: octets, other: octets)
    requires key != NAME && Reserved(t, key, 16) && Reserved(t, other, 16) && |value| == 16
    ensures Reserved(Fill(t, key, value), other, 16) && Size(Fill(t, key, value)) == Size(t)
    ensures Serialise(t).Some? ==> Serialise(Fill(t, key, value)).Some?
  {
    FillKeepsSize(t, key, value);
    FillFinds(t, key, value);
    if FindMap(t).Some? { SetPropLookup(FindMap(t).value.props, key, value, other); }
    hide Fill, FindMap, SetProp, Lookup, Size, Serialise;
  }

  /** One translation takes physical to virtual addresses. */
  function VirtualOf(l: Layout, q: Request, p: int): int { p - q.ramBase + l.baVirtBase }

  /** Kernel, tree, boot_args, ramdisk and scratch are disjoint, in that order,
      from the load address to topOfKernelData; the trust cache lies below. */
  ghost predicate WellPlaced(l: Layout, q: Request, kernLen: nat, dtLen: nat) {
    var kernel, ended := Region(q.physBase, kernLen), q.physBase + l.total;
    var tree, bootArgs := Region(q.physBase + l.dtOff, dtLen), Region(q.physBase + l.baOff, 1152);
    && kernel.End() <= tree.at && tree.End() <= bootArgs.at && bootArgs.End() <= ended <= l.top
    && l.dtOff % MIB == 0 && l.baOff % PAGE == 0 && l.total % MIB == 0
    && (q.ramdisk.Some? ==> l.ramdisk.len == q.ramdisk.value && ended <= l.ramdisk.at && l.ramdisk.End() <= l.top)
    && (q.reserve > 0 ==> l.scratch.len == q.reserve && ended <= l.scratch.at && l.scratch.End() <= l.top)
    && (q.ramdisk.Some? && q.reserve > 0 ==> l.ramdisk.End() <= l.scratch.at)
    && (q.trustCache.Some? ==> q.ramBase <= q.trustCache.value.at && q.trustCache.value.End() <= q.physBase)
  }

  /** The least multiple of a power of two at or above n. */
  ghost predicate Next(r: nat, n: nat, a: nat)
    requires a > 0
  {
    n <= r < n + a && r % a == 0
  }

  /** Each part comes as early as its alignment lets it, so nothing else satisfies
      this: the tree on the next MiB after the kernel, boot_args on the next page after
      the tree, the image's end, the ramdisk and its end on the next MiB, the scratch
      area right after and topOfKernelData on the next MiB after that. */
  ghost predicate Tight(l: Layout, q: Request, kernLen: nat, dtLen: nat) {
    var ended := q.physBase + l.total;
    && Next(l.dtOff, kernLen, 0x10_0000) && Next(l.baOff, l.dtOff + dtLen, 0x1000)
    && Next(l.total, l.baOff + 1152, 0x10_0000)
    && (q.ramdisk.Some? ==> Next(l.ramdisk.at, ended, 0x10_0000))
    && (q.reserve > 0 && q.ramdisk.Some? ==> Next(l.scratch.at, l.ramdisk.End(), 0x10_0000))
    && (q.reserve > 0 && q.ramdisk.None? ==> l.scratch.at == ended)
    && (if q.reserve > 0 then Next(l.top, l.scratch.End(), 0x10_0000)
        else if q.ramdisk.Some? then Next(l.top, l.ramdisk.End(), 0x10_0000) else l.top == ended)
  }

  /** The virtual addresses handed over all come from one translation. */
  ghost predicate Translated(l: Layout, q: Request) {
    && VirtualOf(l, q, q.physBase) == q.virtBase
    && VirtualOf(l, q, q.physBase + l.dtOff) == l.dtVirt
    && (q.reserve > 0 ==> VirtualOf(l, q, l.scratch.at) == l.scratchVirt)
  }

  /** If the tree has a memory map, its entry under key is this region: the address in
      its first eight bytes and the length in the other eight. */
  ghost predicate MapSays(t: Node, key: octets, where: Region) {
    match FindMap(t)
    case None => true
    case Some(m) =>
      && Lookup(m.props, key).Some? && |Lookup(m.props, key).value| == 16
      && Word64(Lookup(m.props, key).value, 0) == where.at && Word64(Lookup(m.props, key).value, 8) == where.len
  }

  lemma PairReads(at: nat, len: nat)
    requires Fits64(at) && Fits64(len)
    ensures Word64(Pair(at, len), 0) == at && Word64(Pair(at, len), 8) == len
  {
    hide Put64, Word64;
    ReadBack64([], at, Put64(len));
    ReadBack64(Put64(at), len, []);
    assert Pair(at, len) == [] + Put64(at) + Put64(len) == Put64(at) + Put64(len) + [];
  }

  /** An entry says what it was last filled with, until it is filled again. */
  lemma FillSays(t: Node, key: octets, where: Region)
    requires key != NAME && Fits64(where.at) && Fits64(where.len)
    ensures MapSays(Fill(t, key, Pair(where.at, where.len)), key, where)
    ensures FindMap(t).Some? <==> FindMap(Fill(t, key, Pair(where.at, where.len))).Some?
  {
    FillFinds(t, key, Pair(where.at, where.len));
    PairReads(where.at, where.len);
    if FindMap(t).Some? { SetPropLookup(FindMap(t).value.props, key, Pair(where.at, where.len), key); }
    hide Fill, FindMap, SetProp, Lookup, Pair, Word64;
  }

  lemma FillLeaves(t: Node, key: octets, value: octets, other: octets, where: Region)
    requires key != NAME && other != key && MapSays(t, other, where)
    ensures MapSays(Fill(t, key, value), other, where)
  {
    FillFinds(t, key, value);
    if FindMap(t).Some? { SetPropLookup(FindMap(t).value.props, key, value, other); }
    hide Fill, FindMap, SetProp, Lookup, Pair;
  }

  /** A tree that prints, has the reserved entries, and prints to n bytes. */
  ghost predicate Ready(t: Node, q: Request, n: nat) {
    Serialise(t).Some? && Size(t) == n && ReservedFor(t, q)
  }

  /** One filling step: the tree is ready again and says the region. */
  lemma StepKeeps(t: Node, q: Request, n: nat, key: octets, where: Region)
    requires Ready(t, q, n) && Reserved(t, key, 16) && key != NAME && Fits64(where.at) && Fits64(where.len)
    ensures Ready(Fill(t, key, Pair(where.at, where.len)), q, n)
    ensures MapSays(Fill(t, key, Pair(where.at, where.len)), key, where)
    ensures |Serialise(Fill(t, key, Pair(where.at, where.len))).value| == n
    ensures FindMap(Fill(t, key, Pair(where.at, where.len))).Some? <==> FindMap(t).Some?
  {
    var v := Pair(where.at, where.len);
    FillReserved(t, key, v, DEVICE_TREE);
    FillReserved(t, key, v, BOOT_ARGS);
    if q.trustCache.Some? { FillReserved(t, key, v, q.tcKey); }
    if q.ramdisk.Some? { FillReserved(t, key, v, RAM_DISK); }
    FillSays(t, key, where);
    PrintSize(Fill(t, key, v));
    hide Fill, FindMap, SetProp, Lookup, Size, Serialise, Reserved, MapSays, Pair;
  }

  /** The image: zeros overlaid by the kernel, the tree and boot_args. */
  function Assemble(total: nat, kern: octets, dtOff: nat, dt: octets, baOff: nat, ba: octets): (image: octets)
    requires |kern| <= dtOff && dtOff + |dt| <= baOff && baOff + |ba| <= total
    ensures |image| == total && image[..|kern|] == kern
    ensures image[dtOff..dtOff + |dt|] == dt && image[baOff..baOff + |ba|] == ba
  {
    hide Zeros;
    var a := Overlay(Zeros(total), 0, kern);
    var b := Overlay(a, dtOff, dt);
    var c := Overlay(b, baOff, ba);
    assert c[..|kern|] == b[..|kern|] == a[0..|kern|];
    assert c[dtOff..dtOff + |dt|] == b[dtOff..dtOff + |dt|];
    c
  }

  /** The image holds the kernel, the printed tree and boot_args where the layout says. */
  ghost predicate Holds(image: octets, l: Layout, q: Request, kern: octets, dt: octets, pack: BootArgs -> octets)
    requires forall b :: |pack(b)| == 1152
  {
    && |image| == l.total && |kern| <= l.dtOff && l.dtOff + |dt| <= l.baOff && l.baOff + 1152 <= l.total
    && image[..|kern|] == kern && image[l.dtOff..l.dtOff + |dt|] == dt
    && image[l.baOff..l.baOff + 1152] == pack(BootArgs(l.baVirtBase, q.ramBase, l.top, l.dtVirt, |dt|))
  }

  /** One of the filling steps: assign the entry if the tree has a memory map,
      print again, and compare the size. */
  method Refill(t: Node, q: Request, n: nat, key: octets, where: Region) returns (t1: Node, blob: octets, changed: bool)
    requires Ready(t, q, n) && Reserved(t, key, 16) && (FindMap(t).Some? ==> key != NAME)
    requires FindMap(t).Some? ==> Fits64(where.at) && Fits64(where.len)
    ensures !changed && Ready(t1, q, n) && Serialise(t1) == Some(blob) && |blob| == n
    ensures MapSays(t1, key, where) && (FindMap(t1).Some? <==> FindMap(t).Some?)
    ensures forall other, w :: other != key && MapSays(t, other, w) ==> MapSays(t1, other, w)
  {
    t1 := t;
    if FindMap(t).Some? {
      t1 := Fill(t, key, Pair(where.at, where.len));
      StepKeeps(t, q, n, key, where);
      forall other, w | other != key && MapSays(t, other, w) ensures MapSays(t1, other, w) {
        FillLeaves(t, key, Pair(where.at, where.len), other, w);
      }
    }
    PrintSize(t1);
    hide Fill, FindMap, Lookup, SetProp, Reserved, Pair, Serialise, Size;
    blob := Serialise(t1).value;
    changed := |blob| != n;
  }

  /** Offsets and addresses, from the sizes alone. */
  method Place(q: Request, kernLen: nat, size: nat) returns (l: Layout)
    ensures WellPlaced(l, q.(trustCache := None), kernLen, size) && Tight(l, q, kernLen, size) && Translated(l, q)
    ensures l.baVirtBase == q.virtBase - (q.physBase - q.ramBase)
    ensures l.total < kernLen + size + 1152 + PAGE + 2 * MIB
    ensures l.ramdisk.at <= q.physBase + l.total + MIB && l.ramdisk.len == q.RamdiskLen()
  {
    hide Align;
    var dtOff := Align(kernLen, MIB);
    var baOff := Align(dtOff + size, PAGE);
    var total := Align(baOff + SIZEOF_BOOT_ARGS, MIB);
    var top := q.physBase + total;
    var rd := Region(0, 0);
    if q.ramdisk.Some? {
      rd := Region(Align(q.physBase + total, MIB), q.ramdisk.value);
      top := Align(rd.End(), MIB);
    }
    var scratch, scratchVirt := Region(0, 0), 0;
    if q.reserve > 0 {
      scratch := Region(top, q.reserve);
      top := Align(top + q.reserve, MIB);
      scratchVirt := q.virtBase - q.physBase + scratch.at;
    }
    var baVirtBase := q.virtBase - (q.physBase - q.ramBase);
    var dtVirt := baVirtBase + (q.physBase + dtOff - q.ramBase);
    l := Layout(dtOff, baOff, total, rd, scratch, scratchVirt, top, baVirtBase, dtVirt);
  }

  datatype Filled = Done(tree: Node, blob: octets) | Refused | Misplaced | Changed

  /** The finished tree describes the layout. */
  ghost predicate Describes(t: Node, q: Request, l: Layout, n: nat) {
    && MapSays(t, DEVICE_TREE, Region(q.physBase + l.dtOff, n))
    && MapSays(t, BOOT_ARGS, Region(q.physBase + l.baOff, 1152))
    && (q.trustCache.Some? ==> MapSays(t, q.tcKey, q.trustCache.value))
    && (q.ramdisk.Some? ==> MapSays(t, RAM_DISK, l.ramdisk))
  }

  /** What each entry was last filled with: the trust cache's name may be another
      entry's, which it then overwrites, or which the ramdisk overwrites again. */
  ghost predicate SaysLast(t: Node, q: Request, l: Layout, n: nat) {
    && MapSays(t, DEVICE_TREE, if q.Announces(DEVICE_TREE) then q.trustCache.value else Region(q.physBase + l.dtOff, n))
    && MapSays(t, BOOT_ARGS,
               if q.Announces(BOOT_ARGS) then q.trustCache.value else Region(q.physBase + l.baOff, 1152))
    && (q.trustCache.Some? && !(q.ramdisk.Some? && q.tcKey == RAM_DISK) ==> MapSays(t, q.tcKey, q.trustCache.value))
    && (q.ramdisk.Some? ==> MapSays(t, RAM_DISK, l.ramdisk))
  }

  /** The trust cache's name is no other entry's. */
  predicate OwnName(q: Request) {
    !q.Announces(DEVICE_TREE) && !q.Announces(BOOT_ARGS) && !(q.ramdisk.Some? && q.Announces(RAM_DISK))
  }

  lemma OneRegion(t: Node, key: octets, a: Region, b: Region)
    requires FindMap(t).Some? && MapSays(t, key, a) && MapSays(t, key, b)
    ensures a == b
  {
    hide FindMap, Lookup, Word64;
  }

  /** A filled memory map describes the layout if and only if the trust cache is
      announced under a name of its own. */
  lemma DescribesExactly(t: Node, q: Request, l: Layout, kernLen: nat, n: nat)
    requires FindMap(t).Some? && SaysLast(t, q, l, n) && WellPlaced(l, q, kernLen, n) && n > 0
    ensures Describes(t, q, l, n) <==> OwnName(q)
  {
    hide FindMap, MapSays;
    KeysDiffer();
    if Describes(t, q, l, n) && q.trustCache.Some? {
      var tc := q.trustCache.value;
      if q.tcKey == DEVICE_TREE { OneRegion(t, DEVICE_TREE, tc, Region(q.physBase + l.dtOff, n)); }
      if q.tcKey == BOOT_ARGS { OneRegion(t, BOOT_ARGS, tc, Region(q.physBase + l.baOff, 1152)); }
      if q.ramdisk.Some? && q.tcKey == RAM_DISK { OneRegion(t, RAM_DISK, tc, l.ramdisk); }
    }
  }

  /** Without a memory map there is nothing to describe. */
  lemma NothingToSay(t: Node, q: Request, l: Layout, n: nat)
    requires FindMap(t).None?
    ensures Describes(t, q, l, n)
  {
    hide FindMap;
  }

  lemma PrintIsNotEmpty(t: Node)
    ensures Size(t) > 0
  {
  }

  predicate TrustCacheFits(q: Request) {
    q.trustCache.Some? ==> q.ramBase <= q.trustCache.value.at && q.trustCache.value.End() <= q.physBase
  }

  /** Write the placements into the memory map, checking the size each time. */
  method FillMap(tree0: Node, q: Request, l: Layout, size: nat) returns (r: Filled)
    requires Ready(tree0, q, size) && l.dtOff <= l.baOff
    ensures r != Changed
    ensures r.Misplaced? ==>
      q.trustCache.Some? && !(q.ramBase <= q.trustCache.value.at && q.trustCache.value.End() <= q.physBase)
    ensures r.Refused? ==>
      FindMap(tree0).Some?
      && (!Fits64(q.physBase + l.baOff) || !Fits64(size) || !Fits64(l.ramdisk.at) || !Fits64(l.ramdisk.len))
    ensures r.Done? ==>
      TrustCacheFits(q) && Ready(r.tree, q, size) && Serialise(r.tree) == Some(r.blob) && |r.blob| == size
    ensures r.Done? ==> SaysLast(r.tree, q, l, size) && (FindMap(r.tree).Some? <==> FindMap(tree0).Some?)
  {
    hide Serialise, Size, FindMap, MapSays, Reserved;
    var dt, ba := Region(q.physBase + l.dtOff, size), Region(q.physBase + l.baOff, SIZEOF_BOOT_ARGS);
    var hasMap := FindMap(tree0).Some?;
    if hasMap && (!Fits64(dt.at) || !Fits64(size) || !Fits64(ba.at)) { return Refused; }
    var tree, blob, changed := Refill(tree0, q, size, DEVICE_TREE, dt);
    tree, blob, changed := Refill(tree, q, size, BOOT_ARGS, ba);
    if changed { return Changed; }
    if q.trustCache.Some? {
      if !TrustCacheFits(q) { return Misplaced; }
      tree, blob, changed := Refill(tree, q, size, q.tcKey, q.trustCache.value);
      if changed { return Changed; }
    }
    if q.ramdisk.Some? {
      if hasMap && (!Fits64(l.ramdisk.at) || !Fits64(l.ramdisk.len)) { return Refused; }
      tree, blob, changed := Refill(tree, q, size, RAM_DISK, l.ramdisk);
      if changed { return Changed; }
    }
    r := Done(tree, blob);
  }

  /** The whole build. None of the size checks fires; whatever is built is well
      placed, self-describing, and holds the three parts where it says. */
  method BuildImage(q: Request, kern: octets, tree0: Node, pack: BootArgs -> octets) returns (r: Outcome)
    requires ReservedFor(tree0, q)
    requires forall b :: |pack(b)| == 1152
    ensures r != ChangedSize
    ensures r.RamBaseTooHigh? <==> q.ramBase > q.physBase
    ensures r.TreeRefused? <==> q.ramBase <= q.physBase && Serialise(tree0) == None
    ensures r.TrustCacheMisplaced? ==>
      q.trustCache.Some? && !(q.ramBase <= q.trustCache.value.at && q.trustCache.value.End() <= q.physBase)
    ensures r.PairRefused? ==>
      FindMap(tree0).Some?
      && !Fits64(q.physBase + |kern| + Size(tree0) + q.RamdiskLen() + 1152 + PAGE + 3 * MIB)
    ensures r.Built? ==> Serialise(r.tree).Some? && Size(r.tree) == Size(tree0)
    ensures r.Built? ==> WellPlaced(r.layout, q, |kern|, Size(tree0)) && Tight(r.layout, q, |kern|, Size(tree0))
    ensures r.Built? ==> Translated(r.layout, q)
    ensures r.Built? ==> SaysLast(r.tree, q, r.layout, Size(tree0))
    ensures r.Built? ==> (Describes(r.tree, q, r.layout, Size(tree0)) <==> OwnName(q) || FindMap(tree0).None?)
    ensures r.Built? ==> Holds(r.image, r.layout, q, kern, Serialise(r.tree).value, pack)
  {
    hide Serialise, Size, FindMap, Assemble, Describes, SaysLast, ReservedFor, Translated, Tight;
    if q.ramBase > q.physBase { return RamBaseTooHigh; }
    var printed := Serialise(tree0);
    if printed == None { return TreeRefused; }
    PrintSize(tree0);
    var size := |printed.value|;
    var l := Place(q, |kern|, size);
    var filled := FillMap(tree0, q, l, size);
    match filled {
      case Refused => return PairRefused;
      case Misplaced => return TrustCacheMisplaced;
      case Changed => return ChangedSize;
      case Done(tree, blob) =>
        PrintIsNotEmpty(tree0);
        if FindMap(tree).Some? { DescribesExactly(tree, q, l, |kern|, size); } else { NothingToSay(tree, q, l, size); }
        var args := pack(BootArgs(l.baVirtBase, q.ramBase, l.top, l.dtVirt, size));
        r := Built(l, tree, Assemble(l.total, kern, l.dtOff, blob, l.baOff, args));
    }
  }
}
