/** class Asm of asm64.py: a growing buffer with labels and fixups, patched in
    place by `link`. */
module Assembler {
  import opened Wrappers
  import opened X86Lines
  import opened Encoding

  datatype Kind = Rel | Abs
  datatype Fixup = Fixup(off: nat, name: string, kind: Kind) {
    function Size(): nat { if kind == Rel then 4 else 8 }
    predicate Covers(p: int) { off <= p < off + Size() }
  }

  /** Fixups in order, disjoint, inside n bytes. */
  predicate Placed(fixups: seq<Fixup>, n: nat) {
    && (forall k :: 0 <= k < |fixups| ==> fixups[k].off + fixups[k].Size() <= n)
    && (forall j, k :: 0 <= j < k < |fixups| ==> fixups[j].off + fixups[j].Size() <= fixups[k].off)
  }

  predicate FitsU64(n: int) { 0 <= n < 0x1_0000_0000_0000_0000 }

  /** What `link` writes over one fixup; None for an undefined label or a value
      that does not pack. */
  function Field(f: Fixup, labels: map<string, int>, origin: int): Option<Bytes> {
    if f.name !in labels then None
    else if f.kind == Rel then
      var rel := labels[f.name] - (f.off + 4);
      if FitsI32(rel) then Some(Le4(rel)) else None
    else
      var address := origin + labels[f.name];
      if FitsU64(address) then Some(Le8(address as bv64)) else None
  }

  function Overwrite(b: Bytes, off: nat, v: Bytes): Bytes
    requires off + |v| <= |b|
  {
    b[..off] + v + b[off + |v|..]
  }

  lemma FieldSize(f: Fixup, labels: map<string, int>, origin: int)
    ensures Field(f, labels, origin).Some? ==> |Field(f, labels, origin).value| == f.Size()
  {
  }

  function PatchAll(b: Bytes, fixups: seq<Fixup>, labels: map<string, int>, origin: int): Option<Bytes>
    requires Placed(fixups, |b|)
    decreases |fixups|
  {
    if fixups == [] then Some(b)
    else if Field(fixups[0], labels, origin) == None then None
    else
      FieldSize(fixups[0], labels, origin);
      PatchAll(Overwrite(b, fixups[0].off, Field(fixups[0], labels, origin).value), fixups[1..], labels, origin)
  }

  class Asm {
    var buf: Bytes
    const origin: int
    var labels: map<string, int>
    var fixups: seq<Fixup>

    ghost predicate Valid()
      reads this
    {
      Placed(fixups, |buf|) && forall name :: name in labels ==> 0 <= labels[name] <= |buf|
    }

    constructor (origin: int)
      ensures Valid() && this.origin == origin && buf == [] && labels == map[] && fixups == []
    {
      this.origin := origin;
      buf, labels, fixups := [], map[], [];
    }

    /** Refused, and nothing changed, when the name is taken. */
    method Label(name: string) returns (ok: bool)
      requires Valid()
      modifies this
      ensures Valid() && buf == old(buf) && fixups == old(fixups)
      ensures ok == (name !in old(labels))
      ensures labels == if ok then old(labels)[name := |buf|] else old(labels)
    {
      if name in labels { return false; }
      labels := labels[name := |buf|];
      return true;
    }

    method Emit(bytes: Bytes)
      requires Valid()
      modifies this`buf
      ensures Valid() && buf == old(buf) + bytes
    {
      buf := buf + bytes;
    }

    /** Any emitter without a label: append its bytes, or raise before appending. */
    method Instruction(i: Instr) returns (ok: bool)
      requires Valid()
      modifies this`buf
      ensures Valid() && ok == Encode(i).Some?
      ensures buf == if ok then old(buf) + Encode(i).value else old(buf)
    {
      var bytes := Encode(i);
      if bytes == None { return false; }
      Emit(bytes.value);
      return true;
    }

    /** An opcode followed by a hole to be filled by `Link`. */
    method Hole(opcode: Bytes, name: string, kind: Kind)
      requires Valid()
      modifies this
      ensures Valid() && labels == old(labels)
      ensures fixups == old(fixups) + [Fixup(|old(buf)| + |opcode|, name, kind)]
      ensures buf == old(buf) + opcode + seq(fixups[|old(fixups)|].Size(), _ => 0)
    {
      Emit(opcode);
      fixups := fixups + [Fixup(|buf|, name, kind)];
      buf := buf + seq(fixups[|fixups| - 1].Size(), _ => 0);
    }

    method Jmp(name: string)
      requires Valid()
      modifies this
      ensures Valid() && labels == old(labels) && fixups == old(fixups) + [Fixup(|old(buf)| + 1, name, Rel)]
      ensures buf == old(buf) + [0xE9, 0, 0, 0, 0]
    {
      Hole([0xE9], name, Rel);
    }

    method Jcc(cc: bv4, name: string)
      requires Valid()
      modifies this
      ensures Valid() && labels == old(labels) && fixups == old(fixups) + [Fixup(|old(buf)| + 2, name, Rel)]
      ensures buf == old(buf) + [0x0F, 0x80 + (cc as bv8), 0, 0, 0, 0]
    {
      Hole([0x0F, 0x80 + (cc as bv8)], name, Rel);
    }

    method Call(name: string)
      requires Valid()
      modifies this
      ensures Valid() && labels == old(labels) && fixups == old(fixups) + [Fixup(|old(buf)| + 1, name, Rel)]
      ensures buf == old(buf) + [0xE8, 0, 0, 0, 0]
    {
      Hole([0xE8], name, Rel);
    }

    method MovLabel(r: HReg, name: string)
      requires Valid()
      modifies this
      ensures Valid() && labels == old(labels) && fixups == old(fixups) + [Fixup(|old(buf)| + 2, name, Abs)]
      ensures buf == old(buf) + [RexWB(r), 0xB8 + (Num(r) & 7), 0, 0, 0, 0, 0, 0, 0, 0]
    {
      Hole([RexWB(r), 0xB8 + (Num(r) & 7)], name, Abs);
    }

    /** Patch every fixup in order. A failure leaves the earlier ones patched
        and every byte outside the fixups alone. */
    method Link() returns (image: Option<Bytes>)
      requires Valid()
      modifies this`buf
      ensures Valid() && |buf| == |old(buf)|
      ensures image == PatchAll(old(buf), fixups, labels, origin)
      ensures image.Some? ==> buf == image.value
      ensures forall p ::
        0 <= p < |buf| && (forall k :: 0 <= k < |fixups| ==> !fixups[k].Covers(p)) ==> buf[p] == old(buf)[p]
    {
      hide Field;
      var i := 0;
      while i < |fixups|
        invariant 0 <= i <= |fixups| && |buf| == |old(buf)|
        invariant PatchAll(buf, fixups[i..], labels, origin) == PatchAll(old(buf), fixups, labels, origin)
        invariant forall p ::
          0 <= p < |buf| && (forall k :: 0 <= k < |fixups| ==> !fixups[k].Covers(p)) ==> buf[p] == old(buf)[p]
      {
        var f := fixups[i];
        var field := Field(f, labels, origin);
        if field == None { return None; }
        FieldSize(f, labels, origin);
        assert fixups[i..][1..] == fixups[i + 1..];
        buf := Overwrite(buf, f.off, field.value);
        i := i + 1;
      }
      return Some(buf);
    }
  }

  // ---- what linking does ----

  lemma {:induction false} PatchesExactly(b: Bytes, fixups: seq<Fixup>, labels: map<string, int>, origin: int)
    requires Placed(fixups, |b|)
    ensures PatchAll(b, fixups, labels, origin).Some? <==>
      forall k :: 0 <= k < |fixups| ==> Field(fixups[k], labels, origin).Some?
    decreases |fixups|
  {
    hide Field;
    if fixups != [] && Field(fixups[0], labels, origin).Some? {
      FieldSize(fixups[0], labels, origin);
      PatchesExactly(Overwrite(b, fixups[0].off, Field(fixups[0], labels, origin).value), fixups[1..], labels,
        origin);
      assert forall k :: 0 < k < |fixups| ==> fixups[k] == fixups[1..][k - 1];
    }
  }

  /** A fixup's label is defined and its value fits four signed or eight unsigned bytes. */
  predicate Packs(f: Fixup, labels: map<string, int>, origin: int) {
    && f.name in labels
    && (f.kind == Rel ==> -0x8000_0000 <= labels[f.name] - (f.off + 4) < 0x8000_0000)
    && (f.kind == Abs ==> 0 <= origin + labels[f.name] < 0x1_0000_0000_0000_0000)
  }

  lemma FieldExactly(f: Fixup, labels: map<string, int>, origin: int)
    ensures Field(f, labels, origin).Some? <==> Packs(f, labels, origin)
  {
    hide Le4, Le8;
  }

  /** Linking succeeds exactly when every label is defined and every value packs. */
  lemma LinkSucceedsExactly(b: Bytes, fixups: seq<Fixup>, labels: map<string, int>, origin: int)
    requires Placed(fixups, |b|)
    ensures PatchAll(b, fixups, labels, origin).Some? <==>
      forall k :: 0 <= k < |fixups| ==> Packs(fixups[k], labels, origin)
  {
    hide Field, Packs, PatchAll;
    PatchesExactly(b, fixups, labels, origin);
    forall k | 0 <= k < |fixups|
      ensures Field(fixups[k], labels, origin).Some? <==> Packs(fixups[k], labels, origin)
    {
      FieldExactly(fixups[k], labels, origin);
    }
  }

  /** Bytes outside the fixups are as emitted, and every fixup holds its field. */
  lemma {:induction false} LinkedBytes(b: Bytes, fixups: seq<Fixup>, labels: map<string, int>, origin: int)
    requires Placed(fixups, |b|) && PatchAll(b, fixups, labels, origin).Some?
    ensures var out := PatchAll(b, fixups, labels, origin).value;
      && |out| == |b|
      && (forall p :: 0 <= p < |b| && (forall k :: 0 <= k < |fixups| ==> !fixups[k].Covers(p)) ==> out[p] == b[p])
      && (forall k :: 0 <= k < |fixups| ==>
            Some(out[fixups[k].off..fixups[k].off + fixups[k].Size()]) == Field(fixups[k], labels, origin))
    decreases |fixups|
  {
    hide Field;
    if fixups != [] {
      var f := fixups[0];
      var v := Field(f, labels, origin).value;
      FieldSize(f, labels, origin);
      var b1 := Overwrite(b, f.off, v);
      LinkedBytes(b1, fixups[1..], labels, origin);
      var out := PatchAll(b, fixups, labels, origin).value;
      forall p | 0 <= p < |b| && (forall k :: 0 < k < |fixups| ==> !fixups[k].Covers(p)) ensures out[p] == b1[p] {
        assert forall k :: 0 <= k < |fixups[1..]| ==> fixups[1..][k] == fixups[k + 1];
      }
      assert out[f.off..f.off + f.Size()] == v;
      forall k | 0 < k < |fixups|
        ensures Some(out[fixups[k].off..fixups[k].off + fixups[k].Size()]) == Field(fixups[k], labels, origin)
      {
        assert fixups[k] == fixups[1..][k - 1];
      }
    }
  }

  /** Patching bytes that already hold their fields changes nothing. */
  lemma {:induction false} PatchIsIdentity(b: Bytes, fixups: seq<Fixup>, labels: map<string, int>, origin: int)
    requires Placed(fixups, |b|)
    requires forall k ::
      0 <= k < |fixups| ==> Some(b[fixups[k].off..fixups[k].off + fixups[k].Size()]) == Field(fixups[k], labels, origin)
    ensures PatchAll(b, fixups, labels, origin) == Some(b)
    decreases |fixups|
  {
    hide Field;
    if fixups != [] {
      var f := fixups[0];
      assert Overwrite(b, f.off, b[f.off..f.off + f.Size()]) == b;
      forall k | 0 <= k < |fixups[1..]|
        ensures Some(b[fixups[1..][k].off..fixups[1..][k].off + fixups[1..][k].Size()])
          == Field(fixups[1..][k], labels, origin)
      {
        assert fixups[1..][k] == fixups[k + 1];
      }
      PatchIsIdentity(b, fixups[1..], labels, origin);
    }
  }

  /** A second `link` changes nothing. */
  lemma LinkTwice(b: Bytes, fixups: seq<Fixup>, labels: map<string, int>, origin: int)
    requires Placed(fixups, |b|) && PatchAll(b, fixups, labels, origin).Some?
    ensures var out := PatchAll(b, fixups, labels, origin).value;
      |out| == |b| && PatchAll(out, fixups, labels, origin) == Some(out)
  {
    LinkedBytes(b, fixups, labels, origin);
    PatchIsIdentity(PatchAll(b, fixups, labels, origin).value, fixups, labels, origin);
  }

  lemma FieldReads(f: Fixup, labels: map<string, int>, origin: int, rest: Bytes)
    requires Field(f, labels, origin).Some?
    ensures var v := Field(f, labels, origin).value;
      && |v| == f.Size() && f.name in labels
      && (f.kind == Rel ==> ReadI32(v + rest) == labels[f.name] - (f.off + 4))
      && (f.kind == Abs ==> FitsU64(origin + labels[f.name]) && ReadU64(v + rest) == (origin + labels[f.name]) as bv64)
  {
    FieldSize(f, labels, origin);
    if f.kind == Rel {
      LittleEndianRoundTrip(labels[f.name] - (f.off + 4), rest);
    } else {
      WordRoundTrip((origin + labels[f.name]) as bv64, rest);
    }
    hide ReadI32, ReadU64, Le4, Le8;
  }

  /** A linked jump lands on its label, and a linked address is the label's. */
  lemma LinkedFieldsRead(b: Bytes, fixups: seq<Fixup>, labels: map<string, int>, origin: int, k: nat)
    requires Placed(fixups, |b|) && PatchAll(b, fixups, labels, origin).Some? && k < |fixups|
    ensures var out := PatchAll(b, fixups, labels, origin).value;
      var f := fixups[k];
      && |out| == |b| && f.name in labels
      && (f.kind == Rel ==> f.off + 4 + ReadI32(out[f.off..]) == labels[f.name])
      && (f.kind == Abs ==>
         FitsU64(origin + labels[f.name]) && ReadU64(out[f.off..]) == (origin + labels[f.name]) as bv64)
  {
    hide PatchAll, Field, ReadI32, ReadU64;
    LinkedBytes(b, fixups, labels, origin);
    var out := PatchAll(b, fixups, labels, origin).value;
    var f := fixups[k];
    assert out[f.off..] == out[f.off..f.off + f.Size()] + out[f.off + f.Size()..];
    FieldReads(f, labels, origin, out[f.off + f.Size()..]);
  }
}
