/** Whole programs for class Asm of asm64.py: any sequence of instructions, jumps and
    labels, linked and read back. */
module Linking {
  import opened Wrappers
  import opened X86Lines
  import opened Encoding
  import opened Assembler

  /** One call of the assembler. */
  datatype Stmt =
    | Put(i: Instr)
    | Jmp(name: string)
    | Jcc(cc: bv4, name: string)
    | Call(name: string)
    | MovLabel(r: HReg, name: string)
    | Label(name: string)

  /** The call leaves a hole, to be filled with where a label is. */
  predicate Holed(p: Stmt) { p.Jmp? || p.Jcc? || p.Call? || p.MovLabel? }

  function Opcode(p: Stmt): Bytes {
    match p
    case Jmp(_) => [0xE9]
    case Jcc(cc, _) => [0x0F, 0x80 + (cc as bv8)]
    case Call(_) => [0xE8]
    case MovLabel(r, _) => [RexWB(r), 0xB8 + (Num(r) & 7)]
    case _ => []
  }

  function HoleOf(p: Stmt, at: nat): Fixup
    requires Holed(p)
  {
    Fixup(at + |Opcode(p)|, p.name, if p.MovLabel? then Abs else Rel)
  }

  function Zero(n: nat): Bytes { seq(n, _ => 0) }

  /** The bytes a call appends. */
  function Piece(p: Stmt, at: nat): Bytes {
    if Holed(p) then Opcode(p) + Zero(HoleOf(p, at).Size())
    else if p.Put? && Encode(p.i).Some? then Encode(p.i).value
    else []
  }

  /** Buffer, fixups and labels after the calls. */
  function Emitted(ps: seq<Stmt>): Bytes {
    if ps == [] then [] else Emitted(ps[..|ps| - 1]) + Piece(ps[|ps| - 1], |Emitted(ps[..|ps| - 1])|)
  }

  function Fixups(ps: seq<Stmt>): seq<Fixup> {
    if ps == [] then []
    else
      var front, p := ps[..|ps| - 1], ps[|ps| - 1];
      Fixups(front) + (if Holed(p) then [HoleOf(p, |Emitted(front)|)] else [])
  }

  function Labels(ps: seq<Stmt>): map<string, int> {
    if ps == [] then map[]
    else if ps[|ps| - 1].Label? then Labels(ps[..|ps| - 1])[ps[|ps| - 1].name := |Emitted(ps[..|ps| - 1])|]
    else Labels(ps[..|ps| - 1])
  }

  /** No call raises: each instruction is one the emitters take, and no label is
      defined twice. */
  predicate Accepted(ps: seq<Stmt>) {
    ps != [] ==>
      && Accepted(ps[..|ps| - 1])
      && (ps[|ps| - 1].Put? ==> Encode(ps[|ps| - 1].i).Some?)
      && (ps[|ps| - 1].Label? ==> ps[|ps| - 1].name !in Labels(ps[..|ps| - 1]))
  }

  /** The instruction a call stands for once the labels are known. */
  function Resolved(p: Stmt, at: nat, labels: map<string, int>, origin: int): Option<Instr> {
    if p.Put? then Some(p.i)
    else if p.Label? || p.name !in labels then None
    else
      var target := labels[p.name];
      if p.Jmp? then Some(JmpRel(target - (at + 5)))
      else if p.Jcc? then Some(JccRel(p.cc, target - (at + 6)))
      else if p.Call? then Some(CallRel(target - (at + 5)))
      else if FitsU64(origin + target) then Some(MovImm(p.r, (origin + target) as bv64))
      else None
  }

  /** The instruction list the calls stand for. */
  function Code(ps: seq<Stmt>, labels: map<string, int>, origin: int): seq<Instr> {
    if ps == [] then []
    else
      var front, p := ps[..|ps| - 1], ps[|ps| - 1];
      match Resolved(p, |Emitted(front)|, labels, origin)
      case None => Code(front, labels, origin)
      case Some(i) => Code(front, labels, origin) + [i]
  }

  // ---- the class does that ----

  /** The calls in order, then link; None as soon as one raises. */
  method Assemble(ps: seq<Stmt>, origin: int) returns (image: Option<Bytes>)
    ensures PlacedAll(ps)
    ensures image == if Accepted(ps) then PatchAll(Emitted(ps), Fixups(ps), Labels(ps), origin) else None
  {
    hide Emitted, Fixups, Labels, Accepted, Encode, Placed, Piece, HoleOf, PatchAll, RexWB, Num;
    var a := new Asm(origin);
    var k := 0;
    Nothing();
    while k < |ps|
      invariant 0 <= k <= |ps| && a.Valid() && fresh(a) && a.origin == origin && Accepted(ps[..k])
      invariant a.buf == Emitted(ps[..k]) && a.fixups == Fixups(ps[..k]) && a.labels == Labels(ps[..k])
    {
      var p := ps[k];
      OneMore(ps, k);
      PieceBytes(p, |a.buf|);
      var ok := true;
      match p {
        case Put(i) => ok := a.Instruction(i);
        case Jmp(name) => a.Jmp(name);
        case Jcc(cc, name) => a.Jcc(cc, name);
        case Call(name) => a.Call(name);
        case MovLabel(r, name) => a.MovLabel(r, name);
        case Label(name) => ok := a.Label(name);
      }
      if !ok {
        RefusedFrom(ps, k + 1);
        AllPlaced(ps);
        return None;
      }
      k := k + 1;
    }
    assert ps[..k] == ps;
    AllPlaced(ps);
    image := a.Link();
  }

  lemma PieceBytes(p: Stmt, at: nat)
    ensures match p
      case Jmp(_) => Piece(p, at) == [0xE9, 0, 0, 0, 0] && HoleOf(p, at) == Fixup(at + 1, p.name, Rel)
      case Jcc(cc, _) => Piece(p, at) == [0x0F, 0x80 + (cc as bv8), 0, 0, 0, 0]
        && HoleOf(p, at) == Fixup(at + 2, p.name, Rel)
      case Call(_) => Piece(p, at) == [0xE8, 0, 0, 0, 0] && HoleOf(p, at) == Fixup(at + 1, p.name, Rel)
      case MovLabel(r, _) =>
        && Piece(p, at) == [RexWB(r), 0xB8 + (Num(r) & 7), 0, 0, 0, 0, 0, 0, 0, 0]
        && HoleOf(p, at) == Fixup(at + 2, p.name, Abs)
      case Put(i) => Piece(p, at) == if Encode(i).Some? then Encode(i).value else []
      case Label(_) => Piece(p, at) == []
  {
    hide Encode, RexWB, Num;
  }

  ghost predicate PlacedAll(ps: seq<Stmt>) { Placed(Fixups(ps), |Emitted(ps)|) }

  lemma Nothing()
    ensures forall ps: seq<Stmt> ::
      Emitted(ps[..0]) == [] && Fixups(ps[..0]) == [] && Labels(ps[..0]) == map[] && Accepted(ps[..0])
  {
  }

  /** State after one more call. */
  lemma OneMore(ps: seq<Stmt>, k: nat)
    requires k < |ps|
    ensures
      var front, p := ps[..k], ps[k];
      && Emitted(ps[..k + 1]) == Emitted(front) + Piece(p, |Emitted(front)|)
      && Fixups(ps[..k + 1]) == Fixups(front) + (if Holed(p) then [HoleOf(p, |Emitted(front)|)] else [])
      && Labels(ps[..k + 1]) == (if p.Label? then Labels(front)[p.name := |Emitted(front)|] else Labels(front))
      && (Accepted(ps[..k + 1]) <==>
            Accepted(front) && (p.Put? ==> Encode(p.i).Some?) && (p.Label? ==> p.name !in Labels(front)))
  {
    hide Encode, Piece, HoleOf;
    assert ps[..k + 1][..k] == ps[..k];
  }

  lemma {:induction false} RefusedFrom(ps: seq<Stmt>, k: nat)
    requires k <= |ps| && !Accepted(ps[..k])
    ensures !Accepted(ps)
    decreases |ps| - k
  {
    if k < |ps| {
      OneMore(ps, k);
      RefusedFrom(ps, k + 1);
    } else {
      assert ps[..k] == ps;
    }
  }

  lemma {:induction false} AllPlaced(ps: seq<Stmt>)
    ensures PlacedAll(ps) && Placed(Fixups(ps), |Emitted(ps)|)
    decreases |ps|
  {
    hide Piece;
    if ps != [] {
      AllPlaced(ps[..|ps| - 1]);
      PieceSize(ps[|ps| - 1], |Emitted(ps[..|ps| - 1])|);
    }
  }

  lemma PieceSize(p: Stmt, at: nat)
    ensures Holed(p) ==>
      && at + |Piece(p, at)| == HoleOf(p, at).off + HoleOf(p, at).Size()
      && HoleOf(p, at).off == at + |Opcode(p)|
  {
  }

  // ---- the linked bytes are the instruction list ----

  /** The image agrees with a buffer and its fixups: fields in the holes, all else as
      emitted. */
  ghost predicate Filled(out: Bytes, b: Bytes, fs: seq<Fixup>, labels: map<string, int>, origin: int) {
    && Placed(fs, |b|) && |b| <= |out|
    && (forall k :: 0 <= k < |fs| ==> FieldAt(out, fs[k], labels, origin))
    && (forall p :: 0 <= p < |b| && Outside(fs, p) ==> out[p] == b[p])
  }

  ghost predicate FieldAt(out: Bytes, f: Fixup, labels: map<string, int>, origin: int) {
    f.off + f.Size() <= |out| && Some(out[f.off..f.off + f.Size()]) == Field(f, labels, origin)
  }

  predicate Outside(fs: seq<Fixup>, p: int) { forall k :: 0 <= k < |fs| ==> !fs[k].Covers(p) }

  ghost predicate Matches(out: Bytes, ps: seq<Stmt>, labels: map<string, int>, origin: int) {
    Filled(out, Emitted(ps), Fixups(ps), labels, origin)
  }

  lemma ImageMatches(ps: seq<Stmt>, labels: map<string, int>, origin: int)
    requires PlacedAll(ps) && PatchAll(Emitted(ps), Fixups(ps), labels, origin).Some?
    ensures
      var out := PatchAll(Emitted(ps), Fixups(ps), labels, origin).value;
      |out| == |Emitted(ps)| && Matches(out, ps, labels, origin)
  {
    hide Emitted, Fixups, Field, PatchAll;
    LinkedBytes(Emitted(ps), Fixups(ps), labels, origin);
  }

  /** A buffer without its last piece. */
  lemma FrontFilled(out: Bytes, b: Bytes, piece: Bytes, fs: seq<Fixup>, last: seq<Fixup>, labels: map<string, int>,
    origin: int)
    requires Filled(out, b + piece, fs + last, labels, origin) && Placed(fs, |b|) && forall f <- last :: |b| <= f.off
    ensures Filled(out, b, fs, labels, origin)
  {
    hide FieldAt;
    forall k | 0 <= k < |fs| ensures FieldAt(out, fs[k], labels, origin) { assert fs[k] == (fs + last)[k]; }
    forall q | 0 <= q < |b| && Outside(fs, q) ensures out[q] == b[q] {
      assert (b + piece)[q] == b[q];
      OutsideBoth(fs, last, |b|, q);
    }
  }

  lemma OutsideBoth(fs: seq<Fixup>, last: seq<Fixup>, n: nat, q: nat)
    requires Outside(fs, q) && q < n && forall f <- last :: n <= f.off
    ensures Outside(fs + last, q)
  {
    forall k | 0 <= k < |fs + last| ensures !(fs + last)[k].Covers(q) {
      if k < |fs| { assert (fs + last)[k] == fs[k]; } else { assert (fs + last)[k] in last; }
    }
  }

  /** Positions past the earlier fixups are covered by the last one or by none. */
  lemma PastAll(fs: seq<Fixup>, last: seq<Fixup>, n: nat, q: nat)
    requires Placed(fs, n) && n <= q && forall f <- last :: !f.Covers(q)
    ensures Outside(fs + last, q)
  {
    forall k | 0 <= k < |fs + last| ensures !(fs + last)[k].Covers(q) {
      if k < |fs| { assert (fs + last)[k] == fs[k]; } else { assert (fs + last)[k] in last; }
    }
  }

  /** The bytes of the last piece before its hole, if it has one. */
  lemma PieceLies(out: Bytes, b: Bytes, front: Bytes, hole: Bytes, fs: seq<Fixup>, last: seq<Fixup>, labels: map<string,
    int>, origin: int)
    requires Filled(out, b + (front + hole), fs + last, labels, origin) && Placed(fs, |b|) && forall f <- last ::
      |b| + |front| <= f.off
    ensures |b| + |front| <= |out| && out[|b|..|b| + |front|] == front
  {
    hide FieldAt;
    forall q | |b| <= q < |b| + |front| ensures out[q] == front[q - |b|] {
      assert (b + (front + hole))[q] == front[q - |b|];
      PastAll(fs, last, |b|, q);
    }
  }

  lemma HoleLies(out: Bytes, b: Bytes, fs: seq<Fixup>, f: Fixup, labels: map<string, int>, origin: int)
    requires Filled(out, b, fs + [f], labels, origin)
    ensures FieldAt(out, f, labels, origin)
  {
    hide FieldAt;
    assert (fs + [f])[|fs|] == f;
  }

  /** What the image says about the last call, and about those before it. */
  lemma LastMatches(out: Bytes, ps: seq<Stmt>, labels: map<string, int>, origin: int)
    requires ps != [] && Matches(out, ps, labels, origin)
    ensures
      var front, p := ps[..|ps| - 1], ps[|ps| - 1];
      var at := |Emitted(front)|;
      && Matches(out, front, labels, origin) && |Emitted(ps)| == at + |Piece(p, at)| <= |out|
      && (if Holed(p) then
            FieldAt(out, HoleOf(p, at), labels, origin) && out[at..at + |Opcode(p)|] == Opcode(p)
              && at + |Opcode(p)| == HoleOf(p, at).off
          else out[at..at + |Piece(p, at)|] == Piece(p, at))
  {
    hide *;
    var front, p := ps[..|ps| - 1], ps[|ps| - 1];
    assert ps[..|ps|] == ps;
    OneMore(ps, |ps| - 1);
    MatchesIs(out, ps, labels, origin);
    MatchesIs(out, front, labels, origin);
    AllPlaced(front);
    LastFilled(out, Emitted(front), Fixups(front), p, labels, origin);
  }

  lemma MatchesIs(out: Bytes, ps: seq<Stmt>, labels: map<string, int>, origin: int)
    ensures Matches(out, ps, labels, origin) <==> Filled(out, Emitted(ps), Fixups(ps), labels, origin)
  {
    hide Emitted, Fixups, Filled;
  }

  lemma LastFilled(out: Bytes, b: Bytes, fs: seq<Fixup>, p: Stmt, labels: map<string, int>, origin: int)
    requires Placed(fs, |b|)
    requires Filled(out, b + Piece(p, |b|), fs + (if Holed(p) then [HoleOf(p, |b|)] else []), labels, origin)
    ensures Filled(out, b, fs, labels, origin) && |b| + |Piece(p, |b|)| <= |out|
    ensures Holed(p) ==>
      && FieldAt(out, HoleOf(p, |b|), labels, origin) && |b| + |Opcode(p)| == HoleOf(p, |b|).off
      && out[|b|..|b| + |Opcode(p)|] == Opcode(p)
    ensures !Holed(p) ==> out[|b|..|b| + |Piece(p, |b|)|] == Piece(p, |b|)
  {
    var piece, last := Piece(p, |b|), if Holed(p) then [HoleOf(p, |b|)] else [];
    PieceSize(p, |b|);
    assert Holed(p) ==> piece == Opcode(p) + Zero(HoleOf(p, |b|).Size());
    assert piece + [] == piece;
    hide Piece, FieldAt, Opcode, Filled, Placed, Zero, HoleOf;
    FrontFilled(out, b, piece, fs, last, labels, origin);
    FilledInside(out, b + piece, fs + last, labels, origin);
    if Holed(p) {
      HoleLies(out, b + piece, fs, HoleOf(p, |b|), labels, origin);
      PieceLies(out, b, Opcode(p), Zero(HoleOf(p, |b|).Size()), fs, last, labels, origin);
    } else {
      PieceLies(out, b, piece, [], fs, last, labels, origin);
    }
  }

  lemma FilledInside(out: Bytes, b: Bytes, fs: seq<Fixup>, labels: map<string, int>, origin: int)
    requires Filled(out, b, fs, labels, origin)
    ensures |b| <= |out|
  {
    hide FieldAt, Placed;
  }

  lemma RelEncodes(p: Stmt, at: nat, labels: map<string, int>, origin: int)
    requires (p.Jmp? || p.Jcc? || p.Call?) && p.name in labels && FitsI32(labels[p.name] - (HoleOf(p, at).off + 4))
    ensures Resolved(p, at, labels, origin).Some?
    ensures Encode(Resolved(p, at, labels, origin).value)
      == Some(Opcode(p) + Le4(labels[p.name] - (HoleOf(p, at).off + 4)))
  {
    hide Le4, FitsI32;
    assert |Opcode(p)| == if p.Jcc? then 2 else 1;
  }

  lemma AbsEncodes(p: Stmt, at: nat, labels: map<string, int>, origin: int)
    requires p.MovLabel? && p.name in labels && FitsU64(origin + labels[p.name])
    ensures Resolved(p, at, labels, origin).Some?
    ensures Encode(Resolved(p, at, labels, origin).value) == Some(Opcode(p) + Le8((origin + labels[p.name]) as bv64))
  {
    hide Le8, RexWB, Num;
  }

  /** A filled hole after its opcode is the resolved instruction. */
  lemma HoleEncodes(p: Stmt, at: nat, labels: map<string, int>, origin: int)
    requires Holed(p) && Field(HoleOf(p, at), labels, origin).Some?
    ensures Resolved(p, at, labels, origin).Some?
    ensures Encode(Resolved(p, at, labels, origin).value)
      == Some(Opcode(p) + Field(HoleOf(p, at), labels, origin).value)
  {
    hide Le4, Le8, FitsI32, Encode, Resolved, Opcode;
    if p.MovLabel? { AbsEncodes(p, at, labels, origin); } else { RelEncodes(p, at, labels, origin); }
  }

  lemma LastEncodes(out: Bytes, ps: seq<Stmt>, labels: map<string, int>, origin: int)
    requires ps != [] && Accepted(ps) && Matches(out, ps, labels, origin)
    ensures
      var p, at := ps[|ps| - 1], |Emitted(ps[..|ps| - 1])|;
      var i := Resolved(p, at, labels, origin);
      && Matches(out, ps[..|ps| - 1], labels, origin) && |Emitted(ps)| == at + |Piece(p, at)| <= |out|
      && (if p.Label? then i == None && Piece(p, at) == []
          else i.Some? && Encode(i.value) == Some(out[at..|Emitted(ps)|]))
  {
    hide Encode, Matches, Emitted, Fixups, Field, Opcode;
    var p, at := ps[|ps| - 1], |Emitted(ps[..|ps| - 1])|;
    LastMatches(out, ps, labels, origin);
    if Holed(p) {
      HoleEncodes(p, at, labels, origin);
      PieceSize(p, at);
      var f := HoleOf(p, at);
      assert out[at..f.off] + out[f.off..f.off + f.Size()] == out[at..f.off + f.Size()];
    }
  }

  /** The image up to any point is the encoding of the instructions up to there. */
  lemma {:induction false} ImageIsCode(out: Bytes, ps: seq<Stmt>, labels: map<string, int>, origin: int)
    requires Accepted(ps) && Matches(out, ps, labels, origin)
    ensures |Emitted(ps)| <= |out| && EncodeAll(Code(ps, labels, origin)) == Some(out[..|Emitted(ps)|])
    decreases |ps|
  {
    hide Encode, Matches, Resolved, Piece;
    if ps != [] {
      var front, p := ps[..|ps| - 1], ps[|ps| - 1];
      LastEncodes(out, ps, labels, origin);
      ImageIsCode(out, front, labels, origin);
      if !p.Label? {
        EncodeSnoc(Code(front, labels, origin), Resolved(p, |Emitted(front)|, labels, origin).value);
        assert out[..|Emitted(front)|] + out[|Emitted(front)|..|Emitted(ps)|] == out[..|Emitted(ps)|];
      }
    } else {
      assert EncodeAll([]) == Some([]) && out[..0] == [];
    }
  }

  lemma {:induction false} PrefixMatches(out: Bytes, ps: seq<Stmt>, k: nat, labels: map<string, int>, origin: int)
    requires k <= |ps| && Accepted(ps) && Matches(out, ps, labels, origin)
    ensures Accepted(ps[..k]) && Matches(out, ps[..k], labels, origin)
    decreases |ps|
  {
    hide Matches;
    if k < |ps| {
      var front := ps[..|ps| - 1];
      LastMatches(out, ps, labels, origin);
      PrefixMatches(out, front, k, labels, origin);
      assert front[..k] == ps[..k];
    } else {
      assert ps[..k] == ps;
    }
  }

  /** Main result: the linked image of any accepted calls is the instruction list they
      stand for, and reads back as that list. */
  lemma LinkedReadsBack(ps: seq<Stmt>, origin: int)
    requires Accepted(ps) && PlacedAll(ps) && PatchAll(Emitted(ps), Fixups(ps), Labels(ps), origin).Some?
    ensures
      var out, code := PatchAll(Emitted(ps), Fixups(ps), Labels(ps), origin).value, Code(ps, Labels(ps), origin);
      EncodeAll(code) == Some(out) && DecodeAll(out) == Some(AllAsRead(code))
  {
    assert Placed(Fixups(ps), |Emitted(ps)|);
    hide *;
    var out := PatchAll(Emitted(ps), Fixups(ps), Labels(ps), origin).value;
    ImageMatches(ps, Labels(ps), origin);
    ImageIsCode(out, ps, Labels(ps), origin);
    assert out[..|out|] == out;
    ListReadsBack(Code(ps, Labels(ps), origin));
  }

  lemma {:induction false} LabelIsAt(ps: seq<Stmt>, name: string) returns (k: nat)
    requires name in Labels(ps)
    ensures k < |ps| && ps[k] == Label(name) && Labels(ps)[name] == |Emitted(ps[..k])|
    decreases |ps|
  {
    hide Emitted;
    var front, p := ps[..|ps| - 1], ps[|ps| - 1];
    if p.Label? && p.name == name {
      k := |ps| - 1;
    } else {
      k := LabelIsAt(front, name);
      assert front[..k] == ps[..k];
    }
  }

  /** And every branch in it lands on the first byte after the instructions that come
      before its label. */
  lemma BranchesLand(ps: seq<Stmt>, origin: int, j: nat) returns (k: nat)
    requires Accepted(ps) && PlacedAll(ps) && PatchAll(Emitted(ps), Fixups(ps), Labels(ps), origin).Some?
    requires j < |ps| && (ps[j].Jmp? || ps[j].Jcc? || ps[j].Call?)
    ensures k < |ps| && ps[k] == Label(ps[j].name)
    ensures
      var labels := Labels(ps);
      var before, upto, there :=
        EncodeAll(Code(ps[..j], labels, origin)), EncodeAll(Code(ps[..j + 1], labels, origin)),
        EncodeAll(Code(ps[..k], labels, origin));
      && before.Some? && upto.Some? && there.Some?
      && var i := Resolved(ps[j], |before.value|, labels, origin);
      i.Some? && Branch(i.value) && |upto.value| + Displacement(i.value) == |there.value|
  {
    hide Emitted, Fixups, Labels, Code, PatchAll, Matches, Encode, EncodeAll, Accepted;
    var labels := Labels(ps);
    var out := PatchAll(Emitted(ps), Fixups(ps), labels, origin).value;
    ImageMatches(ps, labels, origin);
    PrefixMatches(out, ps, j, labels, origin);
    PrefixMatches(out, ps, j + 1, labels, origin);
    ImageIsCode(out, ps[..j], labels, origin);
    ImageIsCode(out, ps[..j + 1], labels, origin);
    assert ps[..j + 1][..j] == ps[..j];
    LastEncodes(out, ps[..j + 1], labels, origin);
    var at := |Emitted(ps[..j])|;
    BranchResolves(ps[j], at, labels, origin);
    k := LabelIsAt(ps, ps[j].name);
    PrefixMatches(out, ps, k, labels, origin);
    ImageIsCode(out, ps[..k], labels, origin);
  }

  predicate Branch(i: Instr) { i.JmpRel? || i.JccRel? || i.CallRel? }

  function Displacement(i: Instr): int
    requires Branch(i)
  {
    i.rel
  }

  lemma BranchResolves(p: Stmt, at: nat, labels: map<string, int>, origin: int)
    requires (p.Jmp? || p.Jcc? || p.Call?) && Resolved(p, at, labels, origin).Some?
    ensures p.name in labels && Branch(Resolved(p, at, labels, origin).value)
    ensures at + |Piece(p, at)| + Displacement(Resolved(p, at, labels, origin).value) == labels[p.name]
  {
  }
}
