/**
 Images of values in memory. A value is a tree of bit patterns; it is written into a buffer at the
 offsets of a shape, leaving the bytes between its leaves alone, and read back by the same offsets.
 */
module StructImage {
  import opened DataLayout
  import opened Bytes

  datatype Tree = Leaf(bits: nat) | Node(children: seq<Tree>)

  predicate HasShape(v: Tree, s: Shape)
    decreases s
  {
    match s
    case Cell(_, size) => v.Leaf? && v.bits < Pow256(size)
    case Block(parts, _) =>
      && v.Node? && |v.children| == |parts|
      && forall i :: 0 <= i < |parts| ==> HasShape(v.children[i], parts[i].shape)
  }

  function Splice(buf: seq<Byte>, off: nat, bytes: seq<Byte>): (r: seq<Byte>)
    requires off + |bytes| <= |buf|
    ensures |r| == |buf|
    ensures r[off..off + |bytes|] == bytes
    ensures forall k :: 0 <= k < |buf| && !(off <= k < off + |bytes|) ==> r[k] == buf[k]
  {
    buf[..off] + bytes + buf[off + |bytes|..]
  }

  predicate Fits(buf: seq<Byte>, off: nat, s: Shape) {
    WellPlaced(s) && off + s.size <= |buf|
  }

  /** `v` stored at `off` of `buf`; bytes that belong to no leaf keep their old contents. */
  function Write(buf: seq<Byte>, off: nat, s: Shape, v: Tree): (r: seq<Byte>)
    requires Fits(buf, off, s) && HasShape(v, s)
    ensures |r| == |buf|
    decreases s
  {
    match s
    case Cell(_, size) => Splice(buf, off, ToLittleEndian(v.bits, size))
    case Block(parts, _) => WriteParts(buf, off, s, v, |parts|)
  }

  /** The first `i` parts stored. */
  function WriteParts(buf: seq<Byte>, off: nat, s: Shape, v: Tree, i: nat): (r: seq<Byte>)
    requires Fits(buf, off, s) && HasShape(v, s) && s.Block? && i <= |s.parts|
    ensures |r| == |buf|
    decreases s, i
  {
    if i == 0 then buf
    else Write(WriteParts(buf, off, s, v, i - 1), off + s.parts[i - 1].off, s.parts[i - 1].shape, v.children[i - 1])
  }

  /** The value at `off` of `raw`. */
  function Read(raw: seq<Byte>, off: nat, s: Shape): Tree
    requires Fits(raw, off, s)
    decreases s
  {
    match s
    case Cell(_, size) => Leaf(FromLittleEndian(raw[off..off + size]))
    case Block(parts, _) =>
      Node(seq(|parts|, i requires 0 <= i < |parts| => Read(raw, off + parts[i].off, parts[i].shape)))
  }

  /** The member of `v` that a GEP path designates. */
  predicate ValidPath(v: Tree, path: seq<nat>) {
    path == [] || (v.Node? && path[0] < |v.children| && ValidPath(v.children[path[0]], path[1..]))
  }

  function At(v: Tree, path: seq<nat>): Tree
    requires ValidPath(v, path)
  {
    if path == [] then v else At(v.children[path[0]], path[1..])
  }

  lemma {:induction false} AtChild(v: Tree, path: seq<nat>, i: nat)
    requires ValidPath(v, path) && At(v, path).Node? && i < |At(v, path).children|
    ensures ValidPath(v, path + [i]) && At(v, path + [i]) == At(v, path).children[i]
  {
    if path == [] {
      assert (path + [i])[1..] == [];
    } else {
      AtChild(v.children[path[0]], path[1..], i);
      assert (path + [i])[1..] == path[1..] + [i];
    }
  }

  /** A write touches nothing outside the value's own range. */
  lemma {:induction false} WriteFrame(buf: seq<Byte>, off: nat, s: Shape, v: Tree)
    requires Fits(buf, off, s) && HasShape(v, s)
    ensures forall k :: 0 <= k < |buf| && !(off <= k < off + s.size) ==> Write(buf, off, s, v)[k] == buf[k]
    decreases s
  {
    if s.Block? {
      WritePartsFrame(buf, off, s, v, 0, |s.parts|);
    }
  }

  /** Writing parts `i..j` keeps everything outside the block and everything in the parts before `i`. */
  lemma {:induction false} WritePartsFrame(buf: seq<Byte>, off: nat, s: Shape, v: Tree, i: nat, j: nat)
    requires Fits(buf, off, s) && HasShape(v, s) && s.Block? && i <= j <= |s.parts|
    ensures forall k :: 0 <= k < |buf| && !(off <= k < off + s.size) ==>
              WriteParts(buf, off, s, v, j)[k] == WriteParts(buf, off, s, v, i)[k]
    ensures forall m, k :: 0 <= m < i && 0 <= k < |buf| && k < off + s.parts[m].off + s.parts[m].shape.size ==>
              WriteParts(buf, off, s, v, j)[k] == WriteParts(buf, off, s, v, i)[k]
    decreases s, j
  {
    if i < j {
      WritePartsFrame(buf, off, s, v, i, j - 1);
      WriteFrame(WriteParts(buf, off, s, v, j - 1), off + s.parts[j - 1].off, s.parts[j - 1].shape, v.children[j - 1]);
    }
  }

  lemma {:induction false} SubRange(a: seq<Byte>, off: nat, size: nat, lo: nat, hi: nat)
    requires off + size <= |a| && lo <= hi <= size
    ensures a[off + lo..off + hi] == a[off..off + size][lo..hi]
  {
    var inner := a[off..off + size];
    forall k | lo <= k < hi ensures inner[k] == a[off + k] {
    }
    assert |a[off + lo..off + hi]| == |inner[lo..hi]|;
    forall k | 0 <= k < hi - lo ensures a[off + lo..off + hi][k] == inner[lo..hi][k] {
      assert inner[lo..hi][k] == inner[lo + k];
    }
  }

  /** Reading depends only on the value's own range. */
  lemma {:induction false} ReadFrame(a: seq<Byte>, off: nat, b: seq<Byte>, off': nat, s: Shape)
    requires Fits(a, off, s) && Fits(b, off', s)
    requires a[off..off + s.size] == b[off'..off' + s.size]
    ensures Read(a, off, s) == Read(b, off', s)
    decreases s
  {
    if s.Block? {
      forall i | 0 <= i < |s.parts|
        ensures Read(a, off, s).children[i] == Read(b, off', s).children[i]
      {
        var lo, hi := s.parts[i].off, s.parts[i].off + s.parts[i].shape.size;
        SubRange(a, off, s.size, lo, hi);
        SubRange(b, off', s.size, lo, hi);
        ReadFrame(a, off + lo, b, off' + lo, s.parts[i].shape);
      }
    }
  }

  /** Laying a value out, over any padding, and reading it back by offsets is the identity. */
  lemma {:induction false} ImageRoundTrip(buf: seq<Byte>, off: nat, s: Shape, v: Tree)
    requires Fits(buf, off, s) && HasShape(v, s)
    ensures Read(Write(buf, off, s, v), off, s) == v
    decreases s
  {
    if s.Block? {
      forall i | 0 <= i < |s.parts|
        ensures Read(Write(buf, off, s, v), off, s).children[i] == v.children[i]
      {
        PartRoundTrip(buf, off, s, v, i);
      }
      assert Read(Write(buf, off, s, v), off, s).children == v.children;
    } else {
      LittleEndianRoundTrip(v.bits, s.size);
    }
  }

  lemma {:induction false} PartRoundTrip(buf: seq<Byte>, off: nat, s: Shape, v: Tree, i: nat)
    requires Fits(buf, off, s) && HasShape(v, s) && s.Block? && i < |s.parts|
    ensures Read(Write(buf, off, s, v), off, s).children[i] == v.children[i]
    decreases s, 0
  {
    var part := s.parts[i];
    var start := off + part.off;
    var after := WriteParts(buf, off, s, v, i + 1);
    var image := WriteParts(buf, off, s, v, |s.parts|);
    ImageRoundTrip(WriteParts(buf, off, s, v, i), start, part.shape, v.children[i]);
    WritePartsFrame(buf, off, s, v, i + 1, |s.parts|);
    assert image[start..start + part.shape.size] == after[start..start + part.shape.size];
    ReadFrame(after, start, image, start, part.shape);
  }

  // ----- where the leaves are -----

  datatype Slot = Slot(off: nat, ty: Type, size: nat)

  ghost function Leaves(s: Shape, off: nat): seq<Slot>
    decreases s
  {
    match s
    case Cell(ty, size) => [Slot(off, ty, size)]
    case Block(parts, _) => LeavesUpTo(s, off, |parts|)
  }

  ghost function LeavesUpTo(s: Shape, off: nat, i: nat): seq<Slot>
    requires s.Block? && i <= |s.parts|
    decreases s, i
  {
    if i == 0 then []
    else LeavesUpTo(s, off, i - 1) + Leaves(s.parts[i - 1].shape, off + s.parts[i - 1].off)
  }

  /** The slots follow one another without overlap between `lo` and `hi`. */
  ghost predicate Ordered(slots: seq<Slot>, lo: nat, hi: nat) {
    && (forall i :: 0 <= i < |slots| ==> lo <= slots[i].off && slots[i].off + slots[i].size <= hi)
    && (forall i, j :: 0 <= i < j < |slots| ==> slots[i].off + slots[i].size <= slots[j].off)
  }

  /** All leaf ranges are disjoint, in order, and inside the value's range. */
  lemma {:induction false} LeavesDisjoint(s: Shape, off: nat)
    requires WellPlaced(s)
    ensures Ordered(Leaves(s, off), off, off + s.size)
    decreases s
  {
    if s.Block? {
      LeavesUpToDisjoint(s, off, |s.parts|);
    }
  }

  lemma {:induction false} LeavesUpToDisjoint(s: Shape, off: nat, i: nat)
    requires WellPlaced(s) && s.Block? && i <= |s.parts|
    ensures Ordered(LeavesUpTo(s, off, i), off, off + s.size)
    ensures forall k, j :: 0 <= k < |LeavesUpTo(s, off, i)| && i <= j < |s.parts| ==>
              LeavesUpTo(s, off, i)[k].off + LeavesUpTo(s, off, i)[k].size <= off + s.parts[j].off
    decreases s, i
  {
    if i > 0 {
      LeavesUpToDisjoint(s, off, i - 1);
      LeavesDisjoint(s.parts[i - 1].shape, off + s.parts[i - 1].off);
    }
  }

  // ----- alignment -----

  predicate NoPackedStruct(ty: Type) {
    match ty
    case Struct(fields, packed) => !packed && forall i :: 0 <= i < |fields| ==> NoPackedStruct(fields[i])
    case Array(elem, _) => NoPackedStruct(elem)
    case _ => true
  }

  lemma {:induction false} HalfStep(x: nat, step: nat)
    requires step > 0 && IsMultiple(x, 2 * step)
    ensures IsMultiple(x, step)
  {
    if x > 0 {
      HalfStep(x - 2 * step, step);
      assert IsMultiple(x - step, step);
    }
  }

  lemma {:induction false} Weaker(x: nat, a: Alignment, b: Alignment)
    requires IsAligned(x, a) && b.Bytes() <= a.Bytes()
    ensures IsAligned(x, b)
  {
    if a == A8 && b != A8 { HalfStep(x, 4); }
    if a.Bytes() >= 4 && b.Bytes() < 4 { HalfStep(x, 2); }
    if a.Bytes() >= 2 && b == A1 { HalfStep(x, 1); }
  }

  lemma {:induction false} MultipleSum(x: nat, y: nat, step: nat)
    requires step > 0 && IsMultiple(x, step) && IsMultiple(y, step)
    ensures IsMultiple(x + y, step)
  {
    if x > 0 {
      MultipleSum(x - step, y, step);
    }
  }

  lemma {:induction false} AlignedSum(x: nat, y: nat, a: Alignment)
    requires IsAligned(x, a) && IsAligned(y, a)
    ensures IsAligned(x + y, a)
  {
    MultipleSum(x, y, a.Bytes());
  }

  lemma {:induction false} MaxAlignIsMax(aligns: seq<Alignment>, i: nat)
    requires i < |aligns|
    ensures aligns[i].Bytes() <= MaxAlign(aligns).Bytes()
  {
    if i > 0 {
      MaxAlignIsMax(aligns[1..], i - 1);
    }
  }

  lemma {:induction false} SumAligned(shapes: seq<Shape>, i: nat, a: Alignment)
    requires i <= |shapes| && forall k :: 0 <= k < |shapes| ==> IsAligned(shapes[k].size, a)
    ensures IsAligned(SumSizes(shapes, i), a)
  {
    if i > 0 {
      SumAligned(shapes, i - 1, a);
      AlignedSum(SumSizes(shapes, i - 1), shapes[i - 1].size, a);
    }
  }

  lemma {:induction false} SizeAligned(ty: Type)
    requires Supported(ty)
    ensures IsAligned(Size(ty), Align(ty))
  {
    match ty
    case Struct(fields, packed) =>
      var shapes := seq(|fields|, i requires 0 <= i < |fields| => LayoutShape(fields[i]));
      RoundUpMultiple(PlacedEnd(shapes, FieldAligns(fields, packed), |fields|), Align(ty).Bytes());
    case Array(elem, n) =>
      SizeAligned(elem);
      SumAligned(seq(n, _ => LayoutShape(elem)), n, Align(elem));
    case _ =>
  }

  lemma {:induction false} MemberAligned(shapes: seq<Shape>, aligns: seq<Alignment>, off: nat, i: nat)
    requires i < |shapes| == |aligns| && IsAligned(off, MaxAlign(aligns))
    ensures IsAligned(off + PlacedOffset(shapes, aligns, i), aligns[i])
  {
    MaxAlignIsMax(aligns, i);
    Weaker(off, MaxAlign(aligns), aligns[i]);
    RoundUpMultiple(PlacedEnd(shapes, aligns, i), aligns[i].Bytes());
    AlignedSum(off, PlacedOffset(shapes, aligns, i), aligns[i]);
  }

  /** Every leaf of the shape, placed at `off`, is at a multiple of its own alignment. */
  predicate LeavesAlignedAt(s: Shape, off: nat)
    decreases s
  {
    match s
    case Cell(ty, _) => IsAligned(off, LeafAlign(ty))
    case Block(parts, _) => forall i :: 0 <= i < |parts| ==> LeavesAlignedAt(parts[i].shape, off + parts[i].off)
  }

  lemma {:induction false} BlockAligned(s: Shape, off: nat)
    requires s.Block? && forall i :: 0 <= i < |s.parts| ==> LeavesAlignedAt(s.parts[i].shape, off + s.parts[i].off)
    ensures LeavesAlignedAt(s, off)
  {
  }

  /** In an aligned image without packed structs every leaf is at a multiple of its own alignment. */
  lemma {:induction false} LayoutAligned(ty: Type, off: nat)
    requires Supported(ty) && NoPackedStruct(ty) && IsAligned(off, Align(ty))
    ensures LeavesAlignedAt(LayoutShape(ty), off)
    decreases ty, 1
  {
    if IsAggregate(ty) {
      var shape := LayoutShape(ty);
      forall i | 0 <= i < |shape.parts| ensures LeavesAlignedAt(shape.parts[i].shape, off + shape.parts[i].off) {
        match ty
        case Struct(fields, packed) => MemberLeavesAligned(fields, shape, off, i);
        case Array(elem, n) => ElementLeavesAligned(elem, n, shape, off, i);
      }
      BlockAligned(shape, off);
    }
  }

  lemma {:induction false} MemberLeavesAligned(fields: seq<Type>, shape: Shape, off: nat, i: nat)
    requires i < |fields| && Supported(fields[i]) && NoPackedStruct(fields[i])
    requires IsAligned(off, MaxAlign(FieldAligns(fields, false)))
    requires shape == LayoutShape(Struct(fields, false))
    ensures LeavesAlignedAt(shape.parts[i].shape, off + shape.parts[i].off)
    decreases fields, 0
  {
    var shapes := seq(|fields|, i requires 0 <= i < |fields| => LayoutShape(fields[i]));
    MemberAligned(shapes, FieldAligns(fields, false), off, i);
    LayoutAligned(fields[i], off + shape.parts[i].off);
  }

  lemma {:induction false} ElementLeavesAligned(elem: Type, n: nat, shape: Shape, off: nat, i: nat)
    requires i < n && Supported(elem) && NoPackedStruct(elem) && IsAligned(off, Align(elem))
    requires shape == LayoutShape(Array(elem, n))
    ensures LeavesAlignedAt(shape.parts[i].shape, off + shape.parts[i].off)
    decreases elem, 2
  {
    var shapes := seq(n, _ => LayoutShape(elem));
    SizeAligned(elem);
    SumAligned(shapes, i, Align(elem));
    AlignedSum(off, SumSizes(shapes, i), Align(elem));
    LayoutAligned(elem, off + shape.parts[i].off);
  }
}
