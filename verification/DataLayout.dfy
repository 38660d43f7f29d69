/**
 IR types and where their leaves live in memory. A `Shape` is a layout object: a cell for each leaf
 and, for an aggregate, the offset of each part. Three shapes matter to the struct walks: the ABI
 layout, the packed layout of the reader, and the layout produced by the static serialiser.
 */
module DataLayout {

  datatype Type =
    | Void
    | Int(width: nat)
    | Float
    | Double
    | Ptr(to: Type)
    | Struct(fields: seq<Type>, packed: bool)
    | Array(elem: Type, n: nat)
    | Fn(ret: Type, params: seq<Type>, varArg: bool)

  predicate IsAggregate(ty: Type) { ty.Struct? || ty.Array? }

  predicate IsFunctionPointer(ty: Type) { ty.Ptr? && ty.to.Fn? }

  /** The leaves for which the raw reader builds a constant. */
  predicate SupportedLeaf(ty: Type) {
    match ty
    case Int(w) => w == 8 || w == 16 || w == 32 || w == 64
    case Float | Double => true
    case Ptr(to) => to.Fn?
    case _ => false
  }

  predicate Supported(ty: Type) {
    match ty
    case Struct(fields, _) => forall i :: 0 <= i < |fields| ==> Supported(fields[i])
    case Array(elem, _) => Supported(elem)
    case _ => SupportedLeaf(ty)
  }

  function LeafSize(ty: Type): nat {
    match ty
    case Int(w) => (w + 7) / 8
    case Float => 4
    case Double | Ptr(_) => 8
    case _ => 0
  }

  function ChildCount(ty: Type): nat {
    match ty case Struct(fields, _) => |fields| case Array(_, n) => n case _ => 0
  }

  function ChildType(ty: Type, i: nat): (child: Type)
    requires i < ChildCount(ty)
    ensures child < ty
  {
    match ty case Struct(fields, _) => fields[i] case Array(elem, _) => elem
  }

  /** The type of the member a path designates. */
  predicate TypePath(ty: Type, path: seq<nat>) {
    path == [] || (path[0] < ChildCount(ty) && TypePath(ChildType(ty, path[0]), path[1..]))
  }

  function TypeAt(ty: Type, path: seq<nat>): Type
    requires TypePath(ty, path)
  {
    if path == [] then ty else TypeAt(ChildType(ty, path[0]), path[1..])
  }

  // ----- alignment -----

  /** ABI alignments: one, two, four or eight bytes for the types modelled here. */
  datatype Alignment = A1 | A2 | A4 | A8 {
    function Bytes(): (n: nat)
      ensures n > 0
    {
      match this case A1 => 1 case A2 => 2 case A4 => 4 case A8 => 8
    }
  }

  predicate IsMultiple(x: nat, step: nat)
    requires step > 0
  {
    x == 0 || (x >= step && IsMultiple(x - step, step))
  }

  predicate IsAligned(x: nat, a: Alignment) {
    IsMultiple(x, a.Bytes())
  }

  /** The least multiple of `step` that is at least `x`. */
  function RoundUp(x: nat, step: nat): (r: nat)
    requires step > 0
    ensures x <= r < x + step
  {
    if x == 0 then 0
    else if x <= step then step
    else step + RoundUp(x - step, step)
  }

  function AlignUp(x: nat, a: Alignment): (r: nat)
    ensures x <= r
  {
    RoundUp(x, a.Bytes())
  }

  lemma {:induction false} RoundUpMultiple(x: nat, step: nat)
    requires step > 0
    ensures IsMultiple(RoundUp(x, step), step)
  {
    if x > step {
      RoundUpMultiple(x - step, step);
    } else {
      assert IsMultiple(step - step, step);
    }
  }

  function LeafAlign(ty: Type): Alignment {
    match ty
    case Int(w) => if w == 16 then A2 else if w == 32 then A4 else if w == 64 then A8 else A1
    case Float => A4
    case Double | Ptr(_) => A8
    case _ => A1
  }

  function Stricter(a: Alignment, b: Alignment): Alignment {
    if a.Bytes() < b.Bytes() then b else a
  }

  function MaxAlign(aligns: seq<Alignment>): Alignment {
    if aligns == [] then A1 else Stricter(aligns[0], MaxAlign(aligns[1..]))
  }

  function FieldAligns(fields: seq<Type>, packed: bool): (aligns: seq<Alignment>)
    ensures |aligns| == |fields|
    decreases fields
  {
    seq(|fields|, i requires 0 <= i < |fields| => if packed then A1 else Align(fields[i]))
  }

  function Align(ty: Type): Alignment {
    match ty
    case Struct(fields, packed) => MaxAlign(FieldAligns(fields, packed))
    case Array(elem, _) => Align(elem)
    case _ => LeafAlign(ty)
  }

  // ----- shapes -----

  datatype Part = Part(off: nat, shape: Shape)
  datatype Shape = Cell(ty: Type, size: nat) | Block(parts: seq<Part>, size: nat)

  /** Parts follow one another without overlap and stay inside the block. */
  predicate WellPlaced(s: Shape) {
    s.Block? ==>
      && (forall i :: 0 <= i < |s.parts| ==> WellPlaced(s.parts[i].shape))
      && (forall i :: 0 <= i < |s.parts| ==> s.parts[i].off + s.parts[i].shape.size <= s.size)
      && (forall i, j :: 0 <= i < j < |s.parts| ==> s.parts[i].off + s.parts[i].shape.size <= s.parts[j].off)
  }

  function SumSizes(shapes: seq<Shape>, i: nat): nat
    requires i <= |shapes|
  {
    if i == 0 then 0 else SumSizes(shapes, i - 1) + shapes[i - 1].size
  }

  /** The parts back to back. */
  function Tile(shapes: seq<Shape>): Shape {
    Block(seq(|shapes|, i requires 0 <= i < |shapes| => Part(SumSizes(shapes, i), shapes[i])), SumSizes(shapes, |shapes|))
  }

  /** Where the first `i` members end, before the next one is aligned. */
  function PlacedEnd(shapes: seq<Shape>, aligns: seq<Alignment>, i: nat): nat
    requires i <= |shapes| == |aligns|
  {
    if i == 0 then 0 else AlignUp(PlacedEnd(shapes, aligns, i - 1), aligns[i - 1]) + shapes[i - 1].size
  }

  function PlacedOffset(shapes: seq<Shape>, aligns: seq<Alignment>, i: nat): nat
    requires i < |shapes| == |aligns|
  {
    AlignUp(PlacedEnd(shapes, aligns, i), aligns[i])
  }

  /** Each part at the next aligned offset, the whole rounded up to the strictest alignment. */
  function Place(shapes: seq<Shape>, aligns: seq<Alignment>): Shape
    requires |shapes| == |aligns|
  {
    Block(seq(|shapes|, i requires 0 <= i < |shapes| => Part(PlacedOffset(shapes, aligns, i), shapes[i])),
          AlignUp(PlacedEnd(shapes, aligns, |shapes|), MaxAlign(aligns)))
  }

  /** The ABI layout, as LLVM's struct layouts and array strides define it. */
  function LayoutShape(ty: Type): Shape {
    match ty
    case Struct(fields, packed) =>
      Place(seq(|fields|, i requires 0 <= i < |fields| => LayoutShape(fields[i])), FieldAligns(fields, packed))
    case Array(elem, n) => Tile(seq(n, _ => LayoutShape(elem)))
    case _ => Cell(ty, LeafSize(ty))
  }

  /** The packed walk advances by exactly what each leaf consumed. */
  function PackedShape(ty: Type): Shape {
    match ty
    case Struct(fields, _) => Tile(seq(|fields|, i requires 0 <= i < |fields| => PackedShape(fields[i])))
    case Array(elem, n) => Tile(seq(n, _ => PackedShape(elem)))
    case _ => Cell(ty, LeafSize(ty))
  }

  /** The serialiser packs the members of structs, but stores any other member, arrays included, as it is in memory. */
  function SerializedShape(ty: Type): Shape {
    match ty
    case Struct(fields, _) => Tile(seq(|fields|, i requires 0 <= i < |fields| => SerializedShape(fields[i])))
    case _ => LayoutShape(ty)
  }

  /** Allocation size; for every type here it is also the store size. */
  function Size(ty: Type): nat { LayoutShape(ty).size }

  // ----- every shape is well placed -----

  lemma {:induction false} SumSizesMono(shapes: seq<Shape>, i: nat, j: nat)
    requires i <= j <= |shapes|
    ensures SumSizes(shapes, i) <= SumSizes(shapes, j)
  {
    if i < j {
      SumSizesMono(shapes, i, j - 1);
    }
  }

  lemma {:induction false} TileWellPlaced(shapes: seq<Shape>)
    requires forall i :: 0 <= i < |shapes| ==> WellPlaced(shapes[i])
    ensures WellPlaced(Tile(shapes))
  {
    var t := Tile(shapes);
    forall i | 0 <= i < |shapes| ensures t.parts[i].off + t.parts[i].shape.size <= t.size {
      SumSizesMono(shapes, i + 1, |shapes|);
    }
    forall i, j | 0 <= i < j < |shapes| ensures t.parts[i].off + t.parts[i].shape.size <= t.parts[j].off {
      SumSizesMono(shapes, i + 1, j);
    }
  }

  lemma {:induction false} PlacedEndMono(shapes: seq<Shape>, aligns: seq<Alignment>, i: nat, j: nat)
    requires i <= j <= |shapes| == |aligns|
    ensures PlacedEnd(shapes, aligns, i) <= PlacedEnd(shapes, aligns, j)
  {
    if i < j {
      PlacedEndMono(shapes, aligns, i, j - 1);
    }
  }

  lemma {:induction false} MemberBefore(shapes: seq<Shape>, aligns: seq<Alignment>, i: nat, j: nat)
    requires i < j <= |shapes| == |aligns|
    ensures PlacedOffset(shapes, aligns, i) + shapes[i].size <= PlacedEnd(shapes, aligns, j)
  {
    PlacedEndMono(shapes, aligns, i + 1, j);
  }

  lemma {:induction false} PlaceWellPlaced(shapes: seq<Shape>, aligns: seq<Alignment>)
    requires |shapes| == |aligns|
    requires forall i :: 0 <= i < |shapes| ==> WellPlaced(shapes[i])
    ensures WellPlaced(Place(shapes, aligns))
  {
    var t := Place(shapes, aligns);
    forall i | 0 <= i < |shapes| ensures t.parts[i].off + t.parts[i].shape.size <= t.size {
      MemberBefore(shapes, aligns, i, |shapes|);
    }
    forall i, j | 0 <= i < j < |shapes| ensures t.parts[i].off + t.parts[i].shape.size <= t.parts[j].off {
      MemberBefore(shapes, aligns, i, j);
    }
  }

  lemma {:induction false} LayoutWellPlaced(ty: Type)
    ensures WellPlaced(LayoutShape(ty))
  {
    match ty
    case Struct(fields, packed) =>
      forall i | 0 <= i < |fields| ensures WellPlaced(LayoutShape(fields[i])) { LayoutWellPlaced(fields[i]); }
      PlaceWellPlaced(seq(|fields|, i requires 0 <= i < |fields| => LayoutShape(fields[i])), FieldAligns(fields, packed));
    case Array(elem, n) =>
      LayoutWellPlaced(elem);
      TileWellPlaced(seq(n, _ => LayoutShape(elem)));
    case _ =>
  }

  lemma {:induction false} PackedWellPlaced(ty: Type)
    ensures WellPlaced(PackedShape(ty))
  {
    match ty
    case Struct(fields, _) =>
      forall i | 0 <= i < |fields| ensures WellPlaced(PackedShape(fields[i])) { PackedWellPlaced(fields[i]); }
      TileWellPlaced(seq(|fields|, i requires 0 <= i < |fields| => PackedShape(fields[i])));
    case Array(elem, n) =>
      PackedWellPlaced(elem);
      TileWellPlaced(seq(n, _ => PackedShape(elem)));
    case _ =>
  }

  lemma {:induction false} SerializedWellPlaced(ty: Type)
    ensures WellPlaced(SerializedShape(ty))
  {
    match ty
    case Struct(fields, _) =>
      forall i | 0 <= i < |fields| ensures WellPlaced(SerializedShape(fields[i])) { SerializedWellPlaced(fields[i]); }
      TileWellPlaced(seq(|fields|, i requires 0 <= i < |fields| => SerializedShape(fields[i])));
    case _ => LayoutWellPlaced(ty);
  }

  /** The stride of an array is the size of its element. */
  lemma {:induction false} StrideIsSize(s: Shape, n: nat, i: nat)
    requires i <= n
    ensures SumSizes(seq(n, _ => s), i) == i * s.size
  {
    if i > 0 {
      StrideIsSize(s, n, i - 1);
    }
  }

  /** Every supported leaf has the size of its type and is naturally aligned. */
  lemma {:induction false} NaturalAlignment(ty: Type)
    requires SupportedLeaf(ty)
    ensures LeafAlign(ty).Bytes() == LeafSize(ty)
    ensures 8 * LeafSize(ty) == match ty case Int(w) => w case Float => 32 case _ => 64
  {
  }
}
