/**
 A struct bound by value: the context keeps its bytes as they are in memory, and the pass reads one
 constant per field, each just after the previous one. Padding between fields is not skipped.
 */
module StructByValue {
  import opened DataLayout
  import opened Bytes
  import opened StructImage
  import opened StructConstants
  import opened Specialiser

  function StructOf(types: seq<Type>): Type { Struct(types, false) }

  predicate AllLeaves(types: seq<Type>) {
    forall i :: 0 <= i < |types| ==> SupportedLeaf(types[i])
  }

  /** Where the ABI layout places field `i`. */
  function FieldOffset(types: seq<Type>, i: nat): nat
    requires i < |types|
  {
    LayoutShape(StructOf(types)).parts[i].off
  }

  /** The bytes of a struct in memory. */
  predicate IsImage(data: seq<Byte>, types: seq<Type>) {
    && Fits(data, 0, LayoutShape(StructOf(types)))
    && RawBefore(types, |types|) <= |data| == Size(StructOf(types))
  }

  /** The constant that the pass passes for field `i` is the field's own value. */
  predicate PassesField(data: seq<Byte>, types: seq<Type>, i: nat)
    requires IsImage(data, types) && i < |types|
  {
    var op := FieldOperands(data, types, |types|)[i];
    && op.FieldConst? && op.ty == types[i]
    && op.value.Scalar? && op.value.ty == types[i]
    && Leaf(op.value.bits) == Read(data, 0, LayoutShape(StructOf(types))).children[i]
  }

  ghost predicate AlwaysPassesFields(types: seq<Type>) {
    forall data, i: nat :: IsImage(data, types) && i < |types| ==> PassesField(data, types, i)
  }

  /** No padding before any field. */
  predicate NoGapBetween(types: seq<Type>) {
    forall i :: 0 <= i < |types| ==> FieldOffset(types, i) == RawBefore(types, i)
  }

  /** Packed offsets never exceed those of the layout. */
  lemma {:induction false} RawBelowPlaced(types: seq<Type>, shapes: seq<Shape>, aligns: seq<Alignment>, i: nat)
    requires i <= |types| == |shapes| == |aligns| && forall k :: 0 <= k < |types| ==> shapes[k].size == LeafSize(types[k])
    ensures RawBefore(types, i) <= PlacedEnd(shapes, aligns, i)
  {
    if i > 0 {
      RawBelowPlaced(types, shapes, aligns, i - 1);
    }
  }

  lemma {:induction false} LayoutOfLeaves(types: seq<Type>)
    requires AllLeaves(types)
    ensures var shape := LayoutShape(StructOf(types));
      WellPlaced(shape) && RawBefore(types, |types|) <= shape.size
  {
    var shapes := seq(|types|, i requires 0 <= i < |types| => LayoutShape(types[i]));
    LayoutWellPlaced(StructOf(types));
    RawBelowPlaced(types, shapes, FieldAligns(types, false), |types|);
  }

  /** Field `i` is a cell of its own, inside the struct. */
  lemma {:induction false} LeafPlaced(types: seq<Type>, i: nat)
    requires AllLeaves(types) && i < |types|
    ensures var shape := LayoutShape(StructOf(types));
      && shape.Block? && |shape.parts| == |types|
      && shape.parts[i].shape == Cell(types[i], LeafSize(types[i]))
      && shape.parts[i].off + LeafSize(types[i]) <= shape.size
      && LeafSize(types[i]) >= 1
  {
    LayoutWellPlaced(StructOf(types));
  }

  lemma {:induction false} OperandRead(data: seq<Byte>, types: seq<Type>, i: nat)
    requires AllLeaves(types) && RawBefore(types, |types|) <= |data| && i < |types|
    ensures var n, at := LeafSize(types[i]), RawBefore(types, i);
      && at + n <= |data|
      && FieldOperands(data, types, |types|)[i] == FieldConst(types[i], Scalar(types[i], FromLittleEndian(data[at..at + n])))
  {
    hide FieldOperands, FromLittleEndian;
    FieldOperandAt(data, types, |types|, i);
  }

  lemma {:induction false} LayoutRead(data: seq<Byte>, shape: Shape, i: nat, ty: Type, n: nat)
    requires Fits(data, 0, shape) && shape.Block? && i < |shape.parts| && shape.parts[i].shape == Cell(ty, n)
    ensures var off := shape.parts[i].off;
      off + n <= |data| && Read(data, 0, shape).children[i] == Leaf(FromLittleEndian(data[off..off + n]))
  {
    hide FromLittleEndian;
    assert Read(data, 0, shape).children[i] == Read(data, shape.parts[i].off, shape.parts[i].shape);
  }

  /** Which bytes the pass reads for a field, and which bytes hold it. */
  lemma {:induction false} BothReads(data: seq<Byte>, types: seq<Type>, i: nat)
    requires AllLeaves(types) && IsImage(data, types) && i < |types|
    ensures var n, at, off := LeafSize(types[i]), RawBefore(types, i), FieldOffset(types, i);
      && at + n <= |data| && off + n <= |data|
      && (PassesField(data, types, i) <==> FromLittleEndian(data[at..at + n]) == FromLittleEndian(data[off..off + n]))
  {
    hide FieldOperands, FromLittleEndian, Read, LayoutShape, WellPlaced;
    LeafPlaced(types, i);
    OperandRead(data, types, i);
    LayoutRead(data, LayoutShape(StructOf(types)), i, types[i], LeafSize(types[i]));
  }

  /** A gap before field `i` is visible: an image whose only non-zero byte is the first of the field. */
  lemma {:induction false} GapIsVisible(types: seq<Type>, i: nat) returns (data: seq<Byte>)
    requires AllLeaves(types) && i < |types| && FieldOffset(types, i) != RawBefore(types, i)
    ensures IsImage(data, types) && !PassesField(data, types, i)
  {
    hide FieldOperands, FromLittleEndian, Read, LayoutShape, WellPlaced, PassesField;
    LayoutOfLeaves(types);
    LeafPlaced(types, i);
    var n, at, off := LeafSize(types[i]), RawBefore(types, i), FieldOffset(types, i);
    var zeros: seq<Byte> := seq(Size(StructOf(types)), _ => 0);
    data := zeros[off := 1];
    BothReads(data, types, i);
    assert n >= 1 && data[at..at + n][0] == 0 && data[off..off + n][0] == 1;
    LowByte(data[at..at + n]);
    LowByte(data[off..off + n]);
  }

  /** Every struct is passed field by field as it is in memory exactly when its type has no padding before a field. */
  lemma {:induction false} PassedIffNoGap(types: seq<Type>)
    requires AllLeaves(types)
    ensures AlwaysPassesFields(types) <==> NoGapBetween(types)
  {
    hide PassesField, FieldOffset;
    if NoGapBetween(types) {
      forall data, i: nat | IsImage(data, types) && i < |types| ensures PassesField(data, types, i) {
        BothReads(data, types, i);
      }
    } else {
      var i: nat :| i < |types| && FieldOffset(types, i) != RawBefore(types, i);
      var data := GapIsVisible(types, i);
    }
  }

  /** An argument lowered to a single type has nothing before it to skip. */
  lemma {:induction false} SingleTypePasses(ty: Type)
    requires SupportedLeaf(ty)
    ensures AlwaysPassesFields([ty])
  {
    var types := [ty];
    var shapes, aligns := seq(1, i requires 0 <= i < 1 => LayoutShape(types[i])), FieldAligns(types, false);
    assert FieldOffset(types, 0) == PlacedOffset(shapes, aligns, 0) == 0 by {
      assert PlacedEnd(shapes, aligns, 0) == 0;
    }
    assert RawBefore(types, 0) == 0;
    PassedIffNoGap(types);
  }

  /** A float followed by a double: four padding bytes are read as part of the double. */
  lemma {:induction false} PaddedStructCounterexample()
    ensures var types := [Float, Double];
      AllLeaves(types) && FieldOffset(types, 1) == 8 && RawBefore(types, 1) == 4 && !AlwaysPassesFields(types)
  {
    var types := [Float, Double];
    var shapes := seq(|types|, i requires 0 <= i < |types| => LayoutShape(types[i]));
    var aligns := FieldAligns(types, false);
    assert PlacedEnd(shapes, aligns, 0) == 0 && AlignUp(0, A4) == 0;
    assert PlacedEnd(shapes, aligns, 1) == 4;
    assert AlignUp(4, A8) == 8;
    assert RawBefore(types, 0) == 0;
    PassedIffNoGap(types);
  }
}
