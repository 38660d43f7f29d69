/**
 Exactly when the packed reader recovers what the static serialiser wrote: when every leaf is at the same
 offset for both. Arrays of padding-free elements are enough; padding after the last leaf does no harm.
 */
module PackedExactness {
  import opened DataLayout
  import opened Bytes
  import opened StructImage
  import opened StructConstants
  import opened PackedImage

  /** Two layouts of a type put every leaf at the same place. */
  predicate SameOffsets(ty: Type, a: Shape, offA: nat, b: Shape, offB: nat)
    requires Describes(a, ty) && Describes(b, ty)
    decreases ty
  {
    if IsAggregate(ty) then
      forall i :: 0 <= i < ChildCount(ty) ==>
        SameOffsets(ChildType(ty, i), a.parts[i].shape, offA + a.parts[i].off, b.parts[i].shape, offB + b.parts[i].off)
    else offA == offB
  }

  lemma {:induction false} SameOffsetsRead(ty: Type, a: Shape, offA: nat, b: Shape, offB: nat, data: seq<Byte>)
    requires Describes(a, ty) && Describes(b, ty) && SameOffsets(ty, a, offA, b, offB)
    requires Fits(data, offA, a) && Fits(data, offB, b)
    ensures Read(data, offA, a) == Read(data, offB, b)
    decreases ty
  {
    if IsAggregate(ty) {
      forall i | 0 <= i < ChildCount(ty)
        ensures Read(data, offA + a.parts[i].off, a.parts[i].shape) == Read(data, offB + b.parts[i].off, b.parts[i].shape)
      {
        SameOffsetsRead(ChildType(ty, i), a.parts[i].shape, offA + a.parts[i].off, b.parts[i].shape, offB + b.parts[i].off, data);
      }
      assert Read(data, offA, a).children == Read(data, offB, b).children;
    }
  }

  /** A leaf at two places: bytes that tell them apart. */
  lemma {:induction false} LeafMoved(ty: Type, offA: nat, offB: nat, len: nat) returns (data: seq<Byte>)
    requires SupportedLeaf(ty) && offA != offB && offA + LeafSize(ty) <= len && offB + LeafSize(ty) <= len
    ensures |data| == len && Read(data, offA, Cell(ty, LeafSize(ty))) != Read(data, offB, Cell(ty, LeafSize(ty)))
  {
    hide FromLittleEndian;
    var n := LeafSize(ty);
    var zeros: seq<Byte> := seq(len, _ => 0);
    data := zeros[offA := 1];
    assert data[offA..offA + n][0] == 1 && data[offB..offB + n][0] == 0;
    LowByte(data[offA..offA + n]);
    LowByte(data[offB..offB + n]);
  }

  /** The layout of a child, and its value inside the value of the whole. */
  lemma {:induction false} ChildPlaced(ty: Type, a: Shape, off: nat, len: nat, i: nat)
    requires IsAggregate(ty) && i < ChildCount(ty) && Describes(a, ty) && WellPlaced(a) && off + a.size <= len
    ensures a.Block? && |a.parts| == ChildCount(ty)
    ensures Describes(a.parts[i].shape, ChildType(ty, i)) && WellPlaced(a.parts[i].shape)
    ensures off + a.parts[i].off + a.parts[i].shape.size <= len
  {
  }

  lemma {:induction false} ChildRead(data: seq<Byte>, off: nat, a: Shape, i: nat)
    requires Fits(data, off, a) && a.Block? && i < |a.parts|
    ensures Fits(data, off + a.parts[i].off, a.parts[i].shape)
    ensures Read(data, off, a).Node? && i < |Read(data, off, a).children|
    ensures Read(data, off, a).children[i] == Read(data, off + a.parts[i].off, a.parts[i].shape)
  {
  }

  /** A child that moved. */
  lemma {:induction false} MovedChild(ty: Type, a: Shape, offA: nat, b: Shape, offB: nat) returns (i: nat)
    requires IsAggregate(ty) && Describes(a, ty) && Describes(b, ty) && !SameOffsets(ty, a, offA, b, offB)
    ensures i < ChildCount(ty)
    ensures !SameOffsets(ChildType(ty, i), a.parts[i].shape, offA + a.parts[i].off, b.parts[i].shape, offB + b.parts[i].off)
  {
    i :| 0 <= i < ChildCount(ty) &&
      !SameOffsets(ChildType(ty, i), a.parts[i].shape, offA + a.parts[i].off, b.parts[i].shape, offB + b.parts[i].off);
  }

  /** Layouts that differ in an offset are told apart by some bytes. */
  lemma {:induction false} MovedIsVisible(ty: Type, a: Shape, offA: nat, b: Shape, offB: nat, len: nat) returns (data: seq<Byte>)
    requires Supported(ty) && Describes(a, ty) && Describes(b, ty) && !SameOffsets(ty, a, offA, b, offB)
    requires WellPlaced(a) && WellPlaced(b) && offA + a.size <= len && offB + b.size <= len
    ensures |data| == len && Read(data, offA, a) != Read(data, offB, b)
    decreases ty
  {
    if IsAggregate(ty) {
      var i := MovedChild(ty, a, offA, b, offB);
      ChildPlaced(ty, a, offA, len, i);
      ChildPlaced(ty, b, offB, len, i);
      hide Read, WellPlaced, Describes, SameOffsets;
      data := MovedIsVisible(ChildType(ty, i), a.parts[i].shape, offA + a.parts[i].off, b.parts[i].shape, offB + b.parts[i].off, len);
      ChildRead(data, offA, a, i);
      ChildRead(data, offB, b, i);
    } else {
      hide Read;
      data := LeafMoved(ty, offA, offB, len);
    }
  }

  lemma {:induction false} SerializedDescribes(ty: Type)
    ensures Describes(SerializedShape(ty), ty)
  {
    if ty.Struct? {
      forall i | 0 <= i < |ty.fields| ensures Describes(SerializedShape(ty.fields[i]), ty.fields[i]) {
        SerializedDescribes(ty.fields[i]);
      }
    } else {
      LayoutDescribes(ty);
    }
  }

  function Reserved(ty: Type): nat
    requires ty.Struct?
  {
    SumSizes(LayoutShapes(ty.fields), |ty.fields|)
  }

  /** A buffer that the serialiser can have produced. */
  ghost predicate IsSerialized(serialized: seq<Byte>, ty: Type)
    requires ty.Struct?
  {
    |serialized| == HEADER + Reserved(ty) && FromLittleEndian(serialized[..HEADER]) == Reserved(ty)
  }

  /** Both layouts fit the bytes after the header. */
  lemma {:induction false} BothFit(ty: Type)
    requires ty.Struct?
    ensures WellPlaced(PackedShape(ty)) && WellPlaced(SerializedShape(ty))
    ensures PackedShape(ty).size <= Reserved(ty) && SerializedShape(ty).size <= Reserved(ty)
    ensures Describes(PackedShape(ty), ty) && Describes(SerializedShape(ty), ty)
  {
    PackedWellPlaced(ty);
    SerializedWellPlaced(ty);
    PackedDescribes(ty);
    SerializedDescribes(ty);
    SerializedFits(ty.fields);
    assert SerializedShape(ty) == SerializedShape(Struct(ty.fields, false));
    SerializedIsPacked(ty);
  }

  /** The packed reader recovers the value in this buffer. */
  ghost predicate ReadsBack(serialized: seq<Byte>, ty: Type)
    requires ty.Struct? && IsSerialized(serialized, ty)
  {
    && Fits(StripHeader(serialized), 0, PackedShape(ty)) && Fits(serialized, HEADER, SerializedShape(ty))
    && Read(StripHeader(serialized), 0, PackedShape(ty)) == Read(serialized, HEADER, SerializedShape(ty))
  }

  ghost predicate AlwaysReadsBack(ty: Type)
    requires ty.Struct?
  {
    forall serialized :: IsSerialized(serialized, ty) ==> ReadsBack(serialized, ty)
  }

  lemma {:induction false} ReadsBackExactly(serialized: seq<Byte>, ty: Type)
    requires ty.Struct? && IsSerialized(serialized, ty)
    ensures Fits(StripHeader(serialized), 0, PackedShape(ty)) && Fits(StripHeader(serialized), 0, SerializedShape(ty))
    ensures ReadsBack(serialized, ty) <==>
              Read(StripHeader(serialized), 0, PackedShape(ty)) == Read(StripHeader(serialized), 0, SerializedShape(ty))
  {
    hide WellPlaced, Read;
    BothFit(ty);
    var data, shape := StripHeader(serialized), SerializedShape(ty);
    assert data[0..0 + shape.size] == serialized[HEADER..HEADER + shape.size];
    ReadFrame(data, 0, serialized, HEADER, shape);
  }

  lemma {:induction false} WithHeader(data: seq<Byte>, ty: Type) returns (serialized: seq<Byte>)
    requires ty.Struct? && |data| == Reserved(ty) < 0x1_0000_0000
    ensures IsSerialized(serialized, ty) && StripHeader(serialized) == data
  {
    serialized := ToLittleEndian(Reserved(ty), HEADER) + data;
    assert serialized[..HEADER] == ToLittleEndian(Reserved(ty), HEADER);
    assert Pow256(4) == 256 * Pow256(3) == 256 * (256 * Pow256(2)) == 0x1_0000_0000;
    LittleEndianRoundTrip(Reserved(ty), HEADER);
    assert serialized[HEADER..HEADER + |data|] == data;
  }

  /** Every value comes back exactly when the two layouts put every leaf at the same offset. */
  lemma {:induction false} ReadsBackIff(ty: Type)
    requires ty.Struct? && Supported(ty) && Reserved(ty) < 0x1_0000_0000
    ensures Describes(PackedShape(ty), ty) && Describes(SerializedShape(ty), ty)
    ensures AlwaysReadsBack(ty) <==> SameOffsets(ty, PackedShape(ty), 0, SerializedShape(ty), 0)
  {
    hide ReadsBack, Read, WellPlaced, SameOffsets, Describes, FromLittleEndian;
    BothFit(ty);
    if SameOffsets(ty, PackedShape(ty), 0, SerializedShape(ty), 0) {
      forall serialized | IsSerialized(serialized, ty) ensures ReadsBack(serialized, ty) {
        ReadsBackExactly(serialized, ty);
        SameOffsetsRead(ty, PackedShape(ty), 0, SerializedShape(ty), 0, StripHeader(serialized));
      }
    } else {
      var data := MovedIsVisible(ty, PackedShape(ty), 0, SerializedShape(ty), 0, Reserved(ty));
      var serialized := WithHeader(data, ty);
      ReadsBackExactly(serialized, ty);
    }
  }

  lemma {:induction false} SameShapeSameOffsets(ty: Type, a: Shape, off: nat)
    requires Describes(a, ty)
    ensures SameOffsets(ty, a, off, a, off)
    decreases ty
  {
    if IsAggregate(ty) {
      forall i | 0 <= i < ChildCount(ty)
        ensures SameOffsets(ChildType(ty, i), a.parts[i].shape, off + a.parts[i].off, a.parts[i].shape, off + a.parts[i].off)
      {
        SameShapeSameOffsets(ChildType(ty, i), a.parts[i].shape, off + a.parts[i].off);
      }
    }
  }

  /** Arrays of padding-free elements are enough. */
  lemma {:induction false} PaddingFreeReadsBack(ty: Type)
    requires ty.Struct? && Supported(ty) && ArraysPaddingFree(ty) && Reserved(ty) < 0x1_0000_0000
    ensures AlwaysReadsBack(ty)
  {
    ReadsBackIff(ty);
    SerializedIsPacked(ty);
    SameShapeSameOffsets(ty, PackedShape(ty), 0);
  }

  // ----- an array of padded elements -----

  const PADDED := Struct([Int(32), Int(8)], false)

  function PaddedArray(n: nat): Type { Struct([Array(PADDED, n)], false) }

  /** Eight bytes in memory, five packed; both put the leaves at 0 and 4. */
  lemma {:induction false} PaddedShapes()
    ensures var a, b := PackedShape(PADDED), LayoutShape(PADDED);
      && a.Block? && b.Block? && |a.parts| == |b.parts| == 2 && a.size == 5 && b.size == 8
      && a.parts[0].off == b.parts[0].off == 0 && a.parts[1].off == b.parts[1].off == 4
  {
    var fields := PADDED.fields;
    var packed := seq(|fields|, i requires 0 <= i < |fields| => PackedShape(fields[i]));
    assert SumSizes(packed, 0) == 0 && SumSizes(packed, 1) == 4 && SumSizes(packed, 2) == 5;
    assert PackedShape(PADDED) == Tile(packed);
    var placed := seq(|fields|, i requires 0 <= i < |fields| => LayoutShape(fields[i]));
    var aligns := FieldAligns(fields, false);
    assert aligns[0] == A4 && aligns[1] == A1;
    assert PlacedEnd(placed, aligns, 0) == 0 && PlacedEnd(placed, aligns, 1) == 4;
    assert AlignUp(4, A1) == 4 by { OneIsAligned(4); }
    assert PlacedEnd(placed, aligns, 2) == 5;
    assert aligns[1..] == [A1] && MaxAlign([A1]) == A1 && MaxAlign(aligns) == A4;
    assert AlignUp(5, A4) == 8;
    assert LayoutShape(PADDED) == Place(placed, aligns);
  }

  lemma {:induction false} OneIsAligned(x: nat)
    ensures AlignUp(x, A1) == x
  {
    if x > 1 {
      OneIsAligned(x - 1);
    }
  }

  /** Where element `i` of the array starts for the two. */
  lemma {:induction false} PaddedElements(n: nat, i: nat)
    requires i < n
    ensures var ty := PaddedArray(n);
      var a, b := PackedShape(ty), SerializedShape(ty);
      && a.Block? && b.Block? && |a.parts| == |b.parts| == 1 && a.parts[0].off == b.parts[0].off == 0
      && var x, y := a.parts[0].shape, b.parts[0].shape;
         && x.Block? && y.Block? && |x.parts| == |y.parts| == n
         && x.parts[i] == Part(i * 5, PackedShape(PADDED)) && y.parts[i] == Part(i * 8, LayoutShape(PADDED))
  {
    var ty := PaddedArray(n);
    PaddedShapes();
    assert PackedShape(ty).parts[0].shape == PackedShape(Array(PADDED, n));
    assert SerializedShape(ty).parts[0].shape == LayoutShape(Array(PADDED, n));
    StrideIsSize(PackedShape(PADDED), n, i);
    StrideIsSize(LayoutShape(PADDED), n, i);
  }

  /** An element is read from the right place exactly when both start at the same offset. */
  lemma {:induction false} PaddedSame(offA: nat, offB: nat)
    ensures Describes(PackedShape(PADDED), PADDED) && Describes(LayoutShape(PADDED), PADDED)
    ensures SameOffsets(PADDED, PackedShape(PADDED), offA, LayoutShape(PADDED), offB) <==> offA == offB
  {
    PackedDescribes(PADDED);
    LayoutDescribes(PADDED);
    PaddedShapes();
    var a, b := PackedShape(PADDED), LayoutShape(PADDED);
    assert ChildType(PADDED, 0) == Int(32) && ChildType(PADDED, 1) == Int(8) && ChildCount(PADDED) == 2;
    assert SameOffsets(Int(32), a.parts[0].shape, offA + a.parts[0].off, b.parts[0].shape, offB + b.parts[0].off) <==> offA == offB;
    assert SameOffsets(Int(8), a.parts[1].shape, offA + a.parts[1].off, b.parts[1].shape, offB + b.parts[1].off) <==> offA == offB;
  }

  /** The whole struct: every element from the right place. */
  lemma {:induction false} PaddedArraySame(n: nat)
    ensures var ty := PaddedArray(n);
      && Describes(PackedShape(ty), ty) && Describes(SerializedShape(ty), ty)
      && (SameOffsets(ty, PackedShape(ty), 0, SerializedShape(ty), 0) <==> n <= 1)
  {
    var ty, inner := PaddedArray(n), Array(PADDED, n);
    BothFit(ty);
    hide LayoutShape, PackedShape, SerializedShape;
    var a, b := PackedShape(ty), SerializedShape(ty);
    assert ChildType(ty, 0) == inner && ChildCount(ty) == 1 && ChildCount(inner) == n;
    var x, y := a.parts[0].shape, b.parts[0].shape;
    assert a.parts[0].off == b.parts[0].off == 0 by { PaddedStart(n); }
    forall i | 0 <= i < n
      ensures SameOffsets(PADDED, x.parts[i].shape, 0 + x.parts[i].off, y.parts[i].shape, 0 + y.parts[i].off) <==> i == 0
    {
      PaddedElements(n, i);
      PaddedSame(i * 5, i * 8);
    }
    assert SameOffsets(inner, x, 0, y, 0) <==> n <= 1 by {
      if n > 1 {
        assert !SameOffsets(ChildType(inner, 1), x.parts[1].shape, 0 + x.parts[1].off, y.parts[1].shape, 0 + y.parts[1].off);
      }
    }
  }

  lemma {:induction false} PaddedStart(n: nat)
    ensures var ty := PaddedArray(n);
      var a, b := PackedShape(ty), SerializedShape(ty);
      a.Block? && b.Block? && |a.parts| == |b.parts| == 1 && a.parts[0].off == b.parts[0].off == 0
  {
  }

  /** Arrays of padded elements: every value comes back exactly when there is at most one element. */
  lemma {:induction false} PaddedArrayIff(n: nat)
    requires n * 8 < 0x1_0000_0000
    ensures AlwaysReadsBack(PaddedArray(n)) <==> n <= 1
  {
    hide AlwaysReadsBack, SameOffsets, LayoutShape, PackedShape, SerializedShape;
    PaddedReserved(n);
    PaddedArraySame(n);
    assert Supported(PADDED) && Supported(Array(PADDED, n)) && Supported(PaddedArray(n));
    ReadsBackIff(PaddedArray(n));
  }

  lemma {:induction false} PaddedReserved(n: nat)
    ensures Reserved(PaddedArray(n)) == n * 8
  {
    PaddedShapes();
    var ty := PaddedArray(n);
    var shapes := LayoutShapes(ty.fields);
    assert SumSizes(shapes, 1) == SumSizes(shapes, 0) + shapes[0].size;
    assert shapes[0] == LayoutShape(Array(PADDED, n));
    StrideIsSize(LayoutShape(PADDED), n, n);
  }
}
