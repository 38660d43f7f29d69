/**
 Packed images: when the packed layout, the serialiser's layout and the ABI layout coincide, the
 serialiser that writes a struct into a buffer, and the header that is stripped before reading.
 */
module PackedImage {
  import opened DataLayout
  import opened Bytes
  import opened StructImage

  function LayoutShapes(fields: seq<Type>): seq<Shape> {
    seq(|fields|, i requires 0 <= i < |fields| => LayoutShape(fields[i]))
  }

  function PackedShapes(fields: seq<Type>): seq<Shape> {
    seq(|fields|, i requires 0 <= i < |fields| => PackedShape(fields[i]))
  }

  function SerializedShapes(fields: seq<Type>): seq<Shape> {
    seq(|fields|, i requires 0 <= i < |fields| => SerializedShape(fields[i]))
  }

  // ----- padding -----

  /** None of the first `i` members needs padding in front of it. */
  predicate NoGap(shapes: seq<Shape>, aligns: seq<Alignment>, i: nat)
    requires i <= |shapes| == |aligns|
  {
    i == 0 || (NoGap(shapes, aligns, i - 1) && PlacedOffset(shapes, aligns, i - 1) == PlacedEnd(shapes, aligns, i - 1))
  }

  /** The struct's own members leave no gap between them and none at the end. */
  predicate NoOwnPadding(fields: seq<Type>, packed: bool) {
    var shapes, aligns := LayoutShapes(fields), FieldAligns(fields, packed);
    NoGap(shapes, aligns, |fields|) && Size(Struct(fields, packed)) == PlacedEnd(shapes, aligns, |fields|)
  }

  predicate PaddingFree(ty: Type) {
    match ty
    case Struct(fields, packed) =>
      NoOwnPadding(fields, packed) && forall i :: 0 <= i < |fields| ==> PaddingFree(fields[i])
    case Array(elem, n) => n == 0 || PaddingFree(elem)
    case _ => true
  }

  /** Arrays met on the way down through structs hold padding-free elements. */
  predicate ArraysPaddingFree(ty: Type) {
    match ty
    case Struct(fields, _) => forall i :: 0 <= i < |fields| ==> ArraysPaddingFree(fields[i])
    case _ => PaddingFree(ty)
  }

  /** Structs met on the way down through structs have no padding of their own. */
  predicate StructsPaddingFree(ty: Type) {
    match ty
    case Struct(fields, packed) =>
      NoOwnPadding(fields, packed) && forall i :: 0 <= i < |fields| ==> StructsPaddingFree(fields[i])
    case _ => true
  }

  predicate SameSizes(a: seq<Shape>, b: seq<Shape>, i: nat)
    requires i <= |a| == |b|
  {
    forall k :: 0 <= k < i ==> a[k].size == b[k].size
  }

  /** Tiling smaller parts never takes more room than placing the larger ones, and as much only without any gap. */
  lemma {:induction false} SumVersusPlaced(a: seq<Shape>, b: seq<Shape>, aligns: seq<Alignment>, i: nat)
    requires i <= |a| == |b| == |aligns|
    requires forall k :: 0 <= k < |a| ==> a[k].size <= b[k].size
    ensures SumSizes(a, i) <= PlacedEnd(b, aligns, i)
    ensures SumSizes(a, i) == PlacedEnd(b, aligns, i) <==> NoGap(b, aligns, i) && SameSizes(a, b, i)
  {
    if i > 0 {
      SumVersusPlaced(a, b, aligns, i - 1);
    }
  }

  lemma {:induction false} SumVersusSum(a: seq<Shape>, b: seq<Shape>, i: nat)
    requires i <= |a| == |b|
    requires forall k :: 0 <= k < |a| ==> a[k].size <= b[k].size
    ensures SumSizes(a, i) <= SumSizes(b, i)
    ensures SumSizes(a, i) == SumSizes(b, i) <==> SameSizes(a, b, i)
  {
    if i > 0 {
      SumVersusSum(a, b, i - 1);
    }
  }

  /** A struct whose members are tiled is never larger than its ABI layout. */
  lemma {:induction false} StructBelowLayout(fields: seq<Type>, packed: bool, a: seq<Shape>)
    requires |a| == |fields|
    requires forall i :: 0 <= i < |fields| ==> a[i].size <= Size(fields[i])
    ensures Tile(a).size <= Size(Struct(fields, packed))
    ensures Tile(a).size == Size(Struct(fields, packed)) <==>
              NoOwnPadding(fields, packed) && forall i :: 0 <= i < |fields| ==> a[i].size == Size(fields[i])
  {
    var b, aligns := LayoutShapes(fields), FieldAligns(fields, packed);
    SumVersusPlaced(a, b, aligns, |fields|);
    assert LayoutShape(Struct(fields, packed)) == Place(b, aligns);
    assert SameSizes(a, b, |fields|) <==> forall i :: 0 <= i < |fields| ==> a[i].size == Size(fields[i]);
  }

  /** The leaves never need more room than the allocation, and exactly as much when there is no padding anywhere. */
  lemma {:induction false} PackedBelowLayout(ty: Type)
    ensures PackedShape(ty).size <= Size(ty)
    ensures PackedShape(ty).size == Size(ty) <==> PaddingFree(ty)
  {
    match ty
    case Struct(fields, packed) =>
      forall i | 0 <= i < |fields|
        ensures PackedShape(fields[i]).size <= Size(fields[i])
        ensures PackedShape(fields[i]).size == Size(fields[i]) <==> PaddingFree(fields[i])
      {
        PackedBelowLayout(fields[i]);
      }
      StructBelowLayout(fields, packed, PackedShapes(fields));
      assert PackedShape(ty) == Tile(PackedShapes(fields));
    case Array(elem, n) =>
      PackedBelowLayout(elem);
      var a, b := seq(n, _ => PackedShape(elem)), seq(n, _ => LayoutShape(elem));
      SumVersusSum(a, b, n);
      assert n > 0 && SameSizes(a, b, n) ==> a[0].size == b[0].size;
    case _ =>
  }

  lemma {:induction false} NoGapOffset(shapes: seq<Shape>, aligns: seq<Alignment>, n: nat, i: nat)
    requires i <= n <= |shapes| == |aligns| && NoGap(shapes, aligns, n)
    ensures PlacedEnd(shapes, aligns, i) == SumSizes(shapes, i)
    ensures i < n ==> PlacedOffset(shapes, aligns, i) == SumSizes(shapes, i)
    decreases n + i
  {
    if i < n {
      NoGapOffset(shapes, aligns, n - 1, i);
    } else if i > 0 {
      NoGapOffset(shapes, aligns, n, i - 1);
    }
  }

  lemma {:induction false} GapFreePlaceIsTile(shapes: seq<Shape>, aligns: seq<Alignment>)
    requires |shapes| == |aligns| && NoGap(shapes, aligns, |shapes|)
    requires Place(shapes, aligns).size == PlacedEnd(shapes, aligns, |shapes|)
    ensures Place(shapes, aligns) == Tile(shapes)
  {
    var p, t := Place(shapes, aligns), Tile(shapes);
    NoGapOffset(shapes, aligns, |shapes|, |shapes|);
    forall i | 0 <= i < |shapes| ensures p.parts[i] == t.parts[i] {
      NoGapOffset(shapes, aligns, |shapes|, i);
    }
    assert p.parts == t.parts;
  }

  /** The packed walk and the layout walk visit the same offsets exactly for padding-free types. */
  lemma {:induction false} PaddingFreeSameShape(ty: Type)
    ensures PaddingFree(ty) <==> PackedShape(ty) == LayoutShape(ty)
  {
    PackedBelowLayout(ty);
    if PaddingFree(ty) {
      match ty
      case Struct(fields, packed) =>
        forall i | 0 <= i < |fields| ensures PackedShape(fields[i]) == LayoutShape(fields[i]) {
          PaddingFreeSameShape(fields[i]);
        }
        assert PackedShapes(fields) == LayoutShapes(fields);
        assert LayoutShape(ty) == Place(LayoutShapes(fields), FieldAligns(fields, packed));
        GapFreePlaceIsTile(LayoutShapes(fields), FieldAligns(fields, packed));
      case Array(elem, n) =>
        PaddingFreeSameShape(elem);
        assert n > 0 ==> seq(n, _ => PackedShape(elem)) == seq(n, _ => LayoutShape(elem));
      case _ =>
    }
  }

  /** On the image of a padding-free type the two walks read the same value. */
  lemma {:induction false} WalksAgree(raw: seq<Byte>, off: nat, ty: Type)
    requires PaddingFree(ty) && off + Size(ty) <= |raw|
    ensures PackedShape(ty).size == Size(ty) && WellPlaced(LayoutShape(ty)) && WellPlaced(PackedShape(ty))
    ensures Read(raw, off, PackedShape(ty)) == Read(raw, off, LayoutShape(ty))
  {
    PaddingFreeSameShape(ty);
    LayoutWellPlaced(ty);
  }

  /** What the serialiser writes is laid out as the packed reader expects, exactly when arrays hold no padding. */
  lemma {:induction false} SerializedIsPacked(ty: Type)
    ensures PackedShape(ty).size <= SerializedShape(ty).size
    ensures PackedShape(ty).size == SerializedShape(ty).size <==> ArraysPaddingFree(ty)
    ensures ArraysPaddingFree(ty) <==> SerializedShape(ty) == PackedShape(ty)
  {
    match ty
    case Struct(fields, _) =>
      forall i | 0 <= i < |fields|
        ensures PackedShape(fields[i]).size <= SerializedShape(fields[i]).size
        ensures PackedShape(fields[i]).size == SerializedShape(fields[i]).size <==> ArraysPaddingFree(fields[i])
        ensures ArraysPaddingFree(fields[i]) <==> SerializedShape(fields[i]) == PackedShape(fields[i])
      {
        SerializedIsPacked(fields[i]);
      }
      SerializedTileIsPacked(fields);
    case _ =>
      PackedBelowLayout(ty);
      PaddingFreeSameShape(ty);
  }

  lemma {:induction false} SerializedTileIsPacked(fields: seq<Type>)
    requires forall i :: 0 <= i < |fields| ==> PackedShape(fields[i]).size <= SerializedShape(fields[i]).size
    requires forall i :: 0 <= i < |fields| ==>
               (PackedShape(fields[i]).size == SerializedShape(fields[i]).size <==> ArraysPaddingFree(fields[i]))
    requires forall i :: 0 <= i < |fields| ==>
               (ArraysPaddingFree(fields[i]) <==> SerializedShape(fields[i]) == PackedShape(fields[i]))
    ensures Tile(PackedShapes(fields)).size <= Tile(SerializedShapes(fields)).size
    ensures Tile(PackedShapes(fields)).size == Tile(SerializedShapes(fields)).size <==>
              forall i :: 0 <= i < |fields| ==> ArraysPaddingFree(fields[i])
    ensures (forall i :: 0 <= i < |fields| ==> ArraysPaddingFree(fields[i])) ==> PackedShapes(fields) == SerializedShapes(fields)
  {
    var a, b := PackedShapes(fields), SerializedShapes(fields);
    SumVersusSum(a, b, |fields|);
    if SameSizes(a, b, |fields|) {
      forall i | 0 <= i < |fields| ensures ArraysPaddingFree(fields[i]) {
        assert a[i].size == b[i].size;
      }
    }
  }

  /** The serialiser never writes more than the member's store size, and as much only when structs have no padding. */
  lemma {:induction false} SerializedBelowLayout(ty: Type)
    ensures SerializedShape(ty).size <= Size(ty)
    ensures SerializedShape(ty).size == Size(ty) <==> StructsPaddingFree(ty)
  {
    if ty.Struct? {
      var fields := ty.fields;
      forall i | 0 <= i < |fields|
        ensures SerializedShape(fields[i]).size <= Size(fields[i])
        ensures SerializedShape(fields[i]).size == Size(fields[i]) <==> StructsPaddingFree(fields[i])
      {
        SerializedBelowLayout(fields[i]);
      }
      StructBelowLayout(fields, ty.packed, SerializedShapes(fields));
      assert SerializedShape(ty) == Tile(SerializedShapes(fields));
    }
  }

  // ----- the serialised argument -----

  /** The bytes reserved for the members: the sum of their store sizes. */
  method GetStructSize(fields: seq<Type>) returns (size: nat)
    ensures size == SumSizes(LayoutShapes(fields), |fields|)
  {
    size := 0;
    for i := 0 to |fields|
      invariant size == SumSizes(LayoutShapes(fields), i)
    {
      size := size + Size(fields[i]);
    }
  }

  /** The serialised members fit the reserved bytes; they fill them exactly when no nested struct has padding. */
  lemma {:induction false} SerializedFits(fields: seq<Type>)
    ensures SerializedShape(Struct(fields, false)).size <= SumSizes(LayoutShapes(fields), |fields|)
    ensures SerializedShape(Struct(fields, false)).size == SumSizes(LayoutShapes(fields), |fields|) <==>
              forall i :: 0 <= i < |fields| ==> StructsPaddingFree(fields[i])
  {
    var a, b := SerializedShapes(fields), LayoutShapes(fields);
    forall i | 0 <= i < |fields|
      ensures a[i].size <= b[i].size
      ensures a[i].size == b[i].size <==> StructsPaddingFree(fields[i])
    {
      SerializedBelowLayout(fields[i]);
    }
    SumVersusSum(a, b, |fields|);
    assert SerializedShape(Struct(fields, false)) == Tile(a);
  }

  /** Stores the member `v` of type `ty` at `off`, as it is laid out in memory. */
  method Store(buf: array<Byte>, off: nat, ty: Type, v: Tree)
    requires Fits(buf[..], off, LayoutShape(ty)) && HasShape(v, LayoutShape(ty))
    modifies buf
    ensures buf[..] == Write(old(buf[..]), off, LayoutShape(ty), v)
  {
    var image := Write(buf[..], off, LayoutShape(ty), v);
    for k := 0 to buf.Length
      invariant buf[..k] == image[..k]
    {
      buf[k] := image[k];
    }
    assert buf[..] == buf[..buf.Length] && image == image[..buf.Length];
  }

  /** Where the first `i` parts of a tiled shape end. */
  function PartsEnd(shape: Shape, i: nat): nat
    requires shape.Block? && i <= |shape.parts|
  {
    if i < |shape.parts| then shape.parts[i].off else shape.size
  }

  /** From part `i` on, every part starts where the previous one ended. */
  predicate PartsTiled(shape: Shape, i: nat)
    requires shape.Block? && i <= |shape.parts|
    decreases |shape.parts| - i
  {
    i == |shape.parts| ||
    (PartsEnd(shape, i + 1) == PartsEnd(shape, i) + shape.parts[i].shape.size && PartsTiled(shape, i + 1))
  }

  lemma {:induction false} PartsTiledAt(shape: Shape, i: nat, j: nat)
    requires shape.Block? && i <= j < |shape.parts| && PartsTiled(shape, i)
    ensures PartsEnd(shape, j + 1) == PartsEnd(shape, j) + shape.parts[j].shape.size
    decreases j - i
  {
    if i < j {
      PartsTiledAt(shape, i + 1, j);
    }
  }

  lemma {:induction false} TileTiled(shapes: seq<Shape>, i: nat)
    requires i <= |shapes|
    ensures PartsTiled(Tile(shapes), i) && PartsEnd(Tile(shapes), 0) == 0
    decreases |shapes| - i
  {
    if i < |shapes| {
      TileTiled(shapes, i + 1);
    }
  }

  /** `ends[i]` is where the first `i` parts of the shape end and the next one starts. */
  ghost predicate EndsOf(ends: seq<nat>, shape: Shape) {
    && shape.Block? && |ends| == |shape.parts| + 1
    && ends[0] == 0 && ends[|shape.parts|] == shape.size
    && forall i {:trigger shape.parts[i]} :: 0 <= i < |shape.parts| ==>
         ends[i] == shape.parts[i].off && ends[i + 1] == ends[i] + shape.parts[i].shape.size
  }

  lemma {:induction false} SerializedParts(ty: Type, shape: Shape) returns (ends: seq<nat>)
    requires ty.Struct? && shape == SerializedShape(ty)
    ensures EndsOf(ends, shape) && |shape.parts| == |ty.fields|
    ensures forall i :: 0 <= i < |ty.fields| ==> shape.parts[i].shape == SerializedShape(ty.fields[i])
  {
    var shapes := SerializedShapes(ty.fields);
    assert shape == Tile(shapes);
    ends := seq(|shapes| + 1, i requires 0 <= i <= |shapes| => SumSizes(shapes, i));
  }

  /** The stores the serialiser makes, in order: one for each member that is not a struct. */
  ghost function Stores(ty: Type, off: nat): seq<Slot>
    decreases ty
  {
    if ty.Struct? then
      assert SerializedShape(ty) == Tile(SerializedShapes(ty.fields));
      StoresUpTo(ty, SerializedShape(ty), off, |ty.fields|)
    else [Slot(off, ty, Size(ty))]
  }

  ghost function StoresUpTo(ty: Type, shape: Shape, off: nat, i: nat): seq<Slot>
    requires ty.Struct? && shape.Block? && i <= |ty.fields| == |shape.parts|
    decreases ty, i
  {
    if i == 0 then []
    else StoresUpTo(ty, shape, off, i - 1) + Stores(ty.fields[i - 1], off + shape.parts[i - 1].off)
  }

  /** Writes the member of `root` at path `gep`, and returns the offset just after it; `stores` lists the stores made. */
  method SerializeStruct(buf: array<Byte>, offset0: nat, root: Tree, ty: Type, gep: seq<nat>)
    returns (offset: nat, ghost stores: seq<Slot>)
    requires ValidPath(root, gep) && HasShape(At(root, gep), SerializedShape(ty))
    requires Fits(buf[..], offset0, SerializedShape(ty))
    modifies buf
    ensures offset == offset0 + SerializedShape(ty).size
    ensures buf[..] == Write(old(buf[..]), offset0, SerializedShape(ty), At(root, gep))
    ensures stores == Stores(ty, offset0) && Contiguous(stores, offset0, offset)
    decreases ty, 1
  {
    hide Contiguous, HasShape, WellPlaced, ValidPath, At;
    if !ty.Struct? {
      Store(buf, offset0, ty, At(root, gep));
      offset := offset0 + Size(ty);
      stores := [Slot(offset0, ty, Size(ty))];
    } else {
      ghost var ends := SerializedParts(ty, SerializedShape(ty));
      offset, stores := SerializeFields(buf, offset0, root, ty, gep, SerializedShape(ty), ends);
    }
    StoresContiguous(ty, offset0);
  }

  method SerializeFields(buf: array<Byte>, offset0: nat, root: Tree, ty: Type, gep: seq<nat>,
                         ghost shape: Shape, ghost ends: seq<nat>)
    returns (offset: nat, ghost stores: seq<Slot>)
    requires ty.Struct? && EndsOf(ends, shape) && |shape.parts| == |ty.fields|
    requires forall i :: 0 <= i < |ty.fields| ==> shape.parts[i].shape == SerializedShape(ty.fields[i])
    requires ValidPath(root, gep) && HasShape(At(root, gep), shape) && Fits(buf[..], offset0, shape)
    modifies buf
    ensures offset == offset0 + shape.size
    ensures buf[..] == Write(old(buf[..]), offset0, shape, At(root, gep))
    ensures stores == StoresUpTo(ty, shape, offset0, |ty.fields|)
    decreases ty, 0, 1
  {
    hide At, ValidPath, HasShape, WellPlaced, SerializedShape, Stores;
    offset, stores := offset0, [];
    ghost var was := buf[..];
    var path := gep + [0];
    for arg := 0 to |ty.fields|
      invariant |path| == |gep| + 1 && path[..|gep|] == gep
      invariant offset == offset0 + ends[arg]
      invariant buf[..] == WriteParts(was, offset0, shape, At(root, gep), arg)
      invariant stores == StoresUpTo(ty, shape, offset0, arg)
    {
      path := path[|gep| := arg];
      assert path == gep + [arg];
      ghost var more;
      offset, more := SerializeField(buf, offset, root, ty, gep, path, arg, offset0, shape);
      stores := stores + more;
    }
  }

  /** One round of the loop: the member `arg`, which starts at `at`. */
  method SerializeField(buf: array<Byte>, at: nat, root: Tree, ty: Type, ghost gep: seq<nat>, path: seq<nat>, arg: nat,
                        ghost offset0: nat, ghost shape: Shape)
    returns (offset: nat, ghost stores: seq<Slot>)
    requires ty.Struct? && arg < |ty.fields| && shape.Block? && |shape.parts| == |ty.fields|
    requires shape.parts[arg].shape == SerializedShape(ty.fields[arg]) && at == offset0 + shape.parts[arg].off
    requires ValidPath(root, gep) && HasShape(At(root, gep), shape) && Fits(buf[..], offset0, shape)
    requires path == gep + [arg]
    modifies buf
    ensures offset == at + shape.parts[arg].shape.size
    ensures buf[..] == Write(old(buf[..]), at, shape.parts[arg].shape, At(root, gep).children[arg])
    ensures stores == Stores(ty.fields[arg], at)
    decreases ty, 0, 0
  {
    AtChild(root, gep, arg);
    offset, stores := SerializeStruct(buf, at, root, ty.fields[arg], path);
  }

  const HEADER: nat := 4

  /** Allocates the header and the reserved bytes, stores the size and the members. */
  method DefineSerializeStruct(ty: Type, v: Tree) returns (buf: array<Byte>)
    requires ty.Struct? && HasShape(v, SerializedShape(ty))
    ensures fresh(buf)
    ensures buf.Length == HEADER + SumSizes(LayoutShapes(ty.fields), |ty.fields|)
    ensures buf[..HEADER] == ToLittleEndian(SumSizes(LayoutShapes(ty.fields), |ty.fields|), HEADER)
    ensures Fits(buf[..], HEADER, SerializedShape(ty)) && Read(buf[..], HEADER, SerializedShape(ty)) == v
  {
    var argSize := GetStructSize(ty.fields);
    buf := new Byte[HEADER + argSize];
    var header := ToLittleEndian(argSize, HEADER);
    for k := 0 to HEADER
      invariant buf[..k] == header[..k]
    {
      buf[k] := header[k];
    }
    SerializedWellPlaced(ty);
    SerializedFits(ty.fields);
    assert SerializedShape(ty) == SerializedShape(Struct(ty.fields, false));
    ghost var before := buf[..];
    var end, _ := SerializeStruct(buf, HEADER, v, ty, []);
    assert end <= buf.Length;
    WriteFrame(before, HEADER, SerializedShape(ty), v);
    ImageRoundTrip(before, HEADER, SerializedShape(ty), v);
    assert buf[..HEADER] == before[..HEADER];
  }

  /** The run-time side reads a 32-bit size and keeps that many bytes after it. */
  function StripHeader(serialized: seq<Byte>): (data: seq<Byte>)
    requires HEADER <= |serialized|
    requires HEADER + FromLittleEndian(serialized[..HEADER]) <= |serialized|
  {
    serialized[HEADER..HEADER + FromLittleEndian(serialized[..HEADER])]
  }

  /** Serialise, strip the header, read packed: every leaf comes back when arrays hold no padding. */
  lemma {:induction false} PackedRoundTrip(ty: Type, serialized: seq<Byte>, v: Tree)
    requires ty.Struct? && ArraysPaddingFree(ty)
    requires var size := SumSizes(LayoutShapes(ty.fields), |ty.fields|);
      && size < 0x1_0000_0000
      && |serialized| == HEADER + size
      && serialized[..HEADER] == ToLittleEndian(size, HEADER)
    requires Fits(serialized, HEADER, SerializedShape(ty)) && Read(serialized, HEADER, SerializedShape(ty)) == v
    ensures HEADER + FromLittleEndian(serialized[..HEADER]) <= |serialized|
    ensures Fits(StripHeader(serialized), 0, PackedShape(ty))
    ensures Read(StripHeader(serialized), 0, PackedShape(ty)) == v
  {
    var size := SumSizes(LayoutShapes(ty.fields), |ty.fields|);
    assert Pow256(4) == 256 * Pow256(3) == 256 * (256 * Pow256(2)) == 0x1_0000_0000;
    LittleEndianRoundTrip(size, HEADER);
    SerializedIsPacked(ty);
    SerializedFits(ty.fields);
    assert SerializedShape(ty) == SerializedShape(Struct(ty.fields, false));
    var data, shape := StripHeader(serialized), PackedShape(ty);
    assert data[0..0 + shape.size] == serialized[HEADER..HEADER + shape.size];
    ReadFrame(data, 0, serialized, HEADER, shape);
  }

  // ----- the stores are contiguous -----

  /** Each store begins where the previous one ended; together they cover the range from `lo` to `hi`. */
  ghost predicate Contiguous(stores: seq<Slot>, lo: nat, hi: nat) {
    if stores == [] then lo == hi
    else stores[0].off == lo && Contiguous(stores[1..], lo + stores[0].size, hi)
  }

  lemma {:induction false} ContiguousConcat(a: seq<Slot>, b: seq<Slot>, lo: nat, mid: nat, hi: nat)
    requires Contiguous(a, lo, mid) && Contiguous(b, mid, hi)
    ensures Contiguous(a + b, lo, hi)
  {
    if a == [] {
      assert a + b == b;
    } else {
      ContiguousConcat(a[1..], b, lo + a[0].size, mid, hi);
      assert (a + b)[1..] == a[1..] + b;
    }
  }

  lemma {:induction false} StoresContiguous(ty: Type, off: nat)
    ensures Contiguous(Stores(ty, off), off, off + SerializedShape(ty).size)
    decreases ty
  {
    if ty.Struct? {
      var shapes := SerializedShapes(ty.fields);
      assert SerializedShape(ty) == Tile(shapes);
      StoresUpToContiguous(ty, shapes, off, |ty.fields|);
    } else {
      assert Stores(ty, off)[1..] == [];
    }
  }

  lemma {:induction false} StoresUpToContiguous(ty: Type, shapes: seq<Shape>, off: nat, i: nat)
    requires ty.Struct? && i <= |ty.fields| && shapes == SerializedShapes(ty.fields)
    ensures Contiguous(StoresUpTo(ty, Tile(shapes), off, i), off, off + SumSizes(shapes, i))
    decreases ty, i
  {
    if i > 0 {
      var at := off + SumSizes(shapes, i - 1);
      StoresUpToContiguous(ty, shapes, off, i - 1);
      StoresContiguous(ty.fields[i - 1], at);
      ContiguousConcat(StoresUpTo(ty, Tile(shapes), off, i - 1), Stores(ty.fields[i - 1], at), off, at,
                       at + SerializedShape(ty.fields[i - 1]).size);
    }
  }
}
