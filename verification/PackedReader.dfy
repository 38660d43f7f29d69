/**
 The packed walk: reads a serialised struct leaf by leaf, advancing by what each leaf consumed, and
 emits one store per leaf at its GEP path.
 */
module PackedReader {
  import opened DataLayout
  import opened Bytes
  import opened StructImage
  import opened StructConstants
  import opened PackedImage

  datatype FieldStore = FieldStore(path: seq<nat>, value: Constant)

  /** What is stored for a leaf: a linked function for a non-null function pointer, otherwise its bits. */
  function LeafValue(ty: Type, bits: nat, registry: Registry): Constant {
    if IsFunctionPointer(ty) && bits != 0 then LinkPointer(registry, bits) else Scalar(ty, bits)
  }

  function StoresOf(ty: Type, v: Tree, registry: Registry, gep: seq<nat>): seq<FieldStore>
    requires Matches(v, ty)
    decreases ty, ChildCount(ty) + 1
  {
    if IsAggregate(ty) then StoresOfUpTo(ty, v, registry, gep, ChildCount(ty))
    else [FieldStore(gep, LeafValue(ty, v.bits, registry))]
  }

  function StoresOfUpTo(ty: Type, v: Tree, registry: Registry, gep: seq<nat>, i: nat): seq<FieldStore>
    requires IsAggregate(ty) && Matches(v, ty) && i <= ChildCount(ty)
    decreases ty, i
  {
    if i == 0 then []
    else StoresOfUpTo(ty, v, registry, gep, i - 1) + StoresOf(ChildType(ty, i - 1), v.children[i - 1], registry, gep + [i - 1])
  }

  /** Every part of every block starts where the previous one ended. */
  predicate Tiled(shape: Shape) {
    shape.Block? ==>
      && PartsEnd(shape, 0) == 0
      && PartsTiled(shape, 0)
      && (forall i :: 0 <= i < |shape.parts| ==> Tiled(shape.parts[i].shape))
  }

  lemma {:induction false} TileIsTiled(shapes: seq<Shape>)
    requires forall i :: 0 <= i < |shapes| ==> Tiled(shapes[i])
    ensures Tiled(Tile(shapes))
  {
    TileTiled(shapes, 0);
  }

  lemma {:induction false} TiledChild(shape: Shape, i: nat)
    requires shape.Block? && Tiled(shape) && i < |shape.parts|
    ensures PartsEnd(shape, i + 1) == PartsEnd(shape, i) + shape.parts[i].shape.size
    ensures Tiled(shape.parts[i].shape)
  {
    PartsTiledAt(shape, 0, i);
  }

  lemma {:induction false} PackedTiled(ty: Type)
    ensures Tiled(PackedShape(ty))
  {
    match ty
    case Struct(fields, _) =>
      forall i | 0 <= i < |fields| ensures Tiled(PackedShape(fields[i])) { PackedTiled(fields[i]); }
      TileIsTiled(PackedShapes(fields));
    case Array(elem, n) =>
      PackedTiled(elem);
      TileIsTiled(seq(n, _ => PackedShape(elem)));
    case _ =>
  }

  /** Emits the stores for the value at `off` and returns the bytes consumed. `shape` is the packed layout of `ty`. */
  method StoreStructField(ty: Type, ghost shape: Shape, raw: seq<Byte>, off: nat, registry: Registry, gep: seq<nat>)
    returns (stores: seq<FieldStore>, size: nat)
    requires Supported(ty) && Tiled(shape)
    requires Describes(shape, ty) && Fits(raw, off, shape) && Matches(Read(raw, off, shape), ty)
    ensures size == shape.size
    ensures stores == StoresOf(ty, Read(raw, off, shape), registry, gep)
    decreases ty, 1
  {
    if IsAggregate(ty) {
      stores, size := StoreChildren(ty, shape, raw, off, registry, gep);
    } else {
      if IsFunctionPointer(ty) {
        var p := FromLittleEndian(raw[off..off + 8]);
        if p != 0 {
          return [FieldStore(gep, LinkPointer(registry, p))], 8;
        }
      }
      var (fieldValue, rawSize) := GetConstantFromRaw(ty, raw, off);
      stores, size := [FieldStore(gep, fieldValue)], rawSize;
    }
  }

  /** The field loop of structs and the element loop of arrays; both advance by the size just read. */
  method StoreChildren(ty: Type, ghost shape: Shape, raw: seq<Byte>, off: nat, registry: Registry, gep: seq<nat>)
    returns (stores: seq<FieldStore>, rawOffset: nat)
    requires IsAggregate(ty) && Supported(ty) && Tiled(shape)
    requires Describes(shape, ty) && Fits(raw, off, shape) && Matches(Read(raw, off, shape), ty)
    ensures rawOffset == shape.size
    ensures stores == StoresOf(ty, Read(raw, off, shape), registry, gep)
    decreases ty, 0, 1
  {
    ghost var v := Read(raw, off, shape);
    stores, rawOffset := [], 0;
    for field := 0 to ChildCount(ty)
      invariant rawOffset == PartsEnd(shape, field)
      invariant stores == StoresOfUpTo(ty, v, registry, gep, field)
    {
      var fieldStores, size := StoreChild(ty, shape, raw, off, registry, gep, field, rawOffset);
      stores := stores + fieldStores;
      rawOffset := rawOffset + size;
    }
  }

  /** One round of the loop: the child `field`, which starts `rawOffset` bytes in. */
  method StoreChild(ty: Type, ghost shape: Shape, raw: seq<Byte>, off: nat, registry: Registry, gep: seq<nat>,
                    field: nat, rawOffset: nat)
    returns (stores: seq<FieldStore>, size: nat)
    requires IsAggregate(ty) && Supported(ty) && Tiled(shape)
    requires Describes(shape, ty) && Fits(raw, off, shape) && Matches(Read(raw, off, shape), ty)
    requires field < ChildCount(ty) && rawOffset == PartsEnd(shape, field)
    ensures rawOffset + size == PartsEnd(shape, field + 1)
    ensures stores == StoresOf(ChildType(ty, field), Read(raw, off, shape).children[field], registry, gep + [field])
    decreases ty, 0, 0
  {
    ChildImage(ty, shape, raw, off, field);
    TiledChild(shape, field);
    stores, size := StoreStructField(ChildType(ty, field), shape.parts[field].shape, raw, off + rawOffset, registry, gep + [field]);
  }

  predicate LeafPath(ty: Type, path: seq<nat>) {
    TypePath(ty, path) && !IsAggregate(TypeAt(ty, path))
  }

  /** What a leaf of that type and pattern must be stored as. */
  predicate IsStored(c: Constant, ty: Type, bits: nat, registry: Registry) {
    if IsFunctionPointer(ty) && bits != 0 then c == if bits in registry then FunctionRef(registry[bits]) else Missing
    else c == Scalar(ty, bits)
  }

  /** The store is that of the leaf at `path`. */
  predicate StoresLeaf(s: FieldStore, ty: Type, v: Tree, registry: Registry, gep: seq<nat>, path: seq<nat>) {
    && LeafPath(ty, path) && ValidPath(v, path) && At(v, path).Leaf?
    && s.path == gep + path && IsStored(s.value, TypeAt(ty, path), At(v, path).bits, registry)
  }

  /** Every leaf is stored, at its own path, with its own value. */
  lemma {:induction false} EveryLeafStored(ty: Type, v: Tree, registry: Registry, gep: seq<nat>, path: seq<nat>)
    requires Matches(v, ty) && LeafPath(ty, path)
    ensures exists s :: s in StoresOf(ty, v, registry, gep) && StoresLeaf(s, ty, v, registry, gep, path)
    decreases ty
  {
    if path == [] {
      var s := FieldStore(gep, LeafValue(ty, v.bits, registry));
      assert s in StoresOf(ty, v, registry, gep) && StoresLeaf(s, ty, v, registry, gep, path);
    } else {
      var i := path[0];
      EveryLeafStored(ChildType(ty, i), v.children[i], registry, gep + [i], path[1..]);
      var s :| s in StoresOf(ChildType(ty, i), v.children[i], registry, gep + [i])
               && StoresLeaf(s, ChildType(ty, i), v.children[i], registry, gep + [i], path[1..]);
      assert gep + path == (gep + [i]) + path[1..];
      ChildStoresIncluded(ty, v, registry, gep, ChildCount(ty), i);
      assert StoresLeaf(s, ty, v, registry, gep, path);
    }
  }

  lemma {:induction false} ChildStoresIncluded(ty: Type, v: Tree, registry: Registry, gep: seq<nat>, n: nat, i: nat)
    requires IsAggregate(ty) && Matches(v, ty) && i < n <= ChildCount(ty)
    ensures forall s :: s in StoresOf(ChildType(ty, i), v.children[i], registry, gep + [i]) ==> s in StoresOfUpTo(ty, v, registry, gep, n)
  {
    if i < n - 1 {
      ChildStoresIncluded(ty, v, registry, gep, n - 1, i);
    }
  }

  /** Nothing but leaves is stored. */
  lemma {:induction false} OnlyLeavesStored(ty: Type, v: Tree, registry: Registry, gep: seq<nat>, s: FieldStore) returns (path: seq<nat>)
    requires Matches(v, ty) && s in StoresOf(ty, v, registry, gep)
    ensures StoresLeaf(s, ty, v, registry, gep, path)
    decreases ty
  {
    if IsAggregate(ty) {
      var i := StoreOfChild(ty, v, registry, gep, ChildCount(ty), s);
      var rest := OnlyLeavesStored(ChildType(ty, i), v.children[i], registry, gep + [i], s);
      path := [i] + rest;
      assert path[1..] == rest && gep + path == (gep + [i]) + rest;
    } else {
      path := [];
      assert gep + path == gep;
    }
  }

  lemma {:induction false} StoreOfChild(ty: Type, v: Tree, registry: Registry, gep: seq<nat>, n: nat, s: FieldStore) returns (i: nat)
    requires IsAggregate(ty) && Matches(v, ty) && n <= ChildCount(ty) && s in StoresOfUpTo(ty, v, registry, gep, n)
    ensures i < n && s in StoresOf(ChildType(ty, i), v.children[i], registry, gep + [i])
  {
    if s in StoresOf(ChildType(ty, n - 1), v.children[n - 1], registry, gep + [n - 1]) {
      i := n - 1;
    } else {
      i := StoreOfChild(ty, v, registry, gep, n - 1, s);
    }
  }

  ghost predicate DistinctPaths(stores: seq<FieldStore>) {
    forall i, j :: 0 <= i < j < |stores| ==> stores[i].path != stores[j].path
  }

  /** No leaf is stored twice. */
  lemma {:induction false} StoredOnce(ty: Type, v: Tree, registry: Registry, gep: seq<nat>)
    requires Matches(v, ty)
    ensures DistinctPaths(StoresOf(ty, v, registry, gep))
    decreases ty, ChildCount(ty) + 1
  {
    if IsAggregate(ty) {
      StoredOnceUpTo(ty, v, registry, gep, ChildCount(ty));
    }
  }

  lemma {:induction false} StoredOnceUpTo(ty: Type, v: Tree, registry: Registry, gep: seq<nat>, n: nat)
    requires IsAggregate(ty) && Matches(v, ty) && n <= ChildCount(ty)
    ensures DistinctPaths(StoresOfUpTo(ty, v, registry, gep, n))
    decreases ty, n
  {
    if n > 0 {
      StoredOnceUpTo(ty, v, registry, gep, n - 1);
      StoredOnce(ChildType(ty, n - 1), v.children[n - 1], registry, gep + [n - 1]);
      var a, b := StoresOfUpTo(ty, v, registry, gep, n - 1), StoresOf(ChildType(ty, n - 1), v.children[n - 1], registry, gep + [n - 1]);
      forall i, j | 0 <= i < |a| && 0 <= j < |b| ensures a[i].path != b[j].path {
        var k := StoreOfChild(ty, v, registry, gep, n - 1, a[i]);
        StoredBelow(ChildType(ty, k), v.children[k], registry, gep + [k], a[i]);
        StoredBelow(ChildType(ty, n - 1), v.children[n - 1], registry, gep + [n - 1], b[j]);
        assert a[i].path[|gep|] == (gep + [k])[|gep|] == k && b[j].path[|gep|] == (gep + [n - 1])[|gep|] == n - 1;
      }
      DistinctConcat(a, b);
    }
  }

  /** The stores of a member are at paths that extend its own. */
  lemma {:induction false} StoredBelow(ty: Type, v: Tree, registry: Registry, gep: seq<nat>, s: FieldStore)
    requires Matches(v, ty) && s in StoresOf(ty, v, registry, gep)
    ensures |gep| <= |s.path| && forall x :: 0 <= x < |gep| ==> s.path[x] == gep[x]
  {
    var path := OnlyLeavesStored(ty, v, registry, gep, s);
  }

  lemma {:induction false} DistinctConcat(a: seq<FieldStore>, b: seq<FieldStore>)
    requires DistinctPaths(a) && DistinctPaths(b)
    requires forall i, j :: 0 <= i < |a| && 0 <= j < |b| ==> a[i].path != b[j].path
    ensures DistinctPaths(a + b)
  {
  }

  /** The stores are those of the leaves: each leaf exactly once, and nothing else. */
  ghost predicate ExactlyLeaves(stores: seq<FieldStore>, ty: Type, v: Tree, registry: Registry, gep: seq<nat>) {
    && DistinctPaths(stores)
    && (forall path :: LeafPath(ty, path) ==> exists s :: s in stores && StoresLeaf(s, ty, v, registry, gep, path))
    && (forall s :: s in stores ==> exists path :: StoresLeaf(s, ty, v, registry, gep, path))
  }

  lemma {:induction false} StoresAreLeaves(ty: Type, v: Tree, registry: Registry, gep: seq<nat>)
    requires Matches(v, ty)
    ensures ExactlyLeaves(StoresOf(ty, v, registry, gep), ty, v, registry, gep)
  {
    var stores := StoresOf(ty, v, registry, gep);
    StoredOnce(ty, v, registry, gep);
    forall path | LeafPath(ty, path) ensures exists s :: s in stores && StoresLeaf(s, ty, v, registry, gep, path) {
      EveryLeafStored(ty, v, registry, gep, path);
    }
    forall s | s in stores ensures exists path :: StoresLeaf(s, ty, v, registry, gep, path) {
      var path := OnlyLeavesStored(ty, v, registry, gep, s);
    }
  }

  /** Serialised and stripped, a struct is read back by the packed walk as the stores of its own leaves. */
  method ReadSerialized(ty: Type, serialized: seq<Byte>, registry: Registry, ghost v: Tree)
    returns (stores: seq<FieldStore>)
    requires ty.Struct? && Supported(ty) && ArraysPaddingFree(ty)
    requires var size := SumSizes(LayoutShapes(ty.fields), |ty.fields|);
      && size < 0x1_0000_0000
      && |serialized| == HEADER + size
      && serialized[..HEADER] == ToLittleEndian(size, HEADER)
    requires Fits(serialized, HEADER, SerializedShape(ty)) && Read(serialized, HEADER, SerializedShape(ty)) == v
    ensures Matches(v, ty) && stores == StoresOf(ty, v, registry, []) && ExactlyLeaves(stores, ty, v, registry, [])
  {
    PackedRoundTrip(ty, serialized, v);
    var data := StripHeader(serialized);
    PackedTiled(ty);
    PackedDescribes(ty);
    ReadMatches(ty, PackedShape(ty), data, 0);
    var size;
    hide ExactlyLeaves;
    stores, size := StoreStructField(ty, PackedShape(ty), data, 0, registry, []);
    StoresAreLeaves(ty, v, registry, []);
  }
}
