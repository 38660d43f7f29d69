/**
 From a raw struct image to a constant. The layout walk builds one constant tree for a global, after
 a first pass has linked every function pointer in the image; the packed walk emits one store per leaf.
 */
module StructConstants {
  import opened DataLayout
  import opened Bytes
  import opened StructImage

  datatype Constant =
    | Scalar(ty: Type, bits: nat)
    | NullPointer(ty: Type)
    | FunctionRef(name: string)
    | Aggregate(ty: Type, elems: seq<Constant>)
    | Missing                               // no constant could be built

  type Address = nat
  type Registry = map<Address, string>

  /** A registered address becomes a reference to its function; any other address gives no constant. */
  function LinkPointer(registry: Registry, p: Address): Constant {
    if p in registry then FunctionRef(registry[p]) else Missing
  }

  /** A leaf constant and the number of bytes it consumed. */
  function GetConstantFromRaw(ty: Type, raw: seq<Byte>, off: nat): (r: (Constant, nat))
    requires off + LeafSize(ty) <= |raw|
    ensures SupportedLeaf(ty) ==> r == (Scalar(ty, Read(raw, off, Cell(ty, LeafSize(ty))).bits), LeafSize(ty))
  {
    match ty
    case Int(w) =>
      if w == 8 then (Scalar(ty, raw[off]), 1)
      else if w == 16 then (Scalar(ty, FromLittleEndian(raw[off..off + 2])), 2)
      else if w == 32 then (Scalar(ty, FromLittleEndian(raw[off..off + 4])), 4)
      else if w == 64 then (Scalar(ty, FromLittleEndian(raw[off..off + 8])), 8)
      else (Missing, 0)
    case Float => (Scalar(ty, FromLittleEndian(raw[off..off + 4])), 4)
    case Double => (Scalar(ty, FromLittleEndian(raw[off..off + 8])), 8)
    case Ptr(_) => (Scalar(ty, FromLittleEndian(raw[off..off + 8])), 8)
    case _ => (Missing, 0)
  }

  /** The tree has the children that the type has. */
  predicate Matches(v: Tree, ty: Type)
    decreases ty
  {
    if IsAggregate(ty) then
      v.Node? && |v.children| == ChildCount(ty) && forall i :: 0 <= i < ChildCount(ty) ==> Matches(v.children[i], ChildType(ty, i))
    else v.Leaf?
  }

  /** The constant for a value, given what each function pointer links to. */
  function ToConstant(ty: Type, v: Tree, funcs: FunctionTable): Constant
    requires Matches(v, ty)
    decreases ty
  {
    if IsAggregate(ty) then
      Aggregate(ty, seq(ChildCount(ty), i requires 0 <= i < ChildCount(ty) => ToConstant(ChildType(ty, i), v.children[i], funcs)))
    else if IsFunctionPointer(ty) then
      if v.bits == 0 then NullPointer(ty) else if v.bits in funcs then funcs[v.bits] else Missing
    else Scalar(ty, v.bits)
  }

  /** The constant for a value when every function pointer becomes what its address links to. */
  function LinkedConstant(ty: Type, v: Tree, registry: Registry): Constant
    requires Matches(v, ty)
    decreases ty
  {
    if IsAggregate(ty) then
      Aggregate(ty, seq(ChildCount(ty), i requires 0 <= i < ChildCount(ty) => LinkedConstant(ChildType(ty, i), v.children[i], registry)))
    else if IsFunctionPointer(ty) then
      if v.bits == 0 then NullPointer(ty) else LinkPointer(registry, v.bits)
    else Scalar(ty, v.bits)
  }

  /** The element of a constant that a path designates. */
  predicate ConstantPath(c: Constant, path: seq<nat>) {
    path == [] || (c.Aggregate? && path[0] < |c.elems| && ConstantPath(c.elems[path[0]], path[1..]))
  }

  function ConstantAt(c: Constant, path: seq<nat>): Constant
    requires ConstantPath(c, path)
  {
    if path == [] then c else ConstantAt(c.elems[path[0]], path[1..])
  }

  /** The constant that a member of type `ty` must be: `v` is its value. */
  predicate IsMember(e: Constant, ty: Type, v: Tree, registry: Registry) {
    if IsAggregate(ty) then e.Aggregate? && e.ty == ty && |e.elems| == ChildCount(ty)
    else
      && v.Leaf?
      && (IsFunctionPointer(ty) && v.bits == 0 ==> e == NullPointer(ty))
      && (IsFunctionPointer(ty) && v.bits != 0 && v.bits in registry ==> e == FunctionRef(registry[v.bits]))
      && (IsFunctionPointer(ty) && v.bits != 0 && v.bits !in registry ==> e == Missing)
      && (!IsFunctionPointer(ty) ==> e == Scalar(ty, v.bits))
  }

  /** At every path of the type the constant holds what the value holds there. */
  ghost predicate IsConstantOf(c: Constant, ty: Type, v: Tree, registry: Registry) {
    forall path :: TypePath(ty, path) ==>
      ConstantPath(c, path) && ValidPath(v, path) && IsMember(ConstantAt(c, path), TypeAt(ty, path), At(v, path), registry)
  }

  lemma {:induction false} MemberOfConstant(ty: Type, v: Tree, registry: Registry, path: seq<nat>)
    requires Matches(v, ty) && TypePath(ty, path)
    ensures var c := LinkedConstant(ty, v, registry);
      ConstantPath(c, path) && ValidPath(v, path) && IsMember(ConstantAt(c, path), TypeAt(ty, path), At(v, path), registry)
    decreases |path|
  {
    if path != [] {
      MemberOfConstant(ChildType(ty, path[0]), v.children[path[0]], registry, path[1..]);
    }
  }

  lemma {:induction false} LinkedIsConstantOf(ty: Type, v: Tree, registry: Registry)
    requires Matches(v, ty)
    ensures IsConstantOf(LinkedConstant(ty, v, registry), ty, v, registry)
  {
    forall path | TypePath(ty, path)
      ensures var c := LinkedConstant(ty, v, registry);
        ConstantPath(c, path) && ValidPath(v, path) && IsMember(ConstantAt(c, path), TypeAt(ty, path), At(v, path), registry)
    {
      MemberOfConstant(ty, v, registry, path);
    }
  }

  /** Only one constant holds what the value holds at every path. */
  lemma {:induction false} ConstantOfUnique(c: Constant, d: Constant, ty: Type, v: Tree, registry: Registry)
    requires IsConstantOf(c, ty, v, registry) && IsConstantOf(d, ty, v, registry)
    ensures c == d
    decreases ty
  {
    assert TypePath(ty, []);
    if IsAggregate(ty) {
      forall i | 0 <= i < ChildCount(ty) ensures c.elems[i] == d.elems[i] {
        ChildConstantOf(c, ty, v, registry, i);
        ChildConstantOf(d, ty, v, registry, i);
        ConstantOfUnique(c.elems[i], d.elems[i], ChildType(ty, i), v.children[i], registry);
      }
    }
  }

  lemma {:induction false} ChildConstantOf(c: Constant, ty: Type, v: Tree, registry: Registry, i: nat)
    requires IsConstantOf(c, ty, v, registry) && IsAggregate(ty) && i < ChildCount(ty)
    ensures c.Aggregate? && c.ty == ty && |c.elems| == ChildCount(ty) && v.Node? && i < |v.children|
    ensures IsConstantOf(c.elems[i], ChildType(ty, i), v.children[i], registry)
  {
    assert TypePath(ty, []);
    assert [i][1..] == [] && TypePath(ty, [i]);
    forall path | TypePath(ChildType(ty, i), path)
      ensures ConstantPath(c.elems[i], path) && ValidPath(v.children[i], path)
      ensures IsMember(ConstantAt(c.elems[i], path), TypeAt(ChildType(ty, i), path), At(v.children[i], path), registry)
    {
      var whole := [i] + path;
      assert whole[1..] == path && TypePath(ty, whole);
    }
  }

  /** The non-null function pointers in a value. */
  function Pointers(ty: Type, v: Tree): set<Address>
    requires Matches(v, ty)
    decreases ty, ChildCount(ty) + 1
  {
    if IsAggregate(ty) then PointersUpTo(ty, v, ChildCount(ty))
    else if IsFunctionPointer(ty) && v.bits != 0 then {v.bits} else {}
  }

  function PointersUpTo(ty: Type, v: Tree, i: nat): set<Address>
    requires IsAggregate(ty) && Matches(v, ty) && i <= ChildCount(ty)
    decreases ty, i
  {
    if i == 0 then {} else PointersUpTo(ty, v, i - 1) + Pointers(ChildType(ty, i - 1), v.children[i - 1])
  }

  /** `shape` is a layout of `ty`: same children, leaves of their own size, constant array stride. */
  predicate Describes(shape: Shape, ty: Type)
    decreases ty
  {
    if IsAggregate(ty) then
      && shape.Block?
      && |shape.parts| == ChildCount(ty)
      && (forall i :: 0 <= i < ChildCount(ty) ==> Describes(shape.parts[i].shape, ChildType(ty, i)))
      && (ty.Array? ==> forall i :: 0 <= i < ty.n ==> shape.parts[i].off == i * shape.parts[i].shape.size)
    else shape == Cell(ty, LeafSize(ty))
  }

  lemma {:induction false} LayoutDescribes(ty: Type)
    ensures Describes(LayoutShape(ty), ty)
  {
    match ty
    case Struct(fields, packed) =>
      forall i | 0 <= i < |fields| ensures Describes(LayoutShape(fields[i]), fields[i]) { LayoutDescribes(fields[i]); }
    case Array(elem, n) =>
      LayoutDescribes(elem);
      forall i | 0 <= i < n ensures LayoutShape(ty).parts[i].off == i * Size(elem) { StrideIsSize(LayoutShape(elem), n, i); }
    case _ =>
  }

  lemma {:induction false} PackedDescribes(ty: Type)
    ensures Describes(PackedShape(ty), ty)
  {
    match ty
    case Struct(fields, packed) =>
      forall i | 0 <= i < |fields| ensures Describes(PackedShape(fields[i]), fields[i]) { PackedDescribes(fields[i]); }
    case Array(elem, n) =>
      PackedDescribes(elem);
      forall i | 0 <= i < n ensures PackedShape(ty).parts[i].off == i * PackedShape(elem).size { StrideIsSize(PackedShape(elem), n, i); }
    case _ =>
  }

  lemma {:induction false} ReadMatches(ty: Type, shape: Shape, raw: seq<Byte>, off: nat)
    requires Describes(shape, ty) && Fits(raw, off, shape)
    ensures Matches(Read(raw, off, shape), ty)
    decreases ty
  {
    if IsAggregate(ty) {
      forall i | 0 <= i < ChildCount(ty) ensures Matches(Read(raw, off, shape).children[i], ChildType(ty, i)) {
        ReadMatches(ChildType(ty, i), shape.parts[i].shape, raw, off + shape.parts[i].off);
      }
    }
  }

  // ----- the table of linked functions -----

  type FunctionTable = map<Address, Constant>

  /** The table after the first pass over a value. */
  function Prepared(ty: Type, v: Tree, registry: Registry, funcs: FunctionTable): FunctionTable
    requires Matches(v, ty)
    decreases ty, ChildCount(ty) + 1
  {
    if IsAggregate(ty) then PreparedUpTo(ty, v, registry, funcs, ChildCount(ty))
    else if IsFunctionPointer(ty) && v.bits != 0 then funcs[v.bits := LinkPointer(registry, v.bits)] else funcs
  }

  function PreparedUpTo(ty: Type, v: Tree, registry: Registry, funcs: FunctionTable, i: nat): FunctionTable
    requires IsAggregate(ty) && Matches(v, ty) && i <= ChildCount(ty)
    decreases ty, i
  {
    if i == 0 then funcs
    else Prepared(ChildType(ty, i - 1), v.children[i - 1], registry, PreparedUpTo(ty, v, registry, funcs, i - 1))
  }

  /** The constant and the table after the second pass: a lookup of an unknown pointer creates an empty entry. */
  function Walked(ty: Type, v: Tree, funcs: FunctionTable): (Constant, FunctionTable)
    requires Matches(v, ty)
    decreases ty, ChildCount(ty) + 1
  {
    if IsAggregate(ty) then
      var (elems, after) := WalkedUpTo(ty, v, funcs, ChildCount(ty));
      (Aggregate(ty, elems), after)
    else if IsFunctionPointer(ty) then
      if v.bits == 0 then (NullPointer(ty), funcs)
      else if v.bits in funcs then (funcs[v.bits], funcs)
      else (Missing, funcs[v.bits := Missing])
    else (Scalar(ty, v.bits), funcs)
  }

  function WalkedUpTo(ty: Type, v: Tree, funcs: FunctionTable, i: nat): (seq<Constant>, FunctionTable)
    requires IsAggregate(ty) && Matches(v, ty) && i <= ChildCount(ty)
    decreases ty, i
  {
    if i == 0 then ([], funcs)
    else
      var (elems, before) := WalkedUpTo(ty, v, funcs, i - 1);
      var (elem, after) := Walked(ChildType(ty, i - 1), v.children[i - 1], before);
      (elems + [elem], after)
  }

  /** `after` is `before` with linked entries for exactly `keys` put on top. */
  ghost predicate Linked(registry: Registry, before: FunctionTable, keys: set<Address>, after: FunctionTable) {
    && after.Keys == before.Keys + keys
    && (forall p :: p in after && p !in keys ==> after[p] == before[p])
    && (forall p :: p in keys ==> after[p] == if p in registry then FunctionRef(registry[p]) else Missing)
  }

  /** The first pass adds an entry for exactly the non-null function pointers of the value. */
  lemma {:induction false} PreparedIsLinked(ty: Type, v: Tree, registry: Registry, funcs: FunctionTable)
    requires Matches(v, ty)
    ensures Linked(registry, funcs, Pointers(ty, v), Prepared(ty, v, registry, funcs))
    decreases ty, ChildCount(ty) + 1
  {
    if IsAggregate(ty) {
      PreparedUpToIsLinked(ty, v, registry, funcs, ChildCount(ty));
    }
  }

  lemma {:induction false} PreparedUpToIsLinked(ty: Type, v: Tree, registry: Registry, funcs: FunctionTable, i: nat)
    requires IsAggregate(ty) && Matches(v, ty) && i <= ChildCount(ty)
    ensures Linked(registry, funcs, PointersUpTo(ty, v, i), PreparedUpTo(ty, v, registry, funcs, i))
    decreases ty, i
  {
    if i > 0 {
      hide Linked;
      var before := PreparedUpTo(ty, v, registry, funcs, i - 1);
      PreparedUpToIsLinked(ty, v, registry, funcs, i - 1);
      PreparedIsLinked(ChildType(ty, i - 1), v.children[i - 1], registry, before);
      LinkedTwice(registry, funcs, PointersUpTo(ty, v, i - 1), before, Pointers(ChildType(ty, i - 1), v.children[i - 1]),
                  PreparedUpTo(ty, v, registry, funcs, i));
    } else {
      LinkedNothing(registry, funcs);
    }
  }

  lemma {:induction false} LinkedNothing(registry: Registry, funcs: FunctionTable)
    ensures Linked(registry, funcs, {}, funcs)
  {
  }

  lemma {:induction false} LinkedTwice(registry: Registry, f: FunctionTable, a: set<Address>, g: FunctionTable, b: set<Address>, h: FunctionTable)
    requires Linked(registry, f, a, g) && Linked(registry, g, b, h)
    ensures Linked(registry, f, a + b, h)
  {
  }

  /** When every pointer of the value has an entry, all lookups hit and the table is unchanged. */
  lemma {:induction false} LookupsHit(ty: Type, v: Tree, funcs: FunctionTable)
    requires Matches(v, ty) && Pointers(ty, v) <= funcs.Keys
    ensures Walked(ty, v, funcs).1 == funcs
    decreases ty, ChildCount(ty) + 1
  {
    if IsAggregate(ty) {
      LookupsHitUpTo(ty, v, funcs, ChildCount(ty));
    }
  }

  lemma {:induction false} LookupsHitUpTo(ty: Type, v: Tree, funcs: FunctionTable, i: nat)
    requires IsAggregate(ty) && Matches(v, ty) && i <= ChildCount(ty) && PointersUpTo(ty, v, i) <= funcs.Keys
    ensures WalkedUpTo(ty, v, funcs, i).1 == funcs
    decreases ty, i
  {
    if i > 0 {
      LookupsHitUpTo(ty, v, funcs, i - 1);
      LookupsHit(ChildType(ty, i - 1), v.children[i - 1], funcs);
    }
  }

  /** `g` is `f` with empty entries added. */
  ghost predicate AddsEmpty(f: FunctionTable, g: FunctionTable) {
    && (forall p :: p in f ==> p in g && g[p] == f[p])
    && (forall p :: p in g && p !in f ==> g[p] == Missing)
  }

  /** The second pass builds the constant that the table it started from determines. */
  lemma {:induction false} WalkedIsConstant(ty: Type, v: Tree, f: FunctionTable, g: FunctionTable)
    requires Matches(v, ty) && AddsEmpty(f, g)
    ensures AddsEmpty(f, Walked(ty, v, g).1)
    ensures Walked(ty, v, g).0 == ToConstant(ty, v, f)
    decreases ty, ChildCount(ty) + 1
  {
    if IsAggregate(ty) {
      WalkedUpToIsConstant(ty, v, f, g, ChildCount(ty));
      assert Walked(ty, v, g).0.elems == ToConstant(ty, v, f).elems;
    }
  }

  lemma {:induction false} WalkedUpToIsConstant(ty: Type, v: Tree, f: FunctionTable, g: FunctionTable, i: nat)
    requires IsAggregate(ty) && Matches(v, ty) && i <= ChildCount(ty) && AddsEmpty(f, g)
    ensures AddsEmpty(f, WalkedUpTo(ty, v, g, i).1)
    ensures |WalkedUpTo(ty, v, g, i).0| == i
    ensures forall k :: 0 <= k < i ==> WalkedUpTo(ty, v, g, i).0[k] == ToConstant(ChildType(ty, k), v.children[k], f)
    decreases ty, i
  {
    if i > 0 {
      WalkedUpToIsConstant(ty, v, f, g, i - 1);
      WalkedIsConstant(ChildType(ty, i - 1), v.children[i - 1], f, WalkedUpTo(ty, v, g, i - 1).1);
    }
  }

  /** No part of the constant is missing. */
  predicate Complete(c: Constant) {
    match c
    case Missing => false
    case Aggregate(_, elems) => forall i :: 0 <= i < |elems| ==> Complete(elems[i])
    case _ => true
  }

  /** The global is complete exactly when every function pointer in it is registered. */
  lemma {:induction false} CompleteIffRegistered(ty: Type, v: Tree, registry: Registry, funcs: FunctionTable)
    requires Matches(v, ty) && Pointers(ty, v) <= funcs.Keys
    requires forall p :: p in funcs ==> funcs[p] == LinkPointer(registry, p)
    ensures Complete(ToConstant(ty, v, funcs)) <==> Pointers(ty, v) <= registry.Keys
    decreases ty
  {
    if IsAggregate(ty) {
      forall i | 0 <= i < ChildCount(ty)
        ensures Pointers(ChildType(ty, i), v.children[i]) <= Pointers(ty, v)
        ensures Complete(ToConstant(ChildType(ty, i), v.children[i], funcs)) <==>
                Pointers(ChildType(ty, i), v.children[i]) <= registry.Keys
      {
        PointersOfChild(ty, v, ChildCount(ty), i);
        CompleteIffRegistered(ChildType(ty, i), v.children[i], registry, funcs);
      }
      PointersWithin(ty, v, ChildCount(ty), registry.Keys);
      var c := ToConstant(ty, v, funcs);
      assert forall i :: 0 <= i < ChildCount(ty) ==> c.elems[i] == ToConstant(ChildType(ty, i), v.children[i], funcs);
    }
  }

  /** A table that links every pointer of the value gives the linked constant. */
  lemma {:induction false} TableIsLinked(ty: Type, v: Tree, registry: Registry, funcs: FunctionTable)
    requires Matches(v, ty) && Pointers(ty, v) <= funcs.Keys
    requires forall p :: p in funcs ==> funcs[p] == LinkPointer(registry, p)
    ensures ToConstant(ty, v, funcs) == LinkedConstant(ty, v, registry)
    decreases ty
  {
    if IsAggregate(ty) {
      forall i | 0 <= i < ChildCount(ty)
        ensures ToConstant(ChildType(ty, i), v.children[i], funcs) == LinkedConstant(ChildType(ty, i), v.children[i], registry)
      {
        PointersOfChild(ty, v, ChildCount(ty), i);
        TableIsLinked(ChildType(ty, i), v.children[i], registry, funcs);
      }
      assert ToConstant(ty, v, funcs).elems == LinkedConstant(ty, v, registry).elems;
    }
  }

  lemma {:induction false} PointersOfChild(ty: Type, v: Tree, n: nat, i: nat)
    requires IsAggregate(ty) && Matches(v, ty) && i < n <= ChildCount(ty)
    ensures Pointers(ChildType(ty, i), v.children[i]) <= PointersUpTo(ty, v, n)
  {
    if i < n - 1 {
      PointersOfChild(ty, v, n - 1, i);
    }
  }

  lemma {:induction false} PointersWithin(ty: Type, v: Tree, n: nat, keys: set<Address>)
    requires IsAggregate(ty) && Matches(v, ty) && n <= ChildCount(ty)
    ensures (forall i :: 0 <= i < n ==> Pointers(ChildType(ty, i), v.children[i]) <= keys) ==> PointersUpTo(ty, v, n) <= keys
  {
    if n > 0 {
      PointersWithin(ty, v, n - 1, keys);
    }
  }

  /** What one round of a walk relies on: the child's layout, range and value. */
  lemma {:induction false} ChildImage(ty: Type, shape: Shape, raw: seq<Byte>, off: nat, i: nat)
    requires IsAggregate(ty) && i < ChildCount(ty)
    requires Describes(shape, ty) && Fits(raw, off, shape) && Matches(Read(raw, off, shape), ty)
    ensures shape.Block? && |shape.parts| == ChildCount(ty)
    ensures Read(raw, off, shape).Node? && |Read(raw, off, shape).children| == ChildCount(ty)
    ensures var part := shape.parts[i];
      && Describes(part.shape, ChildType(ty, i)) && Fits(raw, off + part.off, part.shape)
      && Read(raw, off + part.off, part.shape) == Read(raw, off, shape).children[i]
      && Matches(Read(raw, off + part.off, part.shape), ChildType(ty, i))
      && (ty.Array? ==> part.off == i * part.shape.size)
  {
  }

  class GlobalStructBuilder {
    const registry: Registry
    var funcs: FunctionTable
    var current: Constant

    constructor (registry: Registry)
      ensures this.registry == registry && funcs == map[]
    {
      this.registry := registry;
      funcs := map[];
      current := Missing;
    }

    /** First pass: links every non-null function pointer of the image. `shape` is the layout of `ty`. */
    method StoreStructFieldPrepare(ty: Type, shape: Shape, raw: seq<Byte>, off: nat)
      requires Describes(shape, ty) && Fits(raw, off, shape) && Matches(Read(raw, off, shape), ty)
      modifies this`funcs
      ensures funcs == Prepared(ty, Read(raw, off, shape), registry, old(funcs))
      decreases ty, 1
    {
      if ty.Struct? {
        PrepareFields(ty, shape, raw, off);
      } else if ty.Array? {
        PrepareElements(ty, shape, raw, off);
      } else if IsFunctionPointer(ty) {
        var p := FromLittleEndian(raw[off..off + 8]);
        if p != 0 {
          funcs := funcs[p := LinkPointer(registry, p)];
        }
      }
    }

    method PrepareFields(ty: Type, shape: Shape, raw: seq<Byte>, off: nat)
      requires ty.Struct?
      requires Describes(shape, ty) && Fits(raw, off, shape) && Matches(Read(raw, off, shape), ty)
      modifies this`funcs
      ensures funcs == Prepared(ty, Read(raw, off, shape), registry, old(funcs))
      decreases ty, 0, 1
    {
      ghost var v, was := Read(raw, off, shape), funcs;
      for field := 0 to |ty.fields|
        invariant funcs == PreparedUpTo(ty, v, registry, was, field)
      {
        PrepareChild(ty, shape, raw, off, field, shape.parts[field].off);
      }
    }

    method PrepareElements(ty: Type, shape: Shape, raw: seq<Byte>, off: nat)
      requires ty.Array?
      requires Describes(shape, ty) && Fits(raw, off, shape) && Matches(Read(raw, off, shape), ty)
      modifies this`funcs
      ensures funcs == Prepared(ty, Read(raw, off, shape), registry, old(funcs))
      decreases ty, 0, 1
    {
      ghost var v, was := Read(raw, off, shape), funcs;
      for field := 0 to ty.n
        invariant funcs == PreparedUpTo(ty, v, registry, was, field)
      {
        PrepareChild(ty, shape, raw, off, field, field * shape.parts[field].shape.size);
      }
    }

    /** One round of either loop: the child that starts `at` bytes in. */
    method PrepareChild(ty: Type, shape: Shape, raw: seq<Byte>, off: nat, field: nat, at: nat)
      requires IsAggregate(ty) && field < ChildCount(ty)
      requires Describes(shape, ty) && Fits(raw, off, shape) && Matches(Read(raw, off, shape), ty)
      requires at == shape.parts[field].off
      modifies this`funcs
      ensures funcs == Prepared(ChildType(ty, field), Read(raw, off, shape).children[field], registry, old(funcs))
      decreases ty, 0, 0
    {
      ChildImage(ty, shape, raw, off, field);
      StoreStructFieldPrepare(ChildType(ty, field), shape.parts[field].shape, raw, off + at);
    }

    /** Second pass: the constant of the image. */
    method StoreStructFieldAsGlobal(ty: Type, shape: Shape, raw: seq<Byte>, off: nat)
      requires Supported(ty)
      requires Describes(shape, ty) && Fits(raw, off, shape) && Matches(Read(raw, off, shape), ty)
      modifies this`funcs, this`current
      ensures (current, funcs) == Walked(ty, Read(raw, off, shape), old(funcs))
      decreases ty, 1
    {
      if ty.Struct? {
        StoreFieldsAsGlobal(ty, shape, raw, off);
      } else if ty.Array? {
        StoreElementsAsGlobal(ty, shape, raw, off);
      } else if IsFunctionPointer(ty) {
        var p := FromLittleEndian(raw[off..off + 8]);
        if p != 0 {
          if p !in funcs {
            funcs := funcs[p := Missing];
          }
          current := funcs[p];
        } else {
          current := NullPointer(ty);
        }
      } else {
        var (fieldValue, _) := GetConstantFromRaw(ty, raw, off);
        current := fieldValue;
      }
    }

    method StoreFieldsAsGlobal(ty: Type, shape: Shape, raw: seq<Byte>, off: nat)
      requires Supported(ty) && ty.Struct?
      requires Describes(shape, ty) && Fits(raw, off, shape) && Matches(Read(raw, off, shape), ty)
      modifies this`funcs, this`current
      ensures (current, funcs) == Walked(ty, Read(raw, off, shape), old(funcs))
      decreases ty, 0, 1
    {
      ghost var v, was := Read(raw, off, shape), funcs;
      var constants := [];
      for field := 0 to |ty.fields|
        invariant (constants, funcs) == WalkedUpTo(ty, v, was, field)
      {
        StoreChildAsGlobal(ty, shape, raw, off, field, shape.parts[field].off);
        constants := constants + [current];
      }
      current := Aggregate(ty, constants);
    }

    method StoreElementsAsGlobal(ty: Type, shape: Shape, raw: seq<Byte>, off: nat)
      requires Supported(ty) && ty.Array?
      requires Describes(shape, ty) && Fits(raw, off, shape) && Matches(Read(raw, off, shape), ty)
      modifies this`funcs, this`current
      ensures (current, funcs) == Walked(ty, Read(raw, off, shape), old(funcs))
      decreases ty, 0, 1
    {
      ghost var v, was := Read(raw, off, shape), funcs;
      var constants := [];
      for field := 0 to ty.n
        invariant (constants, funcs) == WalkedUpTo(ty, v, was, field)
      {
        StoreChildAsGlobal(ty, shape, raw, off, field, field * shape.parts[field].shape.size);
        constants := constants + [current];
      }
      current := Aggregate(ty, constants);
    }

    /** One round of either loop: the child that starts `at` bytes in. */
    method StoreChildAsGlobal(ty: Type, shape: Shape, raw: seq<Byte>, off: nat, field: nat, at: nat)
      requires IsAggregate(ty) && Supported(ty) && field < ChildCount(ty)
      requires Describes(shape, ty) && Fits(raw, off, shape) && Matches(Read(raw, off, shape), ty)
      requires at == shape.parts[field].off
      modifies this`funcs, this`current
      ensures (current, funcs) == Walked(ChildType(ty, field), Read(raw, off, shape).children[field], old(funcs))
      decreases ty, 0, 0
    {
      ChildImage(ty, shape, raw, off, field);
      StoreStructFieldAsGlobal(ChildType(ty, field), shape.parts[field].shape, raw, off + at);
    }

    /**
     Both passes: the table holds exactly the image's non-null function pointers, the second pass leaves
     it unchanged, and every function pointer becomes what its address links to.
     */
    method GetGlobalStruct(ty: Type, raw: seq<Byte>) returns (g: Constant)
      requires Supported(ty) && Fits(raw, 0, LayoutShape(ty))
      modifies this
      ensures Matches(Read(raw, 0, LayoutShape(ty)), ty)
      ensures funcs.Keys == Pointers(ty, Read(raw, 0, LayoutShape(ty)))
      ensures forall p :: p in funcs ==> funcs[p] == LinkPointer(registry, p)
      ensures g == LinkedConstant(ty, Read(raw, 0, LayoutShape(ty)), registry)
      ensures IsConstantOf(g, ty, Read(raw, 0, LayoutShape(ty)), registry)
      ensures Complete(g) <==> Pointers(ty, Read(raw, 0, LayoutShape(ty))) <= registry.Keys
    {
      var shape := LayoutShape(ty);
      LayoutDescribes(ty);
      ReadMatches(ty, shape, raw, 0);
      ghost var v := Read(raw, 0, shape);
      funcs := map[];
      StoreStructFieldPrepare(ty, shape, raw, 0);
      PreparedIsLinked(ty, v, registry, map[]);
      LookupsHit(ty, v, funcs);
      WalkedIsConstant(ty, v, funcs, funcs);
      StoreStructFieldAsGlobal(ty, shape, raw, 0);
      g := current;
      CompleteIffRegistered(ty, v, registry, funcs);
      TableIsLinked(ty, v, registry, funcs);
      LinkedIsConstantOf(ty, v, registry);
    }
  }

  /**
   Laying a value out over any padding and building its global gives the constant of the value itself,
   complete exactly when its function pointers are registered.
   */
  method GlobalStructRoundTrip(ty: Type, v: Tree, buf: seq<Byte>, registry: Registry) returns (g: Constant)
    requires Supported(ty) && Fits(buf, 0, LayoutShape(ty)) && HasShape(v, LayoutShape(ty))
    ensures Matches(v, ty)
    ensures IsConstantOf(g, ty, v, registry)
    ensures Complete(g) <==> Pointers(ty, v) <= registry.Keys
  {
    hide Write, Read, WellPlaced, HasShape, Matches, LayoutShape, Supported, LinkedConstant, Pointers, Complete, IsConstantOf;
    var image := Write(buf, 0, LayoutShape(ty), v);
    ImageRoundTrip(buf, 0, LayoutShape(ty), v);
    var builder := new GlobalStructBuilder(registry);
    g := builder.GetGlobalStruct(ty, image);
  }
}
