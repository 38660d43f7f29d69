/**
 The may-alias tracer: a depth-first walk over (value, mode) points that collects every global
 object whose address may flow into a value. "Loaded" follows where a value comes from, "Stored"
 follows what is written through a piece of memory.
 */
module MayAliasTracing {
  import opened Wrappers
  import opened ValueGraph
  import opened Reachability

  datatype Mode = Loaded | Stored
  datatype Point = Point(value: Value, mode: Mode)

  /** The declarative edge relation that the two recursive walks follow. */
  predicate Edge(g: Graph, from: Point, to: Point)
    requires WellFormed(g)
  {
    g.Has(from.value) &&
    var n := g.nodes[from.value];
    match from.mode
    case Stored => (
      match n.kind
      case Memcpy => to == Point(n.operands[1], Loaded)
      case Store => to == Point(n.operands[0], Loaded)
      case Alloca | GetElementPtr | BitCast => to.mode.Stored? && to.value in n.users
      case _ => false)
    case Loaded => (
      match n.kind
      case Phi | ConstantArray => to.mode.Loaded? && to.value in n.operands
      case Select => to.mode.Loaded? && (to.value == n.operands[1] || to.value == n.operands[2])
      case Alloca => to == Point(from.value, Stored)
      case GetElementPtr | BitCast => to == Point(n.operands[0], Loaded)
      case ConstantExpr(op) => !op.OpOther? && to == Point(n.operands[0], Loaded)
      case GlobalVariable(_, init) =>
        || (init.Some? && to == Point(init.value, Loaded))
        || to == Point(from.value, Stored)
      case _ => false)
  }

  ghost function Steps(g: Graph): (Point, Point) -> bool
    requires WellFormed(g)
  {
    (a, b) => Edge(g, a, b)
  }

  ghost predicate MayAlias(g: Graph, start: Value, go: Value)
    requires WellFormed(g)
  {
    && g.IsGlobalObject(go)
    && exists m :: Reachable(Steps(g), Point(start, Loaded), Point(go, m))
  }

  predicate Visited(p: Point, loaded: set<Value>, stored: set<Value>) {
    match p.mode case Loaded => p.value in loaded case Stored => p.value in stored
  }

  ghost function Points(g: Graph): set<Point> {
    (set v: Value | v < |g.nodes| :: Point(v, Loaded)) + (set v: Value | v < |g.nodes| :: Point(v, Stored))
  }

  ghost function Unvisited(g: Graph, loaded: set<Value>, stored: set<Value>): set<Point> {
    set p | p in Points(g) && !Visited(p, loaded, stored)
  }

  function GlobalsIn(g: Graph, loaded: set<Value>, stored: set<Value>): set<Value> {
    set v | v in loaded + stored && g.IsGlobalObject(v)
  }

  ghost predicate InGraph(g: Graph, s: set<Value>) {
    forall v :: v in s ==> g.Has(v)
  }

  /** Everything new was reached from `start`; everything new except `start` has its successors visited. */
  ghost predicate Exploring(g: Graph, start: Point, l: set<Value>, s: set<Value>, l': set<Value>, s': set<Value>)
    requires WellFormed(g)
  {
    && InGraph(g, l') && InGraph(g, s')
    && l <= l' && s <= s'
    && Visited(start, l', s')
    && (forall p :: Visited(p, l', s') && !Visited(p, l, s) ==> Reachable(Steps(g), start, p))
    && (forall p, q :: Visited(p, l', s') && !Visited(p, l, s) && p != start && Edge(g, p, q) ==> Visited(q, l', s'))
  }

  /** As `Exploring`, and `start` is finished too. */
  ghost predicate Explored(g: Graph, start: Point, l: set<Value>, s: set<Value>, l': set<Value>, s': set<Value>)
    requires WellFormed(g)
  {
    && Exploring(g, start, l, s, l', s')
    && (!Visited(start, l, s) ==> forall q :: Edge(g, start, q) ==> Visited(q, l', s'))
  }

  lemma {:induction false} ExploreChild(g: Graph, start: Point, child: Point,
                     l: set<Value>, s: set<Value>, l1: set<Value>, s1: set<Value>, l2: set<Value>, s2: set<Value>)
    requires WellFormed(g)
    requires Edge(g, start, child)
    requires Exploring(g, start, l, s, l1, s1)
    requires Explored(g, child, l1, s1, l2, s2)
    ensures Exploring(g, start, l, s, l2, s2)
  {
    forall p | Visited(p, l2, s2) && !Visited(p, l, s)
      ensures Reachable(Steps(g), start, p)
    {
      if !Visited(p, l1, s1) {
        ReachablePrepend(Steps(g), start, child, p);
      }
    }
  }

  lemma {:induction false} ExploreStart(g: Graph, start: Point, l: set<Value>, s: set<Value>, l': set<Value>, s': set<Value>)
    requires WellFormed(g) && g.Has(start.value)
    requires InGraph(g, l) && InGraph(g, s)
    requires start.mode.Loaded? ==> l' == l + {start.value} && s' == s
    requires start.mode.Stored? ==> s' == s + {start.value} && l' == l
    ensures Exploring(g, start, l, s, l', s')
  {
    ReachableSelf(Steps(g), start);
  }

  lemma {:induction false} MeasureDrops(g: Graph, start: Point, l: set<Value>, s: set<Value>, l1: set<Value>, s1: set<Value>)
    requires WellFormed(g) && g.Has(start.value)
    requires !Visited(start, l, s)
    requires Exploring(g, start, l, s, l1, s1)
    ensures Unvisited(g, l1, s1) < Unvisited(g, l, s)
  {
    assert start in Unvisited(g, l, s) && start !in Unvisited(g, l1, s1);
  }

  /** From nothing visited, the walk visits exactly the points reachable from its start. */
  lemma {:induction false} ExploredIsReachable(g: Graph, start: Point, l': set<Value>, s': set<Value>, p: Point)
    requires WellFormed(g)
    requires Explored(g, start, {}, {}, l', s')
    ensures Visited(p, l', s') <==> Reachable(Steps(g), start, p)
  {
    if Reachable(Steps(g), start, p) {
      var all := (set v | v in l' :: Point(v, Loaded)) + (set v | v in s' :: Point(v, Stored));
      assert forall q :: q in all <==> Visited(q, l', s');
      var n: nat :| ReachableIn(Steps(g), start, p, n);
      ClosedHoldsReachable(Steps(g), all, start, p, n);
    }
  }

  class MayAliasTracer {
    var gos: set<Value>

    /** The traced set is exactly the global objects reachable from `v`. */
    constructor (g: Graph, v: Value)
      requires WellFormed(g) && g.Has(v)
      ensures forall go :: go in gos <==> MayAlias(g, v, go)
    {
      gos := {};
      new;
      var loaded, stored := MayAliasWithLoadedValues(g, v, {}, {});
      forall go ensures go in gos <==> MayAlias(g, v, go) {
        ExploredIsReachable(g, Point(v, Loaded), loaded, stored, Point(go, Loaded));
        ExploredIsReachable(g, Point(v, Loaded), loaded, stored, Point(go, Stored));
      }
    }

    method MayAliasWithStoredValues(g: Graph, v: Value, loaded0: set<Value>, stored0: set<Value>)
      returns (loaded: set<Value>, stored: set<Value>)
      requires WellFormed(g) && g.Has(v)
      requires InGraph(g, loaded0) && InGraph(g, stored0)
      requires gos == GlobalsIn(g, loaded0, stored0)
      modifies this
      ensures Explored(g, Point(v, Stored), loaded0, stored0, loaded, stored)
      ensures gos == GlobalsIn(g, loaded, stored)
      decreases Unvisited(g, loaded0, stored0)
    {
      loaded, stored := loaded0, stored0;
      if v in stored {
        return;
      }
      ghost var start := Point(v, Stored);
      stored := stored + {v};
      if g.IsGlobalObject(v) {
        gos := gos + {v};
      }
      ExploreStart(g, start, loaded0, stored0, loaded, stored);

      var n := g.nodes[v];
      if n.kind.Memcpy? {
        loaded, stored := LoadedChild(g, start, n.operands[1], loaded0, stored0, loaded, stored);
      }
      if n.kind.Store? {
        loaded, stored := LoadedChild(g, start, n.operands[0], loaded0, stored0, loaded, stored);
      }
      if n.kind.Alloca? || n.kind.GetElementPtr? || n.kind.BitCast? {
        for i := 0 to |n.users|
          invariant Exploring(g, start, loaded0, stored0, loaded, stored)
          invariant gos == GlobalsIn(g, loaded, stored)
          invariant forall j :: 0 <= j < i ==> n.users[j] in stored
        {
          loaded, stored := StoredChild(g, start, n.users[i], loaded0, stored0, loaded, stored);
        }
      }
    }

    method MayAliasWithLoadedValues(g: Graph, v: Value, loaded0: set<Value>, stored0: set<Value>)
      returns (loaded: set<Value>, stored: set<Value>)
      requires WellFormed(g) && g.Has(v)
      requires InGraph(g, loaded0) && InGraph(g, stored0)
      requires gos == GlobalsIn(g, loaded0, stored0)
      modifies this
      ensures Explored(g, Point(v, Loaded), loaded0, stored0, loaded, stored)
      ensures gos == GlobalsIn(g, loaded, stored)
      decreases Unvisited(g, loaded0, stored0)
    {
      loaded, stored := loaded0, stored0;
      if v in loaded {
        return;
      }
      var start := Point(v, Loaded);
      loaded := loaded + {v};
      if g.IsGlobalObject(v) {
        gos := gos + {v};
      }
      ExploreStart(g, start, loaded0, stored0, loaded, stored);

      var n := g.nodes[v];
      if n.kind.Phi? {
        loaded, stored := LoadedOperands(g, start, loaded0, stored0, loaded, stored);
      }
      if n.kind.Select? {
        loaded, stored := LoadedChild(g, start, n.operands[1], loaded0, stored0, loaded, stored);
        loaded, stored := LoadedChild(g, start, n.operands[2], loaded0, stored0, loaded, stored);
      }
      if n.kind.Alloca? {
        loaded, stored := StoredChild(g, start, v, loaded0, stored0, loaded, stored);
      }
      if n.kind.GetElementPtr? {
        loaded, stored := LoadedChild(g, start, n.operands[0], loaded0, stored0, loaded, stored);
      }
      if n.kind.BitCast? {
        loaded, stored := LoadedChild(g, start, n.operands[0], loaded0, stored0, loaded, stored);
      }
      if n.kind.ConstantExpr? {
        if n.kind.opcode.OpGetElementPtr? || n.kind.opcode.OpBitCast? {
          loaded, stored := LoadedChild(g, start, n.operands[0], loaded0, stored0, loaded, stored);
          return;
        }
      }
      if n.kind.GlobalVariable? {
        if n.kind.initializer.Some? {
          loaded, stored := LoadedChild(g, start, n.kind.initializer.value, loaded0, stored0, loaded, stored);
        }
        loaded, stored := StoredChild(g, start, v, loaded0, stored0, loaded, stored);
      }
      if n.kind.ConstantArray? {
        loaded, stored := LoadedOperands(g, start, loaded0, stored0, loaded, stored);
      }
    }

    /** One recursive call in Loaded mode, made while `start` is being explored. */
    method LoadedChild(g: Graph, ghost start: Point, v: Value, ghost l: set<Value>, ghost s: set<Value>,
                       loaded1: set<Value>, stored1: set<Value>)
      returns (loaded: set<Value>, stored: set<Value>)
      requires WellFormed(g) && g.Has(start.value) && g.Has(v)
      requires !Visited(start, l, s)
      requires Exploring(g, start, l, s, loaded1, stored1)
      requires Edge(g, start, Point(v, Loaded))
      requires gos == GlobalsIn(g, loaded1, stored1)
      modifies this
      ensures Exploring(g, start, l, s, loaded, stored)
      ensures v in loaded && loaded1 <= loaded && stored1 <= stored
      ensures gos == GlobalsIn(g, loaded, stored)
      decreases Unvisited(g, l, s), 0
    {
      MeasureDrops(g, start, l, s, loaded1, stored1);
      loaded, stored := MayAliasWithLoadedValues(g, v, loaded1, stored1);
      ExploreChild(g, start, Point(v, Loaded), l, s, loaded1, stored1, loaded, stored);
    }

    /** One recursive call in Stored mode, made while `start` is being explored. */
    method StoredChild(g: Graph, ghost start: Point, v: Value, ghost l: set<Value>, ghost s: set<Value>,
                       loaded1: set<Value>, stored1: set<Value>)
      returns (loaded: set<Value>, stored: set<Value>)
      requires WellFormed(g) && g.Has(start.value) && g.Has(v)
      requires !Visited(start, l, s)
      requires Exploring(g, start, l, s, loaded1, stored1)
      requires Edge(g, start, Point(v, Stored))
      requires gos == GlobalsIn(g, loaded1, stored1)
      modifies this
      ensures Exploring(g, start, l, s, loaded, stored)
      ensures v in stored && loaded1 <= loaded && stored1 <= stored
      ensures gos == GlobalsIn(g, loaded, stored)
      decreases Unvisited(g, l, s), 0
    {
      MeasureDrops(g, start, l, s, loaded1, stored1);
      loaded, stored := MayAliasWithStoredValues(g, v, loaded1, stored1);
      ExploreChild(g, start, Point(v, Stored), l, s, loaded1, stored1, loaded, stored);
    }

    /** The loop over all operands of a phi node or a constant array. */
    method LoadedOperands(g: Graph, start: Point, ghost l: set<Value>, ghost s: set<Value>,
                          loaded1: set<Value>, stored1: set<Value>)
      returns (loaded: set<Value>, stored: set<Value>)
      requires WellFormed(g) && g.Has(start.value) && start.mode.Loaded?
      requires !Visited(start, l, s)
      requires Exploring(g, start, l, s, loaded1, stored1)
      requires g.KindOf(start.value).Phi? || g.KindOf(start.value).ConstantArray?
      requires gos == GlobalsIn(g, loaded1, stored1)
      modifies this
      ensures Exploring(g, start, l, s, loaded, stored)
      ensures forall o :: o in g.nodes[start.value].operands ==> o in loaded
      ensures loaded1 <= loaded && stored1 <= stored
      ensures gos == GlobalsIn(g, loaded, stored)
      decreases Unvisited(g, l, s), 1
    {
      loaded, stored := loaded1, stored1;
      var operands := g.nodes[start.value].operands;
      for i := 0 to |operands|
        invariant Exploring(g, start, l, s, loaded, stored)
        invariant loaded1 <= loaded && stored1 <= stored
        invariant gos == GlobalsIn(g, loaded, stored)
        invariant forall j :: 0 <= j < i ==> operands[j] in loaded
      {
        loaded, stored := LoadedChild(g, start, operands[i], l, s, loaded, stored);
      }
    }
  }

  /** `h` is `g` with the users of every value, and the operands that are visited in a loop, listed in another order. */
  ghost predicate Reordered(g: Graph, h: Graph) {
    && |g.nodes| == |h.nodes|
    && forall v :: 0 <= v < |g.nodes| ==>
         var m, n := g.nodes[v], h.nodes[v];
         && m.kind == n.kind
         && (forall u :: u in m.users <==> u in n.users)
         && (if m.kind.Phi? || m.kind.ConstantArray?
             then forall o :: o in m.operands <==> o in n.operands
             else m.operands == n.operands)
  }

  /** The traced globals do not depend on the order in which users and operands are visited. */
  lemma {:induction false} TraceIgnoresOrder(g: Graph, h: Graph, start: Value, go: Value)
    requires WellFormed(g) && WellFormed(h) && Reordered(g, h)
    ensures MayAlias(g, start, go) <==> MayAlias(h, start, go)
  {
    forall m ensures Reachable(Steps(g), Point(start, Loaded), Point(go, m))
                <==> Reachable(Steps(h), Point(start, Loaded), Point(go, m)) {
      ReachableCongruence(Steps(g), Steps(h), Point(start, Loaded), Point(go, m));
    }
  }

  // ----- the same set, as the least one closed under the flow rules -----

  /** Where a value comes from: what must be in `l` and `s` once `v` is in `l`. */
  ghost predicate LoadedClosed(g: Graph, l: set<Value>, s: set<Value>, v: Value)
    requires WellFormed(g) && g.Has(v)
  {
    var n := g.nodes[v];
    && (n.kind.Phi? || n.kind.ConstantArray? ==> forall o :: o in n.operands ==> o in l)
    && (n.kind.Select? ==> n.operands[1] in l && n.operands[2] in l)
    && (n.kind.GetElementPtr? || n.kind.BitCast? ==> n.operands[0] in l)
    && (n.kind.ConstantExpr? && (n.kind.opcode.OpGetElementPtr? || n.kind.opcode.OpBitCast?) ==> n.operands[0] in l)
    && (n.kind.GlobalVariable? && n.kind.initializer.Some? ==> n.kind.initializer.value in l)
    && (n.kind.Alloca? || n.kind.GlobalVariable? ==> v in s)
  }

  /** What is written through a value: what must be in `l` and `s` once `v` is in `s`. */
  ghost predicate StoredClosed(g: Graph, l: set<Value>, s: set<Value>, v: Value)
    requires WellFormed(g) && g.Has(v)
  {
    var n := g.nodes[v];
    && (n.kind.Memcpy? ==> n.operands[1] in l)
    && (n.kind.Store? ==> n.operands[0] in l)
    && (n.kind.Alloca? || n.kind.GetElementPtr? || n.kind.BitCast? ==> forall u :: u in n.users ==> u in s)
  }

  ghost predicate FlowClosed(g: Graph, l: set<Value>, s: set<Value>)
    requires WellFormed(g)
  {
    && (forall v :: v in l && g.Has(v) ==> LoadedClosed(g, l, s, v))
    && (forall v :: v in s && g.Has(v) ==> StoredClosed(g, l, s, v))
  }

  /** Closed under the rules is closed under the edges. */
  lemma {:induction false} ClosedUnderEdges(g: Graph, l: set<Value>, s: set<Value>)
    requires WellFormed(g)
    ensures FlowClosed(g, l, s) <==> forall p, q :: Visited(p, l, s) && Edge(g, p, q) ==> Visited(q, l, s)
  {
    if FlowClosed(g, l, s) {
      forall p, q | Visited(p, l, s) && Edge(g, p, q) ensures Visited(q, l, s) {
        if p.mode.Loaded? {
          assert LoadedClosed(g, l, s, p.value);
        } else {
          assert StoredClosed(g, l, s, p.value);
        }
      }
    }
    if forall p, q :: Visited(p, l, s) && Edge(g, p, q) ==> Visited(q, l, s) {
      forall v | v in l && g.Has(v) ensures LoadedClosed(g, l, s, v) {
        EdgesFromLoaded(g, l, s, v);
      }
      forall v | v in s && g.Has(v) ensures StoredClosed(g, l, s, v) {
        EdgesFromStored(g, l, s, v);
      }
    }
  }

  lemma {:induction false} EdgesFromLoaded(g: Graph, l: set<Value>, s: set<Value>, v: Value)
    requires WellFormed(g) && g.Has(v) && v in l
    requires forall p, q :: Visited(p, l, s) && Edge(g, p, q) ==> Visited(q, l, s)
    ensures LoadedClosed(g, l, s, v)
  {
    var p, n := Point(v, Loaded), g.nodes[v];
    forall o | Edge(g, p, Point(o, Loaded)) ensures o in l {
      assert Visited(Point(o, Loaded), l, s);
    }
    forall o | Edge(g, p, Point(o, Stored)) ensures o in s {
      assert Visited(Point(o, Stored), l, s);
    }
    match n.kind
    case Phi => assert forall o :: o in n.operands ==> Edge(g, p, Point(o, Loaded));
    case ConstantArray => assert forall o :: o in n.operands ==> Edge(g, p, Point(o, Loaded));
    case Select => assert Edge(g, p, Point(n.operands[1], Loaded)) && Edge(g, p, Point(n.operands[2], Loaded));
    case Alloca => assert Edge(g, p, Point(v, Stored));
    case GetElementPtr => assert Edge(g, p, Point(n.operands[0], Loaded));
    case BitCast => assert Edge(g, p, Point(n.operands[0], Loaded));
    case ConstantExpr(op) => if !op.OpOther? { assert Edge(g, p, Point(n.operands[0], Loaded)); }
    case GlobalVariable(_, init) =>
      assert Edge(g, p, Point(v, Stored));
      if init.Some? { assert Edge(g, p, Point(init.value, Loaded)); }
    case _ =>
  }

  lemma {:induction false} EdgesFromStored(g: Graph, l: set<Value>, s: set<Value>, v: Value)
    requires WellFormed(g) && g.Has(v) && v in s
    requires forall p, q :: Visited(p, l, s) && Edge(g, p, q) ==> Visited(q, l, s)
    ensures StoredClosed(g, l, s, v)
  {
    var p, n := Point(v, Stored), g.nodes[v];
    forall o | Edge(g, p, Point(o, Loaded)) ensures o in l {
      assert Visited(Point(o, Loaded), l, s);
    }
    forall o | Edge(g, p, Point(o, Stored)) ensures o in s {
      assert Visited(Point(o, Stored), l, s);
    }
    match n.kind
    case Memcpy => assert Edge(g, p, Point(n.operands[1], Loaded));
    case Store => assert Edge(g, p, Point(n.operands[0], Loaded));
    case Alloca => assert forall u :: u in n.users ==> Edge(g, p, Point(u, Stored));
    case GetElementPtr => assert forall u :: u in n.users ==> Edge(g, p, Point(u, Stored));
    case BitCast => assert forall u :: u in n.users ==> Edge(g, p, Point(u, Stored));
    case _ =>
  }

  /** The traced globals are those in every pair of sets that holds the start and is closed under the flow rules. */
  lemma {:induction false} TracedIsLeast(g: Graph, start: Value, go: Value)
    requires WellFormed(g) && g.Has(start)
    ensures MayAlias(g, start, go) <==>
      && g.Has(go) && (g.nodes[go].kind.Function? || g.nodes[go].kind.GlobalVariable?)
      && forall l, s :: start in l && FlowClosed(g, l, s) ==> go in l || go in s
  {
    var from := Point(start, Loaded);
    if MayAlias(g, start, go) {
      forall l, s | start in l && FlowClosed(g, l, s) ensures go in l || go in s {
        ClosedUnderEdges(g, l, s);
        var m :| Reachable(Steps(g), from, Point(go, m));
        var n: nat :| ReachableIn(Steps(g), from, Point(go, m), n);
        var all := (set v | v in l :: Point(v, Loaded)) + (set v | v in s :: Point(v, Stored));
        assert forall q :: q in all <==> Visited(q, l, s);
        ClosedHoldsReachable(Steps(g), all, from, Point(go, m), n);
      }
    }
    var l := set v: Value | v < |g.nodes| && Reachable(Steps(g), from, Point(v, Loaded));
    var s := set v: Value | v < |g.nodes| && Reachable(Steps(g), from, Point(v, Stored));
    ReachedIsClosed(g, from, l, s);
    ReachableSelf(Steps(g), from);
  }

  lemma {:induction false} ReachedIsClosed(g: Graph, from: Point, l: set<Value>, s: set<Value>)
    requires WellFormed(g)
    requires l == set v: Value | v < |g.nodes| && Reachable(Steps(g), from, Point(v, Loaded))
    requires s == set v: Value | v < |g.nodes| && Reachable(Steps(g), from, Point(v, Stored))
    ensures FlowClosed(g, l, s)
  {
    forall p, q | Visited(p, l, s) && Edge(g, p, q) ensures Visited(q, l, s) {
      ReachableAppend(Steps(g), from, p, q);
      assert g.Has(q.value);
    }
    ClosedUnderEdges(g, l, s);
  }

  ghost predicate ArgsInGraph(g: Graph, calls: seq<seq<Value>>) {
    forall c, a :: 0 <= c < |calls| && 0 <= a < |calls[c]| ==> g.Has(calls[c][a])
  }

  /** Some argument of one of the first `c` calls, or of the first `a` arguments of call `c`, may alias `go`. */
  ghost predicate Traced(g: Graph, calls: seq<seq<Value>>, c: nat, a: nat, go: Value)
    requires WellFormed(g)
  {
    exists i: nat, j: nat ::
      i < |calls| && j < |calls[i]| && (i < c || (i == c && j < a)) && MayAlias(g, calls[i][j], go)
  }

  lemma {:induction false} TracedNext(g: Graph, calls: seq<seq<Value>>, c: nat, a: nat, go: Value)
    requires WellFormed(g)
    requires c < |calls| && a < |calls[c]|
    ensures Traced(g, calls, c, a + 1, go) <==> Traced(g, calls, c, a, go) || MayAlias(g, calls[c][a], go)
  {
  }

  lemma {:induction false} TracedRow(g: Graph, calls: seq<seq<Value>>, c: nat, go: Value)
    requires WellFormed(g) && c < |calls|
    ensures Traced(g, calls, c + 1, 0, go) <==> Traced(g, calls, c, |calls[c]|, go)
  {
  }

  /** The sections of a module's global objects: those placed in the jit section. */
  class Sections {
    var jit: set<Value>

    constructor ()
      ensures jit == {}
    {
      jit := {};
    }

    /** Marks exactly the constant globals that may flow into an argument of a compiler-interface call. */
    method DeduceObjectsToJit(g: Graph, calls: seq<seq<Value>>)
      requires WellFormed(g) && ArgsInGraph(g, calls)
      modifies this
      ensures forall go :: go in jit <==>
                go in old(jit) || (g.IsConstantGlobal(go) && exists c, a ::
                  0 <= c < |calls| && 0 <= a < |calls[c]| && MayAlias(g, calls[c][a], go))
    {
      for c := 0 to |calls|
        invariant forall go :: go in jit <==> go in old(jit) || (g.IsConstantGlobal(go) && Traced(g, calls, c, 0, go))
      {
        for a := 0 to |calls[c]|
          invariant forall go :: go in jit <==> go in old(jit) || (g.IsConstantGlobal(go) && Traced(g, calls, c, a, go))
        {
          var tracer := new MayAliasTracer(g, calls[c][a]);
          ghost var before := jit;
          for go := 0 to |g.nodes|
            invariant forall o :: o in tracer.gos <==> MayAlias(g, calls[c][a], o)
            invariant forall o: Value :: o in jit <==>
                        o in before || (o < go && g.IsConstantGlobal(o) && o in tracer.gos)
          {
            if g.IsConstantGlobal(go) && go in tracer.gos {
              jit := jit + {go};
            }
          }
          forall go ensures Traced(g, calls, c, a + 1, go) <==>
                              Traced(g, calls, c, a, go) || MayAlias(g, calls[c][a], go) {
            TracedNext(g, calls, c, a, go);
          }
        }
        forall go ensures Traced(g, calls, c + 1, 0, go) <==> Traced(g, calls, c, |calls[c]|, go) {
          TracedRow(g, calls, c, go);
        }
      }
    }
  }
}
