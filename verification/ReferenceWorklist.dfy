/**
 The worklist that finds what an exported function needs: everything reachable from an entry through
 operands, function bodies and variable initialisers.
 */
module ReferenceWorklist {
  import opened Wrappers
  import opened ValueGraph
  import opened Reachability

  predicate IsUser(g: Graph, v: Value) {
    g.Has(v) && !g.KindOf(v).NonUser?
  }

  /** `to` is referenced directly by `from`. */
  predicate References(g: Graph, from: Value, to: Value)
    requires WellFormed(g)
  {
    g.Has(from) &&
    var n := g.nodes[from];
    || (to in n.operands && IsUser(g, to))
    || (n.kind.Function? && IsUser(g, to) && exists i :: 0 <= i < |n.kind.body| && to in g.nodes[n.kind.body[i]].operands)
    || (n.kind.GlobalVariable? && n.kind.initializer == Some(to))
  }

  ghost function Steps(g: Graph): (Value, Value) -> bool
    requires WellFormed(g)
  {
    (a: Value, b: Value) => References(g, a, b)
  }

  ghost predicate Needed(g: Graph, entry: Value, f: Value)
    requires WellFormed(g)
  {
    g.Has(f) && g.KindOf(f).Function? && Reachable(Steps(g), entry, f)
  }

  ghost predicate NoDuplicates(s: seq<Value>) {
    forall i, j :: 0 <= i < j < |s| ==> s[i] != s[j]
  }

  ghost function Values(g: Graph): set<Value> {
    set v: Value | v < |g.nodes| && g.Has(v)
  }

  /** Pushes the users among `ops` onto the pending stack. */
  method PushUsers(g: Graph, pending0: seq<Value>, ops: seq<Value>) returns (pending: seq<Value>)
    requires forall i :: 0 <= i < |ops| ==> g.Has(ops[i])
    ensures forall v :: v in pending <==> v in pending0 || (v in ops && IsUser(g, v))
  {
    pending := pending0;
    for i := 0 to |ops|
      invariant forall v :: v in pending <==> v in pending0 || (v in ops[..i] && IsUser(g, v))
    {
      if IsUser(g, ops[i]) {
        pending := pending + [ops[i]];
      }
    }
    assert ops[..|ops|] == ops;
  }

  /** Pushes everything that `u` references. */
  method PushReferences(g: Graph, pending0: seq<Value>, u: Value) returns (pending: seq<Value>)
    requires WellFormed(g) && g.Has(u)
    ensures forall v :: v in pending <==> v in pending0 || References(g, u, v)
  {
    pending := pending0;
    var n := g.nodes[u];
    if n.kind.Function? {
      var body := n.kind.body;
      for i := 0 to |body|
        invariant forall v :: v in pending <==>
                    v in pending0 || (IsUser(g, v) && exists k :: 0 <= k < i && v in g.nodes[body[k]].operands)
      {
        pending := PushUsers(g, pending, g.nodes[body[i]].operands);
      }
    } else if n.kind.GlobalVariable? {
      if n.kind.initializer.Some? {
        pending := pending + [n.kind.initializer.value];
      }
    }
    pending := PushUsers(g, pending, n.operands);
  }

  /** Each function the entry needs is returned exactly once, and nothing else is. */
  method GetReferencedFromEntry(g: Graph, entry: Value) returns (funs: seq<Value>)
    requires WellFormed(g) && g.Has(entry)
    ensures NoDuplicates(funs)
    ensures forall f :: f in funs <==> Needed(g, entry, f)
  {
    funs := [];
    var visited: set<Value> := {};
    var toVisit := [entry];
    ReachableSelf(Steps(g), entry);
    while toVisit != []
      invariant NoDuplicates(funs)
      invariant forall f :: f in funs <==> f in visited && g.Has(f) && g.KindOf(f).Function?
      invariant visited <= Values(g)
      invariant forall v :: v in toVisit ==> g.Has(v)
      invariant entry in visited || entry in toVisit
      invariant forall v :: v in visited || v in toVisit ==> Reachable(Steps(g), entry, v)
      invariant forall u, v :: u in visited && References(g, u, v) ==> v in visited || v in toVisit
      decreases Values(g) - visited, |toVisit|
    {
      var u := toVisit[|toVisit| - 1];
      ghost var before := toVisit;
      toVisit := toVisit[..|toVisit| - 1];
      assert forall v :: v in before <==> v in toVisit || v == u;
      if u in visited {
        continue;
      }
      visited := visited + {u};
      if g.KindOf(u).Function? {
        funs := funs + [u];
      }
      forall v | References(g, u, v) ensures Reachable(Steps(g), entry, v) {
        ReachableAppend(Steps(g), entry, u, v);
      }
      toVisit := PushReferences(g, toVisit, u);
    }
    forall f | Needed(g, entry, f) ensures f in visited {
      var n: nat :| ReachableIn(Steps(g), entry, f, n);
      ClosedHoldsReachable(Steps(g), visited, entry, f, n);
    }
  }

  // ----- the same functions, as the least set closed under the rules -----

  /** With a value, a closed set holds the users among its operands, those its body mentions, and its initialiser. */
  ghost predicate ReferenceClosed(g: Graph, s: set<Value>, u: Value)
    requires WellFormed(g) && g.Has(u)
  {
    var n := g.nodes[u];
    && (forall o :: o in n.operands && !g.nodes[o].kind.NonUser? ==> o in s)
    && (n.kind.Function? ==>
          forall i, o :: 0 <= i < |n.kind.body| && o in g.nodes[n.kind.body[i]].operands && !g.nodes[o].kind.NonUser? ==> o in s)
    && (n.kind.GlobalVariable? && n.kind.initializer.Some? ==> n.kind.initializer.value in s)
  }

  ghost predicate HoldsReferences(g: Graph, entry: Value, s: set<Value>)
    requires WellFormed(g)
  {
    entry in s && forall u :: u in s && g.Has(u) ==> ReferenceClosed(g, s, u)
  }

  /** A function is needed exactly when it is in every such set that holds the entry. */
  lemma {:induction false} NeededIsLeast(g: Graph, entry: Value, f: Value)
    requires WellFormed(g) && g.Has(entry)
    ensures Needed(g, entry, f) <==>
      && g.Has(f) && g.KindOf(f).Function?
      && forall s :: HoldsReferences(g, entry, s) ==> f in s
  {
    if Needed(g, entry, f) {
      forall s | HoldsReferences(g, entry, s) ensures f in s {
        forall u, v | u in s && References(g, u, v) ensures v in s {
          assert ReferenceClosed(g, s, u);
        }
        var n: nat :| ReachableIn(Steps(g), entry, f, n);
        ClosedHoldsReachable(Steps(g), s, entry, f, n);
      }
    }
    var s := set v: Value | v < |g.nodes| && Reachable(Steps(g), entry, v);
    ReachableSelf(Steps(g), entry);
    forall u | u in s && g.Has(u) ensures ReferenceClosed(g, s, u) {
      forall v | References(g, u, v) ensures v in s {
        ReachableAppend(Steps(g), entry, u, v);
        assert g.Has(v);
      }
      var n := g.nodes[u];
      assert forall o :: o in n.operands && IsUser(g, o) ==> References(g, u, o);
      if n.kind.GlobalVariable? && n.kind.initializer.Some? {
        assert References(g, u, n.kind.initializer.value);
      }
    }
    assert HoldsReferences(g, entry, s);
  }
}
