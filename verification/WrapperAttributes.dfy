/** Parameter attributes: copied from the original's parameters to the wrapper's. */
module WrapperAttributes {
  import opened Wrappers
  import opened DataLayout
  import opened Specialiser
  import Jit = JitContext

  type Attributes = map<nat, set<string>>

  function Attrs(table: Attributes, i: nat): set<string> { if i in table then table[i] else {} }

  function AddAttrs(table: Attributes, i: nat, more: set<string>): Attributes { table[i := Attrs(table, i) + more] }

  predicate PositionsIn(wargs: seq<HighLevelArg>, fargs: seq<HighLevelArg>) {
    forall k :: 0 <= k < |wargs| ==> wargs[k].position < |fargs|
  }

  /** Field `f` of wrapper argument `k` carries the attributes of the same field of the argument it came from. */
  predicate Carries(fattrs: Attributes, fargs: seq<HighLevelArg>, wargs: seq<HighLevelArg>, table: Attributes, k: nat, f: nat)
    requires k < |wargs| && wargs[k].position < |fargs|
  {
    Attrs(table, SizeBefore(wargs, k) + f) == Attrs(fattrs, fargs[wargs[k].position].firstParamIdx + f)
  }

  /** Everything up to field `field` of argument `k` has been copied, and nothing after it. */
  ghost predicate CopiedUpTo(fattrs: Attributes, fargs: seq<HighLevelArg>, wargs: seq<HighLevelArg>, table: Attributes, k: nat, field: nat)
    requires k <= |wargs| && PositionsIn(wargs, fargs)
  {
    && (forall m: nat, f: nat :: m < |wargs| && f < |wargs[m].types| && (m < k || (m == k && f < field)) ==>
          Carries(fattrs, fargs, wargs, table, m, f))
    && (forall x :: x in table ==> x < SizeBefore(wargs, k) + field)
  }

  lemma {:induction false} SlotBefore(wargs: seq<HighLevelArg>, m: nat, f: nat, k: nat)
    requires m < k <= |wargs| && f < |wargs[m].types|
    ensures SizeBefore(wargs, m) + f < SizeBefore(wargs, k)
  {
    if m < k - 1 {
      SlotBefore(wargs, m, f, k - 1);
    }
  }

  lemma {:induction false} CopyStep(fattrs: Attributes, fargs: seq<HighLevelArg>, wargs: seq<HighLevelArg>, table: Attributes, k: nat, field: nat)
    requires k < |wargs| && PositionsIn(wargs, fargs) && field < |wargs[k].types|
    requires CopiedUpTo(fattrs, fargs, wargs, table, k, field)
    ensures var at := SizeBefore(wargs, k) + field;
      CopiedUpTo(fattrs, fargs, wargs, AddAttrs(table, at, Attrs(fattrs, fargs[wargs[k].position].firstParamIdx + field)), k, field + 1)
  {
    var at := SizeBefore(wargs, k) + field;
    var table' := AddAttrs(table, at, Attrs(fattrs, fargs[wargs[k].position].firstParamIdx + field));
    forall m: nat, f: nat | m < |wargs| && f < |wargs[m].types| && (m < k || (m == k && f < field + 1))
      ensures Carries(fattrs, fargs, wargs, table', m, f)
    {
      if m < k {
        SlotBefore(wargs, m, f, k);
        assert Carries(fattrs, fargs, wargs, table, m, f);
      } else if f < field {
        assert Carries(fattrs, fargs, wargs, table, m, f);
      }
    }
  }

  lemma {:induction false} CopyStart(fattrs: Attributes, fargs: seq<HighLevelArg>, wargs: seq<HighLevelArg>)
    requires PositionsIn(wargs, fargs)
    ensures CopiedUpTo(fattrs, fargs, wargs, map[], 0, 0)
  {
  }

  lemma {:induction false} CopyNext(fattrs: Attributes, fargs: seq<HighLevelArg>, wargs: seq<HighLevelArg>, table: Attributes, k: nat)
    requires k < |wargs| && PositionsIn(wargs, fargs) && CopiedUpTo(fattrs, fargs, wargs, table, k, |wargs[k].types|)
    ensures CopiedUpTo(fattrs, fargs, wargs, table, k + 1, 0)
  {
  }

  /** Copies the attributes of every field of every wrapper argument. */
  method RemapAttributes(fattrs: Attributes, fargs: seq<HighLevelArg>, wargs: seq<HighLevelArg>) returns (table: Attributes)
    requires PositionsIn(wargs, fargs) && ParamIdxSet(wargs, |wargs|)
    ensures CopiedUpTo(fattrs, fargs, wargs, table, |wargs|, 0)
  {
    table := map[];
    CopyStart(fattrs, fargs, wargs);
    hide CopiedUpTo;
    for k := 0 to |wargs|
      invariant CopiedUpTo(fattrs, fargs, wargs, table, k, 0)
    {
      for field := 0 to |wargs[k].types|
        invariant CopiedUpTo(fattrs, fargs, wargs, table, k, field)
      {
        CopyStep(fattrs, fargs, wargs, table, k, field);
        var at := field + wargs[k].firstParamIdx;
        assert at == SizeBefore(wargs, k) + field;
        table := AddAttrs(table, at, Attrs(fattrs, field + fargs[wargs[k].position].firstParamIdx));
      }
      CopyNext(fattrs, fargs, wargs, table, k);
    }
  }

  /**
   Where argument `i` forwards placeholder k, its field `f` is passed from one wrapper parameter to one
   parameter of the original. Attributes follow that mapping when there is no hidden return parameter;
   with one, they land on the wrapper parameter just before.
   */
  lemma {:induction false} AttributesFollowForwarding(fattrs: Attributes, c: seq<Jit.Argument>, fhll: HighLevelLayout,
                                                      whll: HighLevelLayout, table: Attributes, k: nat, i: nat, f: nat)
    requires IsNewLayout(c, fhll, whll) && WellFormed(fhll) && GapFree(c)
    requires PositionsIn(whll.args, fhll.args) && CopiedUpTo(fattrs, fhll.args, whll.args, table, |whll.args|, 0)
    requires IsFirstForward(c, k, i) && f < |fhll.args[i].types|
    ensures ForwardOperands(c, fhll.Hidden(), whll.args, i, |fhll.args[i].types|).Some?
    ensures var from := ForwardOperands(c, fhll.Hidden(), whll.args, i, |fhll.args[i].types|).value[f];
            var to := fhll.args[i].firstParamIdx + f;
      from.Param? && fhll.Hidden() <= from.index && Attrs(table, from.index - fhll.Hidden()) == Attrs(fattrs, to)
  {
    hide CopiedUpTo, GapFree, ForwardOperands, ParamRange, SizeBefore, NewArgCount;
    NewLayoutArg(c, fhll, whll, k, i);
    assert fhll.args[i].position == i;
    CarriedByOperand(fattrs, c, fhll, whll, table, k, i, f);
  }

  /** The layouts agree on where argument `i`, forwarded from `k`, comes from and how many fields it has. */
  predicate SameSource(fargs: seq<HighLevelArg>, wargs: seq<HighLevelArg>, k: nat, i: nat) {
    k < |wargs| && i < |fargs| && wargs[k].position == i && |wargs[k].types| == |fargs[i].types|
  }

  lemma {:induction false} CarriedByOperand(fattrs: Attributes, c: seq<Jit.Argument>, fhll: HighLevelLayout, whll: HighLevelLayout,
                                            table: Attributes, k: nat, i: nat, f: nat)
    requires |c| == |fhll.args| && |whll.args| == NewArgCount(c) && PositionsIn(whll.args, fhll.args)
    requires CopiedUpTo(fattrs, fhll.args, whll.args, table, |whll.args|, 0)
    requires IsFirstForward(c, k, i) && SameSource(fhll.args, whll.args, k, i) && f < |fhll.args[i].types|
    ensures var ops := ForwardOperands(c, fhll.Hidden(), whll.args, i, |fhll.args[i].types|);
      ops.Some? && ops.value[f] == Param(fhll.Hidden() + SizeBefore(whll.args, k) + f)
    ensures Attrs(table, SizeBefore(whll.args, k) + f) == Attrs(fattrs, fhll.args[i].firstParamIdx + f)
  {
    hide CopiedUpTo;
    CarriedFrom(fattrs, fhll.args, whll.args, table, k, i, f);
  }

  lemma {:induction false} CarriedFrom(fattrs: Attributes, fargs: seq<HighLevelArg>, wargs: seq<HighLevelArg>, table: Attributes,
                                       k: nat, i: nat, f: nat)
    requires PositionsIn(wargs, fargs) && CopiedUpTo(fattrs, fargs, wargs, table, |wargs|, 0)
    requires k < |wargs| && wargs[k].position == i < |fargs| && f < |wargs[k].types|
    ensures Attrs(table, SizeBefore(wargs, k) + f) == Attrs(fattrs, fargs[i].firstParamIdx + f)
  {
    assert Carries(fattrs, fargs, wargs, table, k, f);
  }

  // ----- exactly when attributes follow the forwarding -----

  /** Every wrapper argument of a gap-free context comes from some argument of the original. */
  lemma {:induction false} NewLayoutPositions(c: seq<Jit.Argument>, fhll: HighLevelLayout, whll: HighLevelLayout)
    requires IsNewLayout(c, fhll, whll) && WellFormed(fhll) && GapFree(c)
    ensures PositionsIn(whll.args, fhll.args)
  {
    forall k | 0 <= k < |whll.args| ensures whll.args[k].position < |fhll.args| {
      PositionOfForward(c, fhll, whll, k);
    }
  }

  /** The wrapper parameter that carries field `f` of argument `i` has that field's attributes. */
  predicate FieldFollows(fattrs: Attributes, c: seq<Jit.Argument>, fhll: HighLevelLayout, whll: HighLevelLayout, table: Attributes,
                         k: nat, i: nat, f: nat)
    requires |c| == |fhll.args| && |whll.args| == NewArgCount(c) && IsFirstForward(c, k, i) && f < |fhll.args[i].types|
  {
    ForwardInRange(c, k, i);
    var carrier := ForwardOperands(c, fhll.Hidden(), whll.args, i, |fhll.args[i].types|).value[f];
    Attrs(table, carrier.index) == Attrs(fattrs, fhll.args[i].firstParamIdx + f)
  }

  ghost predicate AllFollow(fattrs: Attributes, c: seq<Jit.Argument>, fhll: HighLevelLayout, whll: HighLevelLayout, table: Attributes)
    requires |c| == |fhll.args| && |whll.args| == NewArgCount(c)
  {
    forall k: nat, i: nat, f: nat :: IsFirstForward(c, k, i) && f < |fhll.args[i].types| ==>
      FieldFollows(fattrs, c, fhll, whll, table, k, i, f)
  }

  /** Whatever attributes the original has, those of every forwarded field end up on the parameter that carries it. */
  ghost predicate AlwaysFollow(c: seq<Jit.Argument>, fhll: HighLevelLayout, whll: HighLevelLayout)
    requires |c| == |fhll.args| && |whll.args| == NewArgCount(c) && PositionsIn(whll.args, fhll.args)
  {
    forall fattrs, table :: CopiedUpTo(fattrs, fhll.args, whll.args, table, |whll.args|, 0) ==>
      AllFollow(fattrs, c, fhll, whll, table)
  }

  /** Without a hidden parameter, or with nothing to forward, they do. */
  lemma {:induction false} FollowWithoutHidden(fattrs: Attributes, c: seq<Jit.Argument>, fhll: HighLevelLayout, whll: HighLevelLayout, table: Attributes)
    requires IsNewLayout(c, fhll, whll) && WellFormed(fhll) && GapFree(c)
    requires PositionsIn(whll.args, fhll.args) && CopiedUpTo(fattrs, fhll.args, whll.args, table, |whll.args|, 0)
    requires fhll.structReturn.None? || SizeBefore(whll.args, |whll.args|) == 0
    ensures AllFollow(fattrs, c, fhll, whll, table)
  {
    hide CopiedUpTo, FieldFollows;
    forall k: nat, i: nat, f: nat | IsFirstForward(c, k, i) && f < |fhll.args[i].types|
      ensures FieldFollows(fattrs, c, fhll, whll, table, k, i, f)
    {
      NewLayoutArg(c, fhll, whll, k, i);
      assert fhll.args[i].position == i;
      FollowsWithoutHidden(fattrs, c, fhll, whll, table, k, i, f);
    }
  }

  lemma {:induction false} FollowsWithoutHidden(fattrs: Attributes, c: seq<Jit.Argument>, fhll: HighLevelLayout, whll: HighLevelLayout,
                                                table: Attributes, k: nat, i: nat, f: nat)
    requires |c| == |fhll.args| && |whll.args| == NewArgCount(c) && PositionsIn(whll.args, fhll.args)
    requires CopiedUpTo(fattrs, fhll.args, whll.args, table, |whll.args|, 0)
    requires fhll.structReturn.None? || SizeBefore(whll.args, |whll.args|) == 0
    requires IsFirstForward(c, k, i) && SameSource(fhll.args, whll.args, k, i) && f < |fhll.args[i].types|
    ensures FieldFollows(fattrs, c, fhll, whll, table, k, i, f)
  {
    hide CopiedUpTo, ForwardOperands;
    SlotBefore(whll.args, k, f, |whll.args|);
    CarriedByOperand(fattrs, c, fhll, whll, table, k, i, f);
  }

  /** The wrapper argument that holds the last parameter. */
  lemma {:induction false} LastField(wargs: seq<HighLevelArg>, n: nat) returns (k: nat)
    requires n <= |wargs| && SizeBefore(wargs, n) > 0
    ensures k < n && |wargs[k].types| > 0 && SizeBefore(wargs, k) + |wargs[k].types| == SizeBefore(wargs, n)
  {
    k := n - 1;
    if |wargs[k].types| == 0 {
      k := LastField(wargs, n - 1);
    }
  }

  /** A table that the copy leaves exists for all attributes. */
  lemma {:induction false} TableExists(fattrs: Attributes, fargs: seq<HighLevelArg>, wargs: seq<HighLevelArg>) returns (table: Attributes)
    requires PositionsIn(wargs, fargs)
    ensures CopiedUpTo(fattrs, fargs, wargs, table, |wargs|, 0)
  {
    table := map[];
    CopyStart(fattrs, fargs, wargs);
    hide CopiedUpTo;
    for k := 0 to |wargs|
      invariant CopiedUpTo(fattrs, fargs, wargs, table, k, 0)
    {
      for field := 0 to |wargs[k].types|
        invariant CopiedUpTo(fattrs, fargs, wargs, table, k, field)
      {
        CopyStep(fattrs, fargs, wargs, table, k, field);
        table := AddAttrs(table, SizeBefore(wargs, k) + field, Attrs(fattrs, fargs[wargs[k].position].firstParamIdx + field));
      }
      CopyNext(fattrs, fargs, wargs, table, k);
    }
  }

  /** With a hidden parameter, an attribute of the last forwarded field is always lost. */
  lemma {:induction false} LostWithHidden(c: seq<Jit.Argument>, fhll: HighLevelLayout, whll: HighLevelLayout)
    returns (fattrs: Attributes, table: Attributes)
    requires IsNewLayout(c, fhll, whll) && GapFree(c) && PositionsIn(whll.args, fhll.args)
    requires fhll.structReturn.Some? && SizeBefore(whll.args, |whll.args|) > 0
    ensures CopiedUpTo(fattrs, fhll.args, whll.args, table, |whll.args|, 0)
    ensures !AllFollow(fattrs, c, fhll, whll, table)
  {
    hide CopiedUpTo, FieldFollows, GapFree, SizeBefore, NewArgCount;
    var k, i := LastForwarded(c, fhll, whll);
    var f := |whll.args[k].types| - 1;
    fattrs := map[fhll.args[i].firstParamIdx + f := {"noalias"}];
    table := TableExists(fattrs, fhll.args, whll.args);
    LostField(fattrs, c, fhll, whll, table, k, i, f);
  }

  /** Where the last parameter of the wrapper comes from. */
  lemma {:induction false} LastForwarded(c: seq<Jit.Argument>, fhll: HighLevelLayout, whll: HighLevelLayout) returns (k: nat, i: nat)
    requires IsNewLayout(c, fhll, whll) && GapFree(c) && SizeBefore(whll.args, |whll.args|) > 0
    ensures k < |whll.args| && IsFirstForward(c, k, i) && |whll.args[k].types| == |fhll.args[i].types| > 0
    ensures SizeBefore(whll.args, k) + |whll.args[k].types| == SizeBefore(whll.args, |whll.args|)
  {
    k := LastField(whll.args, |whll.args|);
    assert Forwards(c, k);
    i := FirstForwardExists(c, k);
    NewLayoutArg(c, fhll, whll, k, i);
  }

  lemma {:induction false} LostField(fattrs: Attributes, c: seq<Jit.Argument>, fhll: HighLevelLayout, whll: HighLevelLayout, table: Attributes,
                                     k: nat, i: nat, f: nat)
    requires |c| == |fhll.args| && |whll.args| == NewArgCount(c) && PositionsIn(whll.args, fhll.args)
    requires CopiedUpTo(fattrs, fhll.args, whll.args, table, |whll.args|, 0) && fhll.structReturn.Some?
    requires k < |whll.args| && IsFirstForward(c, k, i) && f < |fhll.args[i].types|
    requires SizeBefore(whll.args, k) + f + 1 == SizeBefore(whll.args, |whll.args|)
    requires Attrs(fattrs, fhll.args[i].firstParamIdx + f) != {}
    ensures !FieldFollows(fattrs, c, fhll, whll, table, k, i, f)
  {
    assert SizeBefore(whll.args, |whll.args|) !in table;
  }

  /** Attributes follow the forwarding exactly when there is no hidden return parameter or nothing is forwarded. */
  lemma {:induction false} FollowIffNoHidden(c: seq<Jit.Argument>, fhll: HighLevelLayout, whll: HighLevelLayout)
    requires IsNewLayout(c, fhll, whll) && WellFormed(fhll) && GapFree(c)
    ensures PositionsIn(whll.args, fhll.args)
    ensures AlwaysFollow(c, fhll, whll) <==> fhll.structReturn.None? || SizeBefore(whll.args, |whll.args|) == 0
  {
    NewLayoutPositions(c, fhll, whll);
    hide CopiedUpTo, AllFollow;
    if fhll.structReturn.None? || SizeBefore(whll.args, |whll.args|) == 0 {
      forall fattrs, table | CopiedUpTo(fattrs, fhll.args, whll.args, table, |whll.args|, 0)
        ensures AllFollow(fattrs, c, fhll, whll, table)
      {
        FollowWithoutHidden(fattrs, c, fhll, whll, table);
      }
    } else {
      var fattrs, table := LostWithHidden(c, fhll, whll);
    }
  }

  /** With a hidden return parameter a forwarded pointer loses its attribute to the parameter before it. */
  lemma {:induction false} StructReturnCounterexample(table: Attributes)
    requires var f := HighLevelArg(0, 1, [Ptr(Void)], false);
             var w := HighLevelArg(0, 0, [Ptr(Void)], false);
             CopiedUpTo(map[1 := {"noalias"}], [f], [w], table, 1, 0)
    ensures Attrs(table, 1) == {} && Attrs(table, 0) == {"noalias"}
  {
    var f := HighLevelArg(0, 1, [Ptr(Void)], false);
    var w := HighLevelArg(0, 0, [Ptr(Void)], false);
    assert Carries(map[1 := {"noalias"}], [f], [w], table, 0, 0);
    assert SizeBefore([w], 1) == 1;
  }
}
