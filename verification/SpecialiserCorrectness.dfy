/**
 What specialisation preserves: the inner call is defined, passes every argument where the original
 expects it, has the original's parameter types, and the wrapper's parameters are those that the
 compile-time mapping promised to the caller.
 */
module SpecialiserCorrectness {
  import opened Wrappers
  import opened DataLayout
  import opened Specialiser
  import Jit = JitContext
  import Placeholders
  import opened StructConstants
  import StructImage
  import Bytes

  // ----- when the inner call is defined -----

  lemma {:induction false} InlineDefined(c: seq<Jit.Argument>, fhll: HighLevelLayout, whll: HighLevelLayout, env: LinkEnv, i: nat)
    requires AllFitting(c, fhll, env) && |whll.args| == NewArgCount(c) && i <= |c|
    ensures InlineUpTo(c, fhll, whll, env, i).Some? <==>
              forall j :: 0 <= j < i && c[j].Forward? ==> IsFirstForward(c, c[j].index, j)
  {
    hide Fitting, BoundOperands, SizeBefore;
    if i > 0 {
      InlineDefined(c, fhll, whll, env, i - 1);
    }
  }

  /** The inner call exists exactly when no placeholder is used twice. */
  lemma {:induction false} DefinedIffOnceUsed(c: seq<Jit.Argument>, fhll: HighLevelLayout, whll: HighLevelLayout, env: LinkEnv)
    requires AllFitting(c, fhll, env) && WellFormed(fhll) && GapFree(c) && IsNewLayout(c, fhll, whll)
    ensures InlineUpTo(c, fhll, whll, env, |c|).Some? <==> OnceUsed(c)
  {
    InlineDefined(c, fhll, whll, env, |c|);
    if OnceUsed(c) {
      forall j | 0 <= j < |c| && c[j].Forward? ensures IsFirstForward(c, c[j].index, j) {
        assert forall m :: 0 <= m < j && c[m] == c[j] ==> c[m].Forward?;
      }
    }
  }

  // ----- what the inner call passes -----

  predicate InScope(ops: seq<Operand>, n: nat) {
    forall j :: 0 <= j < |ops| && ops[j].Param? ==> ops[j].index < n
  }

  /** The values of operands when the wrapper runs on `xs`; `lit` gives the value of each constant. */
  function Eval<V>(ops: seq<Operand>, xs: seq<V>, lit: Operand -> V): (vs: seq<V>)
    requires InScope(ops, |xs|)
    ensures |vs| == |ops|
  {
    seq(|ops|, j requires 0 <= j < |ops| => if ops[j].Param? then xs[ops[j].index] else lit(ops[j]))
  }

  lemma {:induction false} EvalConcat<V>(a: seq<Operand>, b: seq<Operand>, xs: seq<V>, lit: Operand -> V)
    requires InScope(a, |xs|) && InScope(b, |xs|)
    ensures InScope(a + b, |xs|) && Eval(a + b, xs, lit) == Eval(a, xs, lit) + Eval(b, xs, lit)
  {
    forall j | 0 <= j < |a + b| && (a + b)[j].Param? ensures (a + b)[j].index < |xs| {
      if j < |a| { assert (a + b)[j] == a[j]; } else { assert (a + b)[j] == b[j - |a|]; }
    }
  }

  /** The values of the wrapper's arguments, one group per argument, as its parameter list flattens them. */
  function FlattenUpTo<V>(groups: seq<seq<V>>, i: nat): seq<V>
    requires i <= |groups|
  {
    if i == 0 then [] else FlattenUpTo(groups, i - 1) + groups[i - 1]
  }

  predicate GroupsFit<V>(groups: seq<seq<V>>, args: seq<HighLevelArg>) {
    |groups| == |args| && forall k :: 0 <= k < |args| ==> |groups[k]| == |args[k].types|
  }

  lemma {:induction false} FlattenLength<V>(groups: seq<seq<V>>, args: seq<HighLevelArg>, i: nat)
    requires GroupsFit(groups, args) && i <= |args|
    ensures |FlattenUpTo(groups, i)| == SizeBefore(args, i)
  {
    if i > 0 {
      FlattenLength(groups, args, i - 1);
    }
  }

  /** Group `k` is found at the prefix sum of the sizes before it. */
  lemma {:induction false} FlattenSlice<V>(groups: seq<seq<V>>, args: seq<HighLevelArg>, k: nat, n: nat)
    requires GroupsFit(groups, args) && k < n <= |args|
    ensures SizeBefore(args, k) + |groups[k]| <= |FlattenUpTo(groups, n)|
    ensures FlattenUpTo(groups, n)[SizeBefore(args, k)..SizeBefore(args, k) + |groups[k]|] == groups[k]
    decreases n
  {
    FlattenLength(groups, args, n - 1);
    if k < n - 1 {
      FlattenSlice(groups, args, k, n - 1);
    }
  }

  /** The arguments that the original function should receive, in order: forwarded groups and bound constants. */
  function Intended<V>(c: seq<Jit.Argument>, fhll: HighLevelLayout, env: LinkEnv, groups: seq<seq<V>>, lit: Operand -> V, i: nat): seq<V>
    requires i <= |c| == |fhll.args| && |groups| == NewArgCount(c)
    requires forall j :: 0 <= j < |c| ==> Fitting(c[j], fhll.args[j], env)
  {
    if i == 0 then []
    else Intended(c, fhll, env, groups, lit, i - 1) + IntendedArg(c, fhll, env, groups, lit, i - 1)
  }

  function IntendedArg<V>(c: seq<Jit.Argument>, fhll: HighLevelLayout, env: LinkEnv, groups: seq<seq<V>>, lit: Operand -> V, i: nat): seq<V>
    requires i < |c| == |fhll.args| && |groups| == NewArgCount(c) && Fitting(c[i], fhll.args[i], env)
  {
    if c[i].Forward? then
      ForwardInRange(c, c[i].index, i);
      groups[c[i].index]
    else
      var ops := BoundOperands(c[i], fhll.args[i], env);
      seq(|ops|, j requires 0 <= j < |ops| => lit(ops[j]))
  }

  /** Operands that are all constants evaluate to their own values. */
  lemma {:induction false} ConstantsEvaluate<V>(ops: seq<Operand>, xs: seq<V>, lit: Operand -> V)
    requires forall j :: 0 <= j < |ops| ==> !ops[j].Param?
    ensures InScope(ops, |xs|)
    ensures Eval(ops, xs, lit) == seq(|ops|, j requires 0 <= j < |ops| => lit(ops[j]))
  {
  }

  lemma {:induction false} ForwardEvaluates<V>(args: seq<HighLevelArg>, hidden: seq<V>, groups: seq<seq<V>>, lit: Operand -> V, k: nat)
    requires GroupsFit(groups, args) && k < |args|
    ensures var ops, xs := ParamRange(|hidden| + SizeBefore(args, k), |groups[k]|), hidden + FlattenUpTo(groups, |groups|);
      InScope(ops, |xs|) && Eval(ops, xs, lit) == groups[k]
  {
    FlattenSlice(groups, args, k, |args|);
    var flat, at := FlattenUpTo(groups, |groups|), SizeBefore(args, k);
    forall j | 0 <= j < |groups[k]| ensures (hidden + flat)[|hidden| + at + j] == groups[k][j] {
      assert groups[k][j] == flat[at..at + |groups[k]|][j];
    }
  }

  /** A first use takes as many parameters in the wrapper as in the original. */
  ghost predicate SizesAgree(c: seq<Jit.Argument>, fhll: HighLevelLayout, whll: HighLevelLayout) {
    && |c| == |fhll.args| && |whll.args| == NewArgCount(c)
    && forall k: nat, i: nat :: IsFirstForward(c, k, i) ==> k < |whll.args| && |whll.args[k].types| == |fhll.args[i].types|
  }

  lemma {:induction false} NewLayoutSizes(c: seq<Jit.Argument>, fhll: HighLevelLayout, whll: HighLevelLayout)
    requires IsNewLayout(c, fhll, whll)
    ensures SizesAgree(c, fhll, whll)
  {
    forall k: nat, i: nat | IsFirstForward(c, k, i)
      ensures k < |whll.args| && |whll.args[k].types| == |fhll.args[i].types|
    {
      ForwardInRange(c, k, i);
      assert SameArg(whll.args[k], fhll.args[i]);
    }
  }

  /** One argument: its operands evaluate to what it should be. */
  lemma {:induction false} ArgEvaluates<V>(c: seq<Jit.Argument>, fhll: HighLevelLayout, whll: HighLevelLayout, env: LinkEnv,
                                           hidden: seq<V>, groups: seq<seq<V>>, lit: Operand -> V, i: nat)
    requires SizesAgree(c, fhll, whll) && i < |c| && Fitting(c[i], fhll.args[i], env)
    requires |hidden| == fhll.Hidden() && GroupsFit(groups, whll.args)
    requires ArgOperands(c, fhll, whll, env, i).Some?
    ensures var ops, xs := ArgOperands(c, fhll, whll, env, i).value, hidden + FlattenUpTo(groups, |groups|);
      InScope(ops, |xs|) && Eval(ops, xs, lit) == IntendedArg(c, fhll, env, groups, lit, i)
  {
    if c[i].Forward? {
      var k := c[i].index;
      assert IsFirstForward(c, k, i);
      ForwardEvaluates(whll.args, hidden, groups, lit, k);
    } else {
      ConstantsEvaluate(BoundOperands(c[i], fhll.args[i], env), hidden + FlattenUpTo(groups, |groups|), lit);
    }
  }

  /** The first `i` arguments: their operands evaluate to the hidden argument and the intended ones. */
  lemma {:induction false} InlineEvaluates<V>(c: seq<Jit.Argument>, fhll: HighLevelLayout, whll: HighLevelLayout, env: LinkEnv,
                                              hidden: seq<V>, groups: seq<seq<V>>, lit: Operand -> V, i: nat)
    requires AllFitting(c, fhll, env) && SizesAgree(c, fhll, whll) && i <= |c|
    requires |hidden| == fhll.Hidden() && GroupsFit(groups, whll.args)
    requires InlineUpTo(c, fhll, whll, env, i).Some?
    ensures var ops, xs := InlineUpTo(c, fhll, whll, env, i).value, hidden + FlattenUpTo(groups, |groups|);
      InScope(ops, |xs|) && Eval(ops, xs, lit) == hidden + Intended(c, fhll, env, groups, lit, i)
  {
    hide Fitting, BoundOperands;
    var xs := hidden + FlattenUpTo(groups, |groups|);
    if i > 0 {
      InlineEvaluates(c, fhll, whll, env, hidden, groups, lit, i - 1);
      ArgEvaluates(c, fhll, whll, env, hidden, groups, lit, i - 1);
      StepEvaluates(InlineUpTo(c, fhll, whll, env, i - 1).value, ArgOperands(c, fhll, whll, env, i - 1).value, xs, lit,
                    hidden, Intended(c, fhll, env, groups, lit, i - 1), IntendedArg(c, fhll, env, groups, lit, i - 1));
    } else {
      HiddenEvaluates(hidden, FlattenUpTo(groups, |groups|), lit);
    }
  }

  lemma {:induction false} StepEvaluates<V>(before: seq<Operand>, ops: seq<Operand>, xs: seq<V>, lit: Operand -> V,
                                            hidden: seq<V>, want: seq<V>, more: seq<V>)
    requires InScope(before, |xs|) && InScope(ops, |xs|)
    requires Eval(before, xs, lit) == hidden + want && Eval(ops, xs, lit) == more
    ensures InScope(before + ops, |xs|) && Eval(before + ops, xs, lit) == hidden + (want + more)
  {
    EvalConcat(before, ops, xs, lit);
    assert hidden + want + more == hidden + (want + more);
  }

  lemma {:induction false} HiddenEvaluates<V>(hidden: seq<V>, rest: seq<V>, lit: Operand -> V)
    requires |hidden| <= 1
    ensures var ops := if |hidden| == 1 then [Param(0)] else [];
      InScope(ops, |hidden + rest|) && Eval(ops, hidden + rest, lit) == hidden == hidden + []
  {
  }

  // ----- what should arrive -----

  function Literals<V>(ops: seq<Operand>, lit: Operand -> V): (vs: seq<V>)
    ensures |vs| == |ops|
  {
    seq(|ops|, j requires 0 <= j < |ops| => lit(ops[j]))
  }

  /** These values are right for argument `i`: the forwarded group, or constants that denote the bound argument. */
  ghost predicate ArgIntended<V>(vs: seq<V>, c: seq<Jit.Argument>, fhll: HighLevelLayout, env: LinkEnv, groups: seq<seq<V>>, lit: Operand -> V, i: nat)
    requires i < |c| == |fhll.args|
  {
    if c[i].Forward? then c[i].index < |groups| && vs == groups[c[i].index]
    else exists ops :: Denotes(ops, c[i], fhll.args[i], env) && vs == Literals(ops, lit)
  }

  /** These values are what the original function should receive after the hidden argument. */
  ghost predicate IsIntended<V>(want: seq<V>, c: seq<Jit.Argument>, fhll: HighLevelLayout, env: LinkEnv, groups: seq<seq<V>>, lit: Operand -> V) {
    && |c| == |fhll.args| && |want| == SizeBefore(fhll.args, |c|)
    && forall i :: 0 <= i < |c| ==> SliceIntended(want, c, fhll, env, groups, lit, i)
  }

  ghost predicate SliceIntended<V>(want: seq<V>, c: seq<Jit.Argument>, fhll: HighLevelLayout, env: LinkEnv, groups: seq<seq<V>>, lit: Operand -> V, i: nat)
    requires i < |c| == |fhll.args|
  {
    var at, n := SizeBefore(fhll.args, i), |fhll.args[i].types|;
    at + n <= |want| && ArgIntended(want[at..at + n], c, fhll, env, groups, lit, i)
  }

  lemma {:induction false} IntendedArgIntended<V>(c: seq<Jit.Argument>, fhll: HighLevelLayout, whll: HighLevelLayout, env: LinkEnv,
                                                  groups: seq<seq<V>>, lit: Operand -> V, i: nat)
    requires SizesAgree(c, fhll, whll) && OnceUsed(c) && GroupsFit(groups, whll.args) && i < |c| && Fitting(c[i], fhll.args[i], env)
    ensures |IntendedArg(c, fhll, env, groups, lit, i)| == |fhll.args[i].types|
    ensures ArgIntended(IntendedArg(c, fhll, env, groups, lit, i), c, fhll, env, groups, lit, i)
  {
    if c[i].Forward? {
      ForwardInRange(c, c[i].index, i);
      assert IsFirstForward(c, c[i].index, i);
    } else {
      var ops := BoundOperands(c[i], fhll.args[i], env);
      BoundDenotes(c[i], fhll.args[i], env);
      hide Denotes, BoundOperands;
      assert IntendedArg(c, fhll, env, groups, lit, i) == Literals(ops, lit);
    }
  }

  lemma {:induction false} IntendedSlices<V>(c: seq<Jit.Argument>, fhll: HighLevelLayout, whll: HighLevelLayout, env: LinkEnv,
                                             groups: seq<seq<V>>, lit: Operand -> V, i: nat, j: nat)
    requires AllFitting(c, fhll, env) && SizesAgree(c, fhll, whll) && OnceUsed(c) && GroupsFit(groups, whll.args) && i <= |c|
    ensures |Intended(c, fhll, env, groups, lit, i)| == SizeBefore(fhll.args, i)
    ensures j < i ==> SliceIntended(Intended(c, fhll, env, groups, lit, i), c, fhll, env, groups, lit, j)
  {
    hide Fitting, ArgIntended, OnceUsed, BoundOperands, SliceIntended, IntendedArg;
    if i > 0 {
      IntendedSlices(c, fhll, whll, env, groups, lit, i - 1, j);
      IntendedArgIntended(c, fhll, whll, env, groups, lit, i - 1);
      SliceStep(Intended(c, fhll, env, groups, lit, i - 1), IntendedArg(c, fhll, env, groups, lit, i - 1), c, fhll, env, groups, lit, i - 1, j);
    }
  }

  lemma {:induction false} SliceStep<V>(before: seq<V>, more: seq<V>, c: seq<Jit.Argument>, fhll: HighLevelLayout, env: LinkEnv,
                                        groups: seq<seq<V>>, lit: Operand -> V, i: nat, j: nat)
    requires i < |c| == |fhll.args| && |before| == SizeBefore(fhll.args, i) && |more| == |fhll.args[i].types|
    requires j < i ==> SliceIntended(before, c, fhll, env, groups, lit, j)
    requires ArgIntended(more, c, fhll, env, groups, lit, i)
    ensures j <= i ==> SliceIntended(before + more, c, fhll, env, groups, lit, j)
  {
    hide ArgIntended;
    if j < i {
      var at, n := SizeBefore(fhll.args, j), |fhll.args[j].types|;
      assert (before + more)[at..at + n] == before[at..at + n];
    } else {
      assert (before + more)[|before|..|before| + |more|] == more;
    }
  }

  lemma {:induction false} IntendedIsIntended<V>(c: seq<Jit.Argument>, fhll: HighLevelLayout, whll: HighLevelLayout, env: LinkEnv,
                                                 groups: seq<seq<V>>, lit: Operand -> V)
    requires AllFitting(c, fhll, env) && SizesAgree(c, fhll, whll) && OnceUsed(c) && GroupsFit(groups, whll.args)
    ensures IsIntended(Intended(c, fhll, env, groups, lit, |c|), c, fhll, env, groups, lit)
  {
    hide Fitting, SliceIntended, OnceUsed, BoundOperands;
    IntendedSlices(c, fhll, whll, env, groups, lit, |c|, |c|);
    forall i | 0 <= i < |c| ensures SliceIntended(Intended(c, fhll, env, groups, lit, |c|), c, fhll, env, groups, lit, i) {
      IntendedSlices(c, fhll, whll, env, groups, lit, |c|, i);
    }
  }

  /** Only one list of operands denotes a bound argument. */
  lemma {:induction false} DenotesUnique(x: seq<Operand>, y: seq<Operand>, a: Jit.Argument, p: HighLevelArg, env: LinkEnv)
    requires Denotes(x, a, p, env) && Denotes(y, a, p, env)
    ensures x == y
  {
    hide DenotesField, IsConstantOf;
    match a
    case Struct(data) =>
      if p.structByPointer {
        ConstantOfUnique(x[0].value, y[0].value, p.types[0].to, StructImage.Read(data, 0, LayoutShape(p.types[0].to)), env.names);
      } else {
        forall j | 0 <= j < |x| ensures x[j] == y[j] {
          assert DenotesField(x[j], data, p.types, j) && DenotesField(y[j], data, p.types, j);
          FieldUnique(x[j], y[j], data, p.types, j);
        }
      }
    case Int(_) => assert x[0] == y[0];
    case Float(_) => assert x[0] == y[0];
    case Ptr(_) => assert x[0] == y[0];
    case Module(_) => assert x[0] == y[0];
    case Forward(_) =>
  }

  lemma {:induction false} FieldUnique(x: Operand, y: Operand, data: seq<Bytes.Byte>, types: seq<Type>, j: nat)
    requires j < |types| && DenotesField(x, data, types, j) && DenotesField(y, data, types, j)
    ensures x == y
  {
  }

  /** So only one list of values is intended. */
  lemma {:induction false} IntendedUnique<V>(x: seq<V>, y: seq<V>, c: seq<Jit.Argument>, fhll: HighLevelLayout, env: LinkEnv,
                                             groups: seq<seq<V>>, lit: Operand -> V, i: nat)
    requires IsIntended(x, c, fhll, env, groups, lit) && IsIntended(y, c, fhll, env, groups, lit) && i <= |c|
    ensures SizeBefore(fhll.args, i) <= |x| == |y| && x[..SizeBefore(fhll.args, i)] == y[..SizeBefore(fhll.args, i)]
  {
    if i > 0 {
      IntendedUnique(x, y, c, fhll, env, groups, lit, i - 1);
      var at, n := SizeBefore(fhll.args, i - 1), |fhll.args[i - 1].types|;
      assert SliceIntended(x, c, fhll, env, groups, lit, i - 1) && SliceIntended(y, c, fhll, env, groups, lit, i - 1);
      ArgUnique(x[at..at + n], y[at..at + n], c, fhll, env, groups, lit, i - 1);
      assert x[..at + n] == x[..at] + x[at..at + n] && y[..at + n] == y[..at] + y[at..at + n];
    }
  }

  lemma {:induction false} ArgUnique<V>(x: seq<V>, y: seq<V>, c: seq<Jit.Argument>, fhll: HighLevelLayout, env: LinkEnv,
                                        groups: seq<seq<V>>, lit: Operand -> V, i: nat)
    requires i < |c| == |fhll.args|
    requires ArgIntended(x, c, fhll, env, groups, lit, i) && ArgIntended(y, c, fhll, env, groups, lit, i)
    ensures x == y
  {
    hide Denotes;
    if !c[i].Forward? {
      var a :| Denotes(a, c[i], fhll.args[i], env) && x == Literals(a, lit);
      var b :| Denotes(b, c[i], fhll.args[i], env) && y == Literals(b, lit);
      DenotesUnique(a, b, c[i], fhll.args[i], env);
    }
  }

  /** Running the wrapper: the original function applied to the values of the inner call's operands. */
  function RunWrapper<V, R>(f: seq<V> -> R, ops: seq<Operand>, xs: seq<V>, lit: Operand -> V): R
    requires InScope(ops, |xs|)
  {
    f(Eval(ops, xs, lit))
  }

  /**
   Specialisation preserves meaning: on any arguments, the wrapper computes what the original computes
   with constants that denote the bound arguments in place and each forwarded group where its placeholder
   stood.
   */
  lemma {:induction false} WrapperMeaning<V, R>(f: seq<V> -> R, c: seq<Jit.Argument>, fhll: HighLevelLayout, whll: HighLevelLayout,
                                                env: LinkEnv, hidden: seq<V>, groups: seq<seq<V>>, lit: Operand -> V)
    returns (want: seq<V>)
    requires AllFitting(c, fhll, env) && WellFormed(fhll) && GapFree(c) && IsNewLayout(c, fhll, whll) && OnceUsed(c)
    requires |hidden| == fhll.Hidden() && GroupsFit(groups, whll.args)
    ensures InlineUpTo(c, fhll, whll, env, |c|).Some?
    ensures IsIntended(want, c, fhll, env, groups, lit)
    ensures var ops, xs := InlineUpTo(c, fhll, whll, env, |c|).value, hidden + FlattenUpTo(groups, |groups|);
      InScope(ops, |xs|) && RunWrapper(f, ops, xs, lit) == f(hidden + want)
  {
    hide Fitting, IsIntended, BoundOperands;
    DefinedIffOnceUsed(c, fhll, whll, env);
    NewLayoutSizes(c, fhll, whll);
    InlineEvaluates(c, fhll, whll, env, hidden, groups, lit, |c|);
    IntendedIsIntended(c, fhll, whll, env, groups, lit);
    want := Intended(c, fhll, env, groups, lit, |c|);
  }

  lemma {:induction false} TwiceForwarded(c: seq<Jit.Argument>)
    requires c == [Jit.Forward(0), Jit.Forward(0)]
    ensures NewArgCount(c) == 1
  {
    var once: seq<Jit.Argument> := [Jit.Forward(0)];
    assert once[..0] == [] && c[..1] == once;
    assert NewArgCount(once) == 1;
    assert c[..|c| - 1] == once;
  }

  /** A placeholder used twice: the second use is not found, so the inner call does not exist. */
  lemma {:induction false} RepeatedPlaceholderCounterexample(ty: Type, env: LinkEnv)
    ensures var c := [Jit.Forward(0), Jit.Forward(0)];
            var fhll := HighLevelLayout(None, [HighLevelArg(0, 0, [ty], false), HighLevelArg(1, 1, [ty], false)], ty);
            var whll := HighLevelLayout(None, [HighLevelArg(0, 0, [ty], false)], ty);
      AllFitting(c, fhll, env) && WellFormed(fhll) && GapFree(c) && IsNewLayout(c, fhll, whll)
      && InlineUpTo(c, fhll, whll, env, 2) == None
  {
    var c := [Jit.Forward(0), Jit.Forward(0)];
    var fhll := HighLevelLayout(None, [HighLevelArg(0, 0, [ty], false), HighLevelArg(1, 1, [ty], false)], ty);
    var whll := HighLevelLayout(None, [HighLevelArg(0, 0, [ty], false)], ty);
    TwiceForwarded(c);
    assert SizeBefore(fhll.args, 1) == 1;
    assert Jit.Forward(0) in c;
    assert !IsFirstForward(c, 0, 1);
    assert c[1] == Jit.Forward(0);
  }

  // ----- types of the inner call -----

  /** The type of a constant operand; for parameters it is given by the wrapper's signature. */
  function ConstantType(op: Operand): Type {
    match op case Param(_) => Void case _ => op.ty
  }

  function TypeGroups(args: seq<HighLevelArg>): seq<seq<Type>> {
    seq(|args|, k requires 0 <= k < |args| => args[k].types)
  }

  lemma {:induction false} TypeGroupsFlatten(args: seq<HighLevelArg>, i: nat)
    requires i <= |args|
    ensures FlattenUpTo(TypeGroups(args), i) == TypesBefore(args, i)
  {
    if i > 0 {
      TypeGroupsFlatten(args, i - 1);
    }
  }

  function HiddenType(hll: HighLevelLayout): seq<Type> {
    if hll.structReturn.Some? then [hll.structReturn.value] else []
  }

  /** The type that argument `i` of the inner call gets from its operands is the type the original expects. */
  predicate LinkMatches(a: Jit.Argument, p: HighLevelArg, env: LinkEnv)
    requires Fitting(a, p, env)
  {
    match a
    case Ptr(addr) => addr in env.names && addr in env.functionTypes ==> env.functionTypes[addr] == p.types[0]
    case Module(h) => env.entries[h].1 == p.types[0]
    case _ => true
  }

  ghost predicate LinksMatch(c: seq<Jit.Argument>, fhll: HighLevelLayout, env: LinkEnv)
    requires AllFitting(c, fhll, env)
  {
    forall i :: 0 <= i < |c| ==> LinkMatches(c[i], fhll.args[i], env)
  }

  function BoundTypes(a: Jit.Argument, p: HighLevelArg, env: LinkEnv): (ts: seq<Type>)
    requires !a.Forward? && Fitting(a, p, env)
    ensures |ts| == |p.types|
  {
    var ops := BoundOperands(a, p, env);
    seq(|ops|, j requires 0 <= j < |ops| => ConstantType(ops[j]))
  }

  /** A bound argument has the expected types exactly when what it links to has. */
  lemma {:induction false} BoundTypesMatch(a: Jit.Argument, p: HighLevelArg, env: LinkEnv)
    requires !a.Forward? && Fitting(a, p, env)
    ensures BoundTypes(a, p, env) == p.types <==> LinkMatches(a, p, env)
  {
    var ts := BoundTypes(a, p, env);
    match a
    case Struct(data) =>
      if !p.structByPointer {
        FieldOperandsAreConstants(data, p.types, |p.types|);
      } else {
        assert ts[0] == p.types[0];
      }
    case Module(h) => assert ts[0] == env.entries[h].1;
    case Ptr(addr) => assert ts[0] == ConstantType(PointerOperand(addr, p.types[0], env));
    case Int(_) => assert ts[0] == p.types[0];
    case Float(_) => assert ts[0] == p.types[0];
    case Forward(_) =>
  }

  /** The types of the first `i` intended arguments. */
  lemma {:induction false} IntendedTypes(c: seq<Jit.Argument>, fhll: HighLevelLayout, whll: HighLevelLayout, env: LinkEnv, i: nat)
    requires AllFitting(c, fhll, env) && IsNewLayout(c, fhll, whll) && OnceUsed(c) && i <= |c|
    ensures |Intended(c, fhll, env, TypeGroups(whll.args), ConstantType, i)| == SizeBefore(fhll.args, i)
    ensures Intended(c, fhll, env, TypeGroups(whll.args), ConstantType, i) == TypesBefore(fhll.args, i) <==>
              forall j :: 0 <= j < i ==> LinkMatches(c[j], fhll.args[j], env)
  {
    hide Fitting, BoundOperands, IntendedArg, LinkMatches, OnceUsed;
    if i > 0 {
      IntendedTypes(c, fhll, whll, env, i - 1);
      IntendedTypeStep(c, fhll, whll, env, i - 1);
      SplitEqual(Intended(c, fhll, env, TypeGroups(whll.args), ConstantType, i - 1), TypesBefore(fhll.args, i - 1),
                 IntendedArg(c, fhll, env, TypeGroups(whll.args), ConstantType, i - 1), fhll.args[i - 1].types);
    }
  }

  lemma {:induction false} SplitEqual<T>(a: seq<T>, b: seq<T>, x: seq<T>, y: seq<T>)
    requires |a| == |b| && |x| == |y|
    ensures a + x == b + y <==> a == b && x == y
  {
    if a + x == b + y {
      assert a == (a + x)[..|a|] && b == (b + y)[..|b|];
      assert x == (a + x)[|a|..] && y == (b + y)[|b|..];
    }
  }

  lemma {:induction false} IntendedTypeStep(c: seq<Jit.Argument>, fhll: HighLevelLayout, whll: HighLevelLayout, env: LinkEnv, i: nat)
    requires IsNewLayout(c, fhll, whll) && OnceUsed(c) && i < |c| && Fitting(c[i], fhll.args[i], env)
    ensures |IntendedArg(c, fhll, env, TypeGroups(whll.args), ConstantType, i)| == |fhll.args[i].types|
    ensures IntendedArg(c, fhll, env, TypeGroups(whll.args), ConstantType, i) == fhll.args[i].types <==> LinkMatches(c[i], fhll.args[i], env)
  {
    if c[i].Forward? {
      ForwardInRange(c, c[i].index, i);
      assert IsFirstForward(c, c[i].index, i);
      assert SameArg(whll.args[c[i].index], fhll.args[i]);
    } else {
      BoundTypesMatch(c[i], fhll.args[i], env);
      assert IntendedArg(c, fhll, env, TypeGroups(whll.args), ConstantType, i) == BoundTypes(c[i], fhll.args[i], env);
    }
  }

  /** The inner call has exactly the original's parameter types, exactly when every linked function has the type its parameter expects. */
  lemma {:induction false} InnerCallTyped(c: seq<Jit.Argument>, fhll: HighLevelLayout, whll: HighLevelLayout, env: LinkEnv)
    requires AllFitting(c, fhll, env) && WellFormed(fhll) && GapFree(c) && IsNewLayout(c, fhll, whll) && OnceUsed(c)
    ensures InlineUpTo(c, fhll, whll, env, |c|).Some?
    ensures var ops := InlineUpTo(c, fhll, whll, env, |c|).value;
      && InScope(ops, |ParamsOf(whll)|)
      && (Eval(ops, ParamsOf(whll), ConstantType) == ParamsOf(fhll) <==> LinksMatch(c, fhll, env))
  {
    hide Fitting, BoundOperands;
    DefinedIffOnceUsed(c, fhll, whll, env);
    NewLayoutSizes(c, fhll, whll);
    TypeGroupsFlatten(whll.args, |whll.args|);
    InlineEvaluates(c, fhll, whll, env, HiddenType(fhll), TypeGroups(whll.args), ConstantType, |c|);
    assert HiddenType(fhll) + FlattenUpTo(TypeGroups(whll.args), |whll.args|) == ParamsOf(whll);
    IntendedTypes(c, fhll, whll, env, |c|);
    SplitEqual(HiddenType(fhll), HiddenType(fhll), Intended(c, fhll, env, TypeGroups(whll.args), ConstantType, |c|),
               TypesBefore(fhll.args, |c|));
  }

  // ----- agreement with the compile-time parameter list -----

  lemma {:induction false} RecordedForward(params: seq<Jit.ParamType>, al: seq<Jit.JitArg>, k: nat, i: nat)
    requires |params| == |al| && forall j :: 0 <= j < |al| ==> Jit.Accepts(params[j], al[j])
    ensures IsForward(Jit.Recorded(params, al), k, i) <==> i < |al| && Jit.PlaceholderNumber(al[i]) == k + 1
    ensures IsFirstForward(Jit.Recorded(params, al), k, i) <==> Placeholders.IsFirstUse(al, k + 1, i)
  {
    var c := Jit.Recorded(params, al);
    forall j | 0 <= j < |al| ensures c[j] == Jit.Forward(k) <==> Jit.PlaceholderNumber(al[j]) == k + 1 {
      assert c[j] == Jit.Record(params[j], al[j]);
    }
  }

  lemma {:induction false} CountIsMax(params: seq<Jit.ParamType>, al: seq<Jit.JitArg>)
    requires |params| == |al| && forall j :: 0 <= j < |al| ==> Jit.Accepts(params[j], al[j])
    ensures NewArgCount(Jit.Recorded(params, al)) == Placeholders.MaxPlaceholder(al, 0)
  {
    var c, n := Jit.Recorded(params, al), Placeholders.MaxPlaceholder(al, 0);
    Placeholders.MaxIsMax(al, 0);
    CountBounds(c);
    if n > 0 {
      var a :| a in al && Jit.PlaceholderNumber(a) == n;
      var i :| 0 <= i < |al| && al[i] == a;
      RecordedForward(params, al, n - 1, i);
      ForwardInRange(c, n - 1, i);
    }
    if NewArgCount(c) > 0 {
      var k := NewArgCount(c) - 1;
      var i :| 0 <= i < |c| && c[i] == Jit.Forward(k);
      RecordedForward(params, al, k, i);
    }
  }

  lemma {:induction false} CountBounds(c: seq<Jit.Argument>)
    ensures NewArgCount(c) > 0 ==> Jit.Forward(NewArgCount(c) - 1) in c
  {
    if c != [] {
      CountBounds(c[..|c| - 1]);
    }
  }

  /** A placeholder below the maximum of an accepted mapping has a first use, which the context records. */
  lemma {:induction false} AcceptedForward<T>(pl: seq<T>, params: seq<Jit.ParamType>, al: seq<Jit.JitArg>, k: nat) returns (i: nat)
    requires |pl| == |params| == |al| && forall j :: 0 <= j < |al| ==> Jit.Accepts(params[j], al[j])
    requires Placeholders.MapPlaceholders(pl, al).Accepted? && k < Placeholders.MaxPlaceholder(al, 0)
    ensures Placeholders.IsFirstUse(al, k + 1, i) && IsFirstForward(Jit.Recorded(params, al), k, i)
    ensures Forwards(Jit.Recorded(params, al), k)
  {
    var n := Placeholders.MaxPlaceholder(al, 0);
    Placeholders.MappingCorrect(pl, al);
    var m: nat :| m <= |al| && Placeholders.Covers(al[..m], n) && !Placeholders.Respelled(al[..m]);
    assert Placeholders.Uses(al[..m], k + 1);
    var a :| a in al[..m] && Jit.PlaceholderNumber(a) == k + 1;
    assert a in al;
    i := Placeholders.FirstUseExists(al, k + 1);
    RecordedForward(params, al, k, i);
  }

  /** Acceptance by the compile-time mapping rules out gaps at run time. */
  lemma {:induction false} AcceptedGapFree<T>(pl: seq<T>, params: seq<Jit.ParamType>, args: seq<Jit.JitArg>)
    requires |pl| == |params| && Jit.ValidCall(params, args) && Placeholders.NewParameterList(pl, args).Accepted?
    ensures GapFree(Jit.Recorded(params, args))
  {
    var al := args[..|params|];
    Placeholders.OptionsDiscarded(args, |params|);
    assert Jit.Recorded(params, al) == Jit.Recorded(params, args);
    CountIsMax(params, al);
    forall k: nat | k < NewArgCount(Jit.Recorded(params, al)) ensures Forwards(Jit.Recorded(params, al), k) {
      var i := AcceptedForward(pl, params, al, k);
    }
  }

  /** Without options: the mapping's acceptance rules out gaps, and the two parameter lists agree position by position. */
  lemma {:induction false} MappingAgrees<T>(pl: seq<T>, params: seq<Jit.ParamType>, al: seq<Jit.JitArg>,
                                            lower: T -> seq<Type>, fhll: HighLevelLayout, whll: HighLevelLayout)
    requires |pl| == |params| == |al| == |fhll.args|
    requires forall j :: 0 <= j < |al| ==> Jit.Accepts(params[j], al[j])
    requires forall j :: 0 <= j < |pl| ==> fhll.args[j].types == lower(pl[j])
    requires IsNewLayout(Jit.Recorded(params, al), fhll, whll)
    requires Placeholders.MapPlaceholders(pl, al).Accepted?
    ensures GapFree(Jit.Recorded(params, al))
    ensures var types := Placeholders.MapPlaceholders(pl, al).params;
      |whll.args| == |types| && forall k :: 0 <= k < |types| ==> whll.args[k].types == lower(types[k])
  {
    var c, n, types := Jit.Recorded(params, al), Placeholders.MaxPlaceholder(al, 0), Placeholders.MapPlaceholders(pl, al).params;
    Placeholders.MappingCorrect(pl, al);
    CountIsMax(params, al);
    forall k: nat | k < n ensures Forwards(c, k) && whll.args[k].types == lower(types[k]) {
      var i := AcceptedForward(pl, params, al, k);
      assert SameArg(whll.args[k], fhll.args[i]);
      assert types[k + 1 - 1] == pl[i];
    }
  }

  /**
   What the caller was promised at compile time is what the pass builds at run time: the same number of
   parameters, each lowered from the type the compile-time mapping assigned to it, whatever options
   follow the arguments.
   */
  lemma {:induction false} CompileTimeAgrees<T>(pl: seq<T>, params: seq<Jit.ParamType>, args: seq<Jit.JitArg>,
                                                lower: T -> seq<Type>, fhll: HighLevelLayout, whll: HighLevelLayout)
    requires |pl| == |params| == |fhll.args| && Jit.ValidCall(params, args)
    requires forall j :: 0 <= j < |pl| ==> fhll.args[j].types == lower(pl[j])
    requires IsNewLayout(Jit.Recorded(params, args), fhll, whll)
    requires Placeholders.NewParameterList(pl, args).Accepted?
    ensures GapFree(Jit.Recorded(params, args))
    ensures var types := Placeholders.NewParameterList(pl, args).params;
      |whll.args| == |types| && forall k :: 0 <= k < |types| ==> whll.args[k].types == lower(types[k])
  {
    var al := args[..|params|];
    Placeholders.OptionsDiscarded(args, |params|);
    assert Jit.Recorded(params, al) == Jit.Recorded(params, args);
    MappingAgrees(pl, params, al, lower, fhll, whll);
  }
}
