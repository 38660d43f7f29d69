/**
 The pass as a whole: the wrapper's layout, type, inner call and attributes, built one after the other,
 and what the result is worth to the caller of `easy::jit`.
 */
module WrapperCreation {
  import opened Wrappers
  import opened DataLayout
  import opened Specialiser
  import opened SpecialiserCorrectness
  import opened WrapperAttributes
  import Jit = JitContext
  import Placeholders
  import opened Bytes

  datatype WrapperFunction = WrapperFunction(ty: Type, layout: HighLevelLayout, call: seq<Operand>, attrs: Attributes)

  /** On these arguments the wrapper computes what the original computes on the intended ones. */
  ghost predicate MeansOn<V(!new), R>(w: WrapperFunction, c: seq<Jit.Argument>, fhll: HighLevelLayout, env: LinkEnv,
                                      f: seq<V> -> R, lit: Operand -> V, hidden: seq<V>, groups: seq<seq<V>>)
  {
    var xs := hidden + FlattenUpTo(groups, |groups|);
    InScope(w.call, |xs|) &&
    exists want :: IsIntended(want, c, fhll, env, groups, lit) && RunWrapper(f, w.call, xs, lit) == f(hidden + want)
  }

  ghost predicate Means<V(!new), R>(w: WrapperFunction, c: seq<Jit.Argument>, fhll: HighLevelLayout, env: LinkEnv,
                                    f: seq<V> -> R, lit: Operand -> V)
    requires AllFitting(c, fhll, env) && |w.layout.args| == NewArgCount(c)
  {
    forall hidden: seq<V>, groups: seq<seq<V>> :: |hidden| == fhll.Hidden() && GroupsFit(groups, w.layout.args) ==>
      MeansOn(w, c, fhll, env, f, lit, hidden, groups)
  }

  /** The inner call has the original's parameter types exactly when everything linked has the type expected of it. */
  ghost predicate TypedExactly(w: WrapperFunction, c: seq<Jit.Argument>, fhll: HighLevelLayout, env: LinkEnv)
    requires AllFitting(c, fhll, env)
  {
    && w.ty == Fn(fhll.ret, ParamsOf(w.layout), false)
    && InScope(w.call, |ParamsOf(w.layout)|)
    && (Eval(w.call, ParamsOf(w.layout), ConstantType) == ParamsOf(fhll) <==> LinksMatch(c, fhll, env))
  }

  /**
   Builds the wrapper for a gap-free context. It exists exactly when no placeholder is used twice; then it
   means the original with the constants in place, is typed like it, and carries its attributes.
   */
  method CreateWrapperFun<V(!new), R>(c: seq<Jit.Argument>, fhll: HighLevelLayout, env: LinkEnv, fattrs: Attributes,
                                      ghost f: seq<V> -> R, ghost lit: Operand -> V)
    returns (w: Option<WrapperFunction>)
    requires AllFitting(c, fhll, env) && WellFormed(fhll) && GapFree(c)
    ensures w.Some? <==> OnceUsed(c)
    ensures w.Some? ==> IsNewLayout(c, fhll, w.value.layout)
    ensures w.Some? ==> Means(w.value, c, fhll, env, f, lit) && TypedExactly(w.value, c, fhll, env)
    ensures w.Some? ==> BoundInPlace(w.value.call, c, fhll, env)
    ensures w.Some? && fhll.structReturn.None? ==> AllFollow(fattrs, c, fhll, w.value.layout, w.value.attrs)
  {
    hide Fitting, IsNewLayout, AllFollow, CopiedUpTo, GapFree, WellFormed, OnceUsed, BoundInPlace, IsIntended;
    var layout := GetNewLayout(c, fhll);
    var ty := GetWrapperTy(layout);
    var call := GetInlineArgs(c, fhll, layout, env);
    DefinedIffOnceUsed(c, fhll, layout, env);
    if call.None? {
      return None;
    }
    NewLayoutPositions(c, fhll, layout);
    var attrs := RemapAttributes(fattrs, fhll.args, layout.args);
    var wrapper := WrapperFunction(ty, layout, call.value, attrs);
    assert Means(wrapper, c, fhll, env, f, lit) by {
      forall hidden: seq<V>, groups: seq<seq<V>> | |hidden| == fhll.Hidden() && GroupsFit(groups, layout.args)
        ensures MeansOn(wrapper, c, fhll, env, f, lit, hidden, groups)
      {
        var want := WrapperMeaning(f, c, fhll, layout, env, hidden, groups, lit);
      }
    }
    InnerCallTyped(c, fhll, layout, env);
    if fhll.structReturn.None? {
      FollowWithoutHidden(fattrs, c, fhll, layout, attrs);
    }
    return Some(wrapper);
  }

  /** An integral argument of the call reaches a `w`-bit parameter of the original modulo two to the power of `w`. */
  ghost predicate IntegerArrives(call: seq<Operand>, fhll: HighLevelLayout, params: seq<Jit.ParamType>, args: seq<Jit.JitArg>, j: nat)
    requires j < |params| == |fhll.args| && |params| <= |args|
  {
    params[j].Integral? && args[j].Integer? && fhll.args[j].types == [Int(params[j].width)] ==>
      var at := OperandStart(fhll, j);
      at < |call| && call[at] == IntConst(Int(params[j].width), args[j].value % Pow2(params[j].width))
  }

  lemma {:induction false} IntegerDenoted(call: seq<Operand>, c: seq<Jit.Argument>, fhll: HighLevelLayout, env: LinkEnv,
                                          params: seq<Jit.ParamType>, args: seq<Jit.JitArg>, j: nat)
    requires |params| == |fhll.args| == |c| && |params| <= |args| && j < |params|
    requires Jit.Records(c[j], params[j], args[j]) && BoundAt(call, c, fhll, env, j)
    ensures IntegerArrives(call, fhll, params, args, j)
  {
  }

  /**
   From the call of `easy::jit` to the wrapper: what the compile-time mapping accepted is specialised, and
   the wrapper's parameters are the ones the mapping announced.
   */
  method Specialise<T(==), V(!new), R>(pl: seq<T>, params: seq<Jit.ParamType>, args: seq<Jit.JitArg>, ghost lower: T -> seq<Type>,
                                       fhll: HighLevelLayout, env: LinkEnv, fattrs: Attributes, ghost f: seq<V> -> R, ghost lit: Operand -> V)
    returns (w: Option<WrapperFunction>)
    requires |pl| == |params| == |fhll.args| && Jit.ValidCall(params, args)
    requires forall j :: 0 <= j < |pl| ==> fhll.args[j].types == lower(pl[j])
    requires WellFormed(fhll) && AllFitting(Jit.Recorded(params, args), fhll, env)
    requires Placeholders.NewParameterList(pl, args).Accepted?
    ensures w.Some? <==> OnceUsed(Jit.Recorded(params, args))
    ensures w.Some? ==> IsNewLayout(Jit.Recorded(params, args), fhll, w.value.layout)
    ensures w.Some? ==> Means(w.value, Jit.Recorded(params, args), fhll, env, f, lit)
    ensures w.Some? ==> TypedExactly(w.value, Jit.Recorded(params, args), fhll, env)
    ensures w.Some? ==> BoundInPlace(w.value.call, Jit.Recorded(params, args), fhll, env)
    ensures w.Some? ==> forall j :: 0 <= j < |params| ==> IntegerArrives(w.value.call, fhll, params, args, j)
    ensures w.Some? ==>
      var types := Placeholders.NewParameterList(pl, args).params;
      |w.value.layout.args| == |types| && forall k :: 0 <= k < |types| ==> w.value.layout.args[k].types == lower(types[k])
  {
    hide Fitting, Means, IsNewLayout, AllFollow, GapFree, WellFormed, OnceUsed, TypedExactly, Placeholders.MapPlaceholders, BoundAt, IntegerArrives, Jit.Records;
    AcceptedGapFree(pl, params, args);
    var context := Jit.GetContextFor(params, args);
    w := CreateWrapperFun(context.value.args, fhll, env, fattrs, f, lit);
    if w.Some? {
      CompileTimeAgrees(pl, params, args, lower, fhll, w.value.layout);
      forall j | 0 <= j < |params| ensures IntegerArrives(w.value.call, fhll, params, args, j) {
        assert BoundAt(w.value.call, context.value.args, fhll, env, j);
        IntegerDenoted(w.value.call, context.value.args, fhll, env, params, args, j);
      }
    }
  }
}
