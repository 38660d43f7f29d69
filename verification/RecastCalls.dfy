/**
 The clean-up after devirtualisation: a call through a pointer cast of a function becomes a direct call,
 with casts on the pointer arguments, when the two function types differ in pointer parameters only.
 Pointer casts do nothing at run time; the other conversions are part of the `Base` values.
 */
module RecastCalls {

  import opened DataLayout

  datatype Value = Base(id: nat, ty: Type) | PointerCast(of: Value, ty: Type)

  /** `stripPointerCasts` */
  function Strip(v: Value): (r: Value)
    ensures r.Base?
  {
    if v.PointerCast? then Strip(v.of) else v
  }

  datatype Call = Call(callee: Value, fnTy: Type, args: seq<Value>)

  datatype Instruction =
    | CallSite(dest: Value, call: Call)
    | CastInst(cast: Value)
    | Other(dest: Value, uses: set<Value>)

  /** The function type behind a function pointer. */
  function Pointee(v: Value): Type
    requires IsFunctionPointer(v.ty)
  {
    v.ty.to
  }

  // ----- typing -----

  predicate WellTypedCall(dest: Value, c: Call) {
    && IsFunctionPointer(c.callee.ty)
    && Pointee(c.callee) == c.fnTy
    && dest.ty == c.fnTy.ret
    && |c.fnTy.params| <= |c.args|
    && (!c.fnTy.varArg ==> |c.args| == |c.fnTy.params|)
    && forall i :: 0 <= i < |c.fnTy.params| ==> c.args[i].ty == c.fnTy.params[i]
  }

  predicate WellTyped(inst: Instruction) {
    match inst
    case CallSite(dest, call) => WellTypedCall(dest, call) && dest.Base?
    case CastInst(cast) => cast.PointerCast? && cast.ty.Ptr? && cast.of.ty.Ptr?
    case Other(dest, _) => dest.Base?
  }

  /** What the source's checked casts and parameter accesses demand of a call through a cast. */
  predicate Convertible(c: Call) {
    c.callee != Strip(c.callee) ==>
      && IsFunctionPointer(Strip(c.callee).ty)
      && (ShouldRecast(c) ==> |c.args| == |Pointee(c.callee).params|)
  }

  predicate Ready(code: seq<Instruction>) {
    forall i :: 0 <= i < |code| ==> WellTyped(code[i]) && (code[i].CallSite? ==> Convertible(code[i].call))
  }

  predicate AllWellTyped(code: seq<Instruction>) {
    forall i :: 0 <= i < |code| ==> WellTyped(code[i])
  }

  // ----- the compatibility check -----

  /** The two function types differ at most in which pointers they take. */
  predicate PointerCompatible(a: Type, b: Type)
    requires a.Fn? && b.Fn?
  {
    && a.ret == b.ret && a.varArg == b.varArg && |a.params| == |b.params|
    && forall i :: 0 <= i < |a.params| ==> a.params[i] == b.params[i] || (a.params[i].Ptr? && b.params[i].Ptr?)
  }

  /** A type up to what a pointer points to. */
  function Erased(ty: Type): Type { if ty.Ptr? then Ptr(Void) else ty }

  function ErasedFn(ty: Type): Type
    requires ty.Fn?
  {
    Fn(ty.ret, seq(|ty.params|, i requires 0 <= i < |ty.params| => Erased(ty.params[i])), ty.varArg)
  }

  /** Compatible types are those that cannot be told apart once pointers are erased from the parameters. */
  lemma {:induction false} CompatibleIffErased(a: Type, b: Type)
    requires a.Fn? && b.Fn?
    ensures PointerCompatible(a, b) <==> ErasedFn(a) == ErasedFn(b)
  {
    var x, y := ErasedFn(a).params, ErasedFn(b).params;
    if x == y {
      forall i | 0 <= i < |a.params| ensures a.params[i] == b.params[i] || (a.params[i].Ptr? && b.params[i].Ptr?) {
        assert x[i] == Erased(a.params[i]) && y[i] == Erased(b.params[i]);
      }
    }
  }

  method CastCallWithPointerCasts(calledTy: Type, uncastedTy: Type) returns (ok: bool)
    requires calledTy.Fn? && uncastedTy.Fn?
    ensures ok <==> PointerCompatible(calledTy, uncastedTy)
  {
    if calledTy.ret != uncastedTy.ret {
      return false;
    }
    if |calledTy.params| != |uncastedTy.params| {
      return false;
    }
    if calledTy.varArg != uncastedTy.varArg {
      return false;
    }
    for i := 0 to |calledTy.params|
      invariant forall j :: 0 <= j < i ==>
        calledTy.params[j] == uncastedTy.params[j] || (calledTy.params[j].Ptr? && uncastedTy.params[j].Ptr?)
    {
      if calledTy.params[i] != uncastedTy.params[i] {
        if !calledTy.params[i].Ptr? || !uncastedTy.params[i].Ptr? {
          return false;
        }
      }
    }
    return true;
  }

  // ----- the rewriting -----

  predicate ShouldRecast(c: Call) {
    var u := Strip(c.callee);
    && c.callee != u
    && IsFunctionPointer(c.callee.ty) && IsFunctionPointer(u.ty)
    && PointerCompatible(Pointee(c.callee), Pointee(u))
  }

  predicate NeedsCast(arg: Value, ty: Type) { arg.ty.Ptr? && arg.ty != ty }

  function RecastArg(arg: Value, ty: Type): Value {
    if NeedsCast(arg, ty) then PointerCast(arg, ty) else arg
  }

  function RecastArgs(args: seq<Value>, params: seq<Type>): (r: seq<Value>)
    requires |args| == |params|
    ensures |r| == |args|
  {
    seq(|args|, i requires 0 <= i < |args| => RecastArg(args[i], params[i]))
  }

  /** The casts inserted before the call, in argument order. */
  function NewCasts(args: seq<Value>, params: seq<Type>): seq<Instruction>
    requires |args| == |params|
  {
    if args == [] then []
    else
      var n := |args| - 1;
      NewCasts(args[..n], params[..n]) + if NeedsCast(args[n], params[n]) then [CastInst(PointerCast(args[n], params[n]))] else []
  }

  function RecastInst(inst: Instruction): seq<Instruction> {
    if inst.CallSite? && ShouldRecast(inst.call) && |inst.call.args| == |Pointee(Strip(inst.call.callee)).params| then
      var fnTy := Pointee(Strip(inst.call.callee));
      NewCasts(inst.call.args, fnTy.params)
      + [CallSite(inst.dest, Call(Strip(inst.call.callee), fnTy, RecastArgs(inst.call.args, fnTy.params)))]
    else [inst]
  }

  function Recast(code: seq<Instruction>): seq<Instruction> {
    if code == [] then [] else RecastInst(code[0]) + Recast(code[1..])
  }

  /** A function body: the pass changes its instruction list in place. */
  class Body {
    var code: seq<Instruction>

    constructor (code: seq<Instruction>)
      ensures this.code == code
    {
      this.code := code;
    }

    method RecastArguments(args: seq<Value>, params: seq<Type>) returns (newArgs: seq<Value>, casts: seq<Instruction>)
      requires |args| == |params|
      ensures newArgs == RecastArgs(args, params)
      ensures casts == NewCasts(args, params)
    {
      newArgs, casts := args, [];
      for i := 0 to |args|
        invariant |newArgs| == |args|
        invariant forall j :: 0 <= j < i ==> newArgs[j] == RecastArg(args[j], params[j])
        invariant forall j :: i <= j < |args| ==> newArgs[j] == args[j]
        invariant casts == NewCasts(args[..i], params[..i])
      {
        var arg := newArgs[i];
        assert args[..i + 1][..i] == args[..i] && params[..i + 1][..i] == params[..i];
        if arg.ty.Ptr? && arg.ty != params[i] {
          var cast := PointerCast(arg, params[i]);
          casts := casts + [CastInst(cast)];
          newArgs := newArgs[i := cast];
        }
      }
      assert args[..|args|] == args && params[..|args|] == params;
    }

    method RecastOne(inst: Instruction) returns (out: seq<Instruction>)
      requires WellTyped(inst) && (inst.CallSite? ==> Convertible(inst.call))
      ensures out == RecastInst(inst)
    {
      if !inst.CallSite? {
        return [inst];
      }
      var called := inst.call.callee;
      var uncasted := Strip(called);
      if called == uncasted {
        return [inst];
      }
      var ok := CastCallWithPointerCasts(Pointee(called), Pointee(uncasted));
      if !ok {
        return [inst];
      }
      var args, casts := RecastArguments(inst.call.args, Pointee(uncasted).params);
      return casts + [CallSite(inst.dest, Call(uncasted, Pointee(uncasted), args))];
    }

    method RecastCalls()
      requires Ready(code)
      modifies this
      ensures code == Recast(old(code))
    {
      hide RecastInst;
      var done, next := [], 0;
      var it := code;
      while next < |it|
        invariant next <= |it|
        invariant done + Recast(it[next..]) == Recast(it)
      {
        assert it[next..][1..] == it[next + 1..];
        var out := RecastOne(it[next]);
        done := done + out;
        next := next + 1;
      }
      code := done;
    }
  }

  // ----- every call stays well typed -----

  lemma {:induction false} NewCastsTyped(args: seq<Value>, params: seq<Type>)
    requires |args| == |params| && forall i :: 0 <= i < |args| && NeedsCast(args[i], params[i]) ==> params[i].Ptr?
    ensures AllWellTyped(NewCasts(args, params))
  {
    if args != [] {
      var n := |args| - 1;
      NewCastsTyped(args[..n], params[..n]);
    }
  }

  /** What a recast call looks like: direct, and well typed against the stripped callee. */
  lemma {:induction false} RecastCallTyped(dest: Value, c: Call)
    requires WellTypedCall(dest, c) && ShouldRecast(c) && |c.args| == |c.fnTy.params| && dest.Base?
    ensures AllWellTyped(RecastInst(CallSite(dest, c)))
  {
    var fnTy := Pointee(Strip(c.callee));
    NewCastsTyped(c.args, fnTy.params);
  }

  lemma {:induction false} RecastWellTyped(code: seq<Instruction>)
    requires Ready(code)
    ensures AllWellTyped(Recast(code))
  {
    if code != [] {
      RecastWellTyped(code[1..]);
      if code[0].CallSite? && ShouldRecast(code[0].call) {
        RecastCallTyped(code[0].dest, code[0].call);
      }
    }
  }

  // ----- calls correspond one to one -----

  function CallOf(inst: Instruction): seq<Instruction> { if inst.CallSite? then [inst] else [] }

  function Calls(code: seq<Instruction>): seq<Instruction> {
    if code == [] then [] else CallOf(code[0]) + Calls(code[1..])
  }

  lemma {:induction false} CallsConcat(x: seq<Instruction>, y: seq<Instruction>)
    ensures Calls(x + y) == Calls(x) + Calls(y)
  {
    if x == [] {
      assert x + y == y;
    } else {
      hide CallOf;
      assert (x + y)[1..] == x[1..] + y;
      CallsConcat(x[1..], y);
      assert Calls(x + y) == CallOf(x[0]) + (Calls(x[1..]) + Calls(y));
    }
  }

  lemma {:induction false} NewCastsNoCalls(args: seq<Value>, params: seq<Type>)
    requires |args| == |params|
    ensures Calls(NewCasts(args, params)) == []
  {
    if args != [] {
      var n := |args| - 1;
      NewCastsNoCalls(args[..n], params[..n]);
      CallsConcat(NewCasts(args[..n], params[..n]), if NeedsCast(args[n], params[n]) then [CastInst(PointerCast(args[n], params[n]))] else []);
    }
  }

  /** The argument is passed on, at most through one more pointer cast. */
  predicate SameButCast(before: Value, after: Value) {
    after == before || (after.PointerCast? && after.of == before && before.ty.Ptr? && after.ty.Ptr?)
  }

  /** What may happen to a call: nothing, exactly when it is direct or fails the check; otherwise it becomes direct. */
  predicate Corresponds(before: Instruction, after: Instruction)
    requires before.CallSite?
  {
    if !ShouldRecast(before.call) then after == before
    else
      && after.CallSite? && after.dest == before.dest
      && after.call.callee == Strip(before.call.callee)
      && |after.call.args| == |before.call.args|
      && forall i :: 0 <= i < |before.call.args| ==> SameButCast(before.call.args[i], after.call.args[i])
  }

  lemma {:induction false} RecastInstCall(inst: Instruction)
    requires WellTyped(inst) && (inst.CallSite? ==> Convertible(inst.call))
    ensures inst.CallSite? ==> |Calls(RecastInst(inst))| == 1 && Corresponds(inst, Calls(RecastInst(inst))[0])
    ensures !inst.CallSite? ==> Calls(RecastInst(inst)) == []
  {
    assert Calls([inst]) == if inst.CallSite? then [inst] else [];
    if inst.CallSite? && ShouldRecast(inst.call) {
      var fnTy := Pointee(Strip(inst.call.callee));
      var after := CallSite(inst.dest, Call(Strip(inst.call.callee), fnTy, RecastArgs(inst.call.args, fnTy.params)));
      var casts := NewCasts(inst.call.args, fnTy.params);
      CallsConcat(casts, [after]);
      NewCastsNoCalls(inst.call.args, fnTy.params);
      assert Calls([after]) == [after];
    }
  }

  lemma {:induction false} CallsCorrespond(code: seq<Instruction>)
    requires Ready(code)
    ensures |Calls(Recast(code))| == |Calls(code)|
    ensures forall k :: 0 <= k < |Calls(code)| ==>
      Calls(code)[k].CallSite? && Corresponds(Calls(code)[k], Calls(Recast(code))[k])
  {
    hide RecastInst, Corresponds;
    if code != [] {
      CallsCorrespond(code[1..]);
      RecastInstCall(code[0]);
      CallsConcat(RecastInst(code[0]), Recast(code[1..]));
      assert Calls(Recast(code)) == Calls(RecastInst(code[0])) + Calls(Recast(code[1..]));
      assert Calls(code) == CallOf(code[0]) + Calls(code[1..]);
    }
  }

  // ----- the run is the same -----

  /** What a run shows: which function is called with which values, and the other instructions. */
  datatype Event = Called(callee: Value, result: Value, args: seq<Value>) | Did(dest: Value, uses: set<Value>)

  function StripAll(args: seq<Value>): (r: seq<Value>) {
    seq(|args|, i requires 0 <= i < |args| => Strip(args[i]))
  }

  function EventsOf(inst: Instruction): seq<Event> {
    match inst
    case CallSite(dest, c) => [Called(Strip(c.callee), dest, StripAll(c.args))]
    case CastInst(_) => []
    case Other(dest, uses) => [Did(dest, set v <- uses :: Strip(v))]
  }

  function Run(code: seq<Instruction>): seq<Event> {
    if code == [] then [] else EventsOf(code[0]) + Run(code[1..])
  }

  lemma {:induction false} RunConcat(x: seq<Instruction>, y: seq<Instruction>)
    ensures Run(x + y) == Run(x) + Run(y)
  {
    if x == [] {
      assert x + y == y;
    } else {
      assert (x + y)[1..] == x[1..] + y;
      RunConcat(x[1..], y);
    }
  }

  lemma {:induction false} NewCastsSilent(args: seq<Value>, params: seq<Type>)
    requires |args| == |params|
    ensures Run(NewCasts(args, params)) == []
  {
    if args != [] {
      var n := |args| - 1;
      NewCastsSilent(args[..n], params[..n]);
      RunConcat(NewCasts(args[..n], params[..n]), if NeedsCast(args[n], params[n]) then [CastInst(PointerCast(args[n], params[n]))] else []);
    }
  }

  lemma {:induction false} RecastArgsStripped(args: seq<Value>, params: seq<Type>)
    requires |args| == |params|
    ensures StripAll(RecastArgs(args, params)) == StripAll(args)
  {
    forall i | 0 <= i < |args| ensures StripAll(RecastArgs(args, params))[i] == Strip(args[i]) {
      assert RecastArgs(args, params)[i] == RecastArg(args[i], params[i]);
    }
  }

  lemma {:induction false} RecastInstRun(inst: Instruction)
    ensures Run(RecastInst(inst)) == EventsOf(inst)
  {
    assert Run([inst]) == EventsOf(inst);
    if RecastInst(inst) != [inst] {
      var fnTy := Pointee(Strip(inst.call.callee));
      var args := RecastArgs(inst.call.args, fnTy.params);
      var after := CallSite(inst.dest, Call(Strip(inst.call.callee), fnTy, args));
      RunConcat(NewCasts(inst.call.args, fnTy.params), [after]);
      NewCastsSilent(inst.call.args, fnTy.params);
      assert Run([after]) == EventsOf(after);
      RecastArgsStripped(inst.call.args, fnTy.params);
    }
  }

  /** The rewritten body calls the same functions with the same values in the same order. */
  lemma {:induction false} RecastPreservesRun(code: seq<Instruction>)
    ensures Run(Recast(code)) == Run(code)
  {
    if code != [] {
      RecastPreservesRun(code[1..]);
      RecastInstRun(code[0]);
      RunConcat(RecastInst(code[0]), Recast(code[1..]));
    }
  }

  // ----- definitions still come before uses -----

  function Operands(inst: Instruction): set<Value> {
    match inst
    case CallSite(_, c) => (set v <- c.args) + {c.callee}
    case CastInst(cast) => if cast.PointerCast? then {cast.of} else {}
    case Other(_, uses) => uses
  }

  function Result(inst: Instruction): Value {
    match inst case CallSite(dest, _) => dest case CastInst(cast) => cast case Other(dest, _) => dest
  }

  /** Straight-line scoping: each operand is known before the instruction that uses it. */
  predicate Scoped(code: seq<Instruction>, known: set<Value>) {
    code == [] || (Operands(code[0]) <= known && Scoped(code[1..], known + {Result(code[0])}))
  }

  /** The operand of a known cast is known. */
  ghost predicate Closed(known: set<Value>) {
    forall v :: v in known && v.PointerCast? ==> v.of in known
  }

  lemma {:induction false} StripKnown(v: Value, known: set<Value>)
    requires Closed(known) && v in known
    ensures Strip(v) in known
  {
    if v.PointerCast? {
      StripKnown(v.of, known);
    }
  }

  function Results(code: seq<Instruction>): set<Value> {
    if code == [] then {} else {Result(code[0])} + Results(code[1..])
  }

  lemma {:induction false} ScopedConcat(x: seq<Instruction>, y: seq<Instruction>, known: set<Value>)
    requires Scoped(x, known) && Scoped(y, known + Results(x))
    ensures Scoped(x + y, known)
    ensures Results(x + y) == Results(x) + Results(y)
  {
    if x == [] {
      assert x + y == y;
      assert known + Results(x) == known;
    } else {
      assert (x + y)[1..] == x[1..] + y;
      assert known + {Result(x[0])} + Results(x[1..]) == known + Results(x);
      ScopedConcat(x[1..], y, known + {Result(x[0])});
    }
  }

  lemma {:induction false} NewCastsScoped(args: seq<Value>, params: seq<Type>, known: set<Value>)
    requires |args| == |params| && forall i :: 0 <= i < |args| ==> args[i] in known
    ensures Scoped(NewCasts(args, params), known)
    ensures forall v :: v in Results(NewCasts(args, params)) && v.PointerCast? ==> v.of in known
    ensures forall i :: 0 <= i < |args| && NeedsCast(args[i], params[i]) ==> PointerCast(args[i], params[i]) in Results(NewCasts(args, params))
  {
    if args != [] {
      var n := |args| - 1;
      var before := NewCasts(args[..n], params[..n]);
      NewCastsScoped(args[..n], params[..n], known);
      if NeedsCast(args[n], params[n]) {
        var last := [CastInst(PointerCast(args[n], params[n]))];
        assert Results(last[1..]) == {} && Scoped(last[1..], known + Results(before) + {Result(last[0])});
        ScopedConcat(before, last, known);
      } else {
        assert before + [] == before;
      }
    }
  }

  lemma {:induction false} RecastInstScoped(inst: Instruction, known: set<Value>)
    requires Closed(known) && Operands(inst) <= known && WellTyped(inst)
    ensures Scoped(RecastInst(inst), known)
    ensures Closed(known + Results(RecastInst(inst))) && Result(inst) in Results(RecastInst(inst))
  {
    if RecastInst(inst) == [inst] {
      assert [inst][1..] == [];
    } else {
      var fnTy := Pointee(Strip(inst.call.callee));
      var args := RecastArgs(inst.call.args, fnTy.params);
      var casts := NewCasts(inst.call.args, fnTy.params);
      var after := [CallSite(inst.dest, Call(Strip(inst.call.callee), fnTy, args))];
      NewCastsScoped(inst.call.args, fnTy.params, known);
      StripKnown(inst.call.callee, known);
      assert after[1..] == [];
      ScopedConcat(casts, after, known);
    }
  }

  lemma {:induction false} RecastScoped(code: seq<Instruction>, known: set<Value>, more: set<Value>)
    requires AllWellTyped(code) && Scoped(code, known) && known <= more && Closed(more)
    ensures Scoped(Recast(code), more)
  {
    if code != [] {
      RecastInstScoped(code[0], more);
      RecastScoped(code[1..], known + {Result(code[0])}, more + Results(RecastInst(code[0])));
      ScopedConcat(RecastInst(code[0]), Recast(code[1..]), more);
    }
  }

  // ----- a second pass changes nothing -----

  lemma {:induction false} RecastConcat(x: seq<Instruction>, y: seq<Instruction>)
    ensures Recast(x + y) == Recast(x) + Recast(y)
  {
    if x == [] {
      assert x + y == y;
    } else {
      assert (x + y)[1..] == x[1..] + y;
      RecastConcat(x[1..], y);
    }
  }

  lemma {:induction false} StableRecast(code: seq<Instruction>)
    requires forall i :: 0 <= i < |code| ==> RecastInst(code[i]) == [code[i]]
    ensures Recast(code) == code
  {
    if code != [] {
      StableRecast(code[1..]);
    }
  }

  lemma {:induction false} NewCastsAreCasts(args: seq<Value>, params: seq<Type>)
    requires |args| == |params|
    ensures forall i :: 0 <= i < |NewCasts(args, params)| ==> NewCasts(args, params)[i].CastInst?
  {
    if args != [] {
      var n := |args| - 1;
      NewCastsAreCasts(args[..n], params[..n]);
    }
  }

  lemma {:induction false} RecastInstStable(inst: Instruction)
    ensures Recast(RecastInst(inst)) == RecastInst(inst)
  {
    if RecastInst(inst) == [inst] {
      StableRecast([inst]);
    } else {
      NewCastsAreCasts(inst.call.args, Pointee(Strip(inst.call.callee)).params);
      StableRecast(RecastInst(inst));
    }
  }

  lemma {:induction false} RecastIdempotent(code: seq<Instruction>)
    ensures Recast(Recast(code)) == Recast(code)
  {
    if code != [] {
      RecastInstStable(code[0]);
      RecastIdempotent(code[1..]);
      RecastConcat(RecastInst(code[0]), Recast(code[1..]));
    }
  }
}
