/**
 The run-time specialiser: from a function's layout and a context, the layout of the wrapper, the
 operands of the wrapper's inner call, and the attributes of its parameters.
 */
module Specialiser {
  import opened Wrappers
  import opened DataLayout
  import opened Bytes
  import opened StructImage
  import opened StructConstants
  import Jit = JitContext

  datatype HighLevelArg = HighLevelArg(position: nat, firstParamIdx: nat, types: seq<Type>, structByPointer: bool)

  const DEFAULT_ARG := HighLevelArg(0, 0, [], false)

  datatype HighLevelLayout = HighLevelLayout(structReturn: Option<Type>, args: seq<HighLevelArg>, ret: Type) {
    function Hidden(): nat { if structReturn.Some? then 1 else 0 }
  }

  /** The number of IR parameters taken by the first `i` arguments. */
  function SizeBefore(args: seq<HighLevelArg>, i: nat): nat
    requires i <= |args|
  {
    if i == 0 then 0 else SizeBefore(args, i - 1) + |args[i - 1].types|
  }

  function TypesBefore(args: seq<HighLevelArg>, i: nat): (types: seq<Type>)
    requires i <= |args|
    ensures |types| == SizeBefore(args, i)
  {
    if i == 0 then [] else TypesBefore(args, i - 1) + args[i - 1].types
  }

  /** The IR parameter list that a layout describes. */
  function ParamsOf(hll: HighLevelLayout): seq<Type> {
    (if hll.structReturn.Some? then [hll.structReturn.value] else []) + TypesBefore(hll.args, |hll.args|)
  }

  /** The layout of an actual function: arguments in order, parameter indices counted from the hidden one. */
  predicate WellFormed(hll: HighLevelLayout) {
    && (forall i {:trigger hll.args[i].position} :: 0 <= i < |hll.args| ==> hll.args[i].position == i)
    && (forall i {:trigger hll.args[i].firstParamIdx} :: 0 <= i < |hll.args| ==>
          hll.args[i].firstParamIdx == hll.Hidden() + SizeBefore(hll.args, i))
  }

  // ----- the wrapper's layout -----

  predicate IsForward(c: seq<Jit.Argument>, k: nat, i: nat) {
    i < |c| && c[i] == Jit.Forward(k)
  }

  predicate IsFirstForward(c: seq<Jit.Argument>, k: nat, i: nat) {
    IsForward(c, k, i) && forall j :: 0 <= j < i ==> c[j] != Jit.Forward(k)
  }

  ghost predicate Forwards(c: seq<Jit.Argument>, k: nat) {
    Jit.Forward(k) in c
  }

  /** One more than the largest forwarded index. */
  function NewArgCount(c: seq<Jit.Argument>): nat {
    if c == [] then 0
    else
      var n := NewArgCount(c[..|c| - 1]);
      match c[|c| - 1]
      case Forward(k) => if k + 1 > n then k + 1 else n
      case _ => n
  }

  lemma {:induction false} ForwardBelowCount(c: seq<Jit.Argument>, k: nat)
    requires Forwards(c, k)
    ensures k < NewArgCount(c)
  {
    var last := |c| - 1;
    if c[last] != Jit.Forward(k) {
      assert Jit.Forward(k) in c[..last];
      ForwardBelowCount(c[..last], k);
    }
  }

  /** No index below the count is left out. */
  ghost predicate GapFree(c: seq<Jit.Argument>) {
    forall k: nat :: k < NewArgCount(c) ==> Forwards(c, k)
  }

  ghost predicate OnceUsed(c: seq<Jit.Argument>) {
    forall i, j :: 0 <= i < j < |c| && c[i].Forward? ==> c[i] != c[j]
  }

  /** Equal but for the parameter index. */
  predicate SameArg(a: HighLevelArg, b: HighLevelArg) {
    a.position == b.position && a.types == b.types && a.structByPointer == b.structByPointer
  }

  /** What the new layout is: argument k describes the first parameter forwarded from k. */
  ghost predicate IsNewLayout(c: seq<Jit.Argument>, hll: HighLevelLayout, w: HighLevelLayout) {
    && |c| == |hll.args|
    && w.structReturn == hll.structReturn && w.ret == hll.ret
    && |w.args| == NewArgCount(c)
    && (forall k, i: nat :: 0 <= k < |w.args| && IsFirstForward(c, k, i) ==>
          SameArg(w.args[k], hll.args[i]))
    && (forall k :: 0 <= k < |w.args| && !Forwards(c, k) ==>
          SameArg(w.args[k], DEFAULT_ARG))
    && ParamIdxSet(w.args, |w.args|)
  }

  /** The first `n` arguments have their parameter index. */
  ghost predicate ParamIdxSet(args: seq<HighLevelArg>, n: nat)
    requires n <= |args|
  {
    forall k {:trigger args[k].firstParamIdx} :: 0 <= k < n ==> args[k].firstParamIdx == SizeBefore(args, k)
  }

  /** Sizes do not depend on parameter indices. */
  lemma {:induction false} SizeBeforeIgnoresIdx(a: seq<HighLevelArg>, b: seq<HighLevelArg>, i: nat)
    requires i <= |a| == |b| && forall k :: 0 <= k < |a| ==> a[k].types == b[k].types
    ensures SizeBefore(a, i) == SizeBefore(b, i)
  {
    if i > 0 {
      SizeBeforeIgnoresIdx(a, b, i - 1);
    }
  }

  /** The wrapper argument of a first use describes the parameter it came from. */
  lemma {:induction false} NewLayoutArg(c: seq<Jit.Argument>, hll: HighLevelLayout, w: HighLevelLayout, k: nat, i: nat)
    requires IsNewLayout(c, hll, w) && IsFirstForward(c, k, i)
    ensures |c| == |hll.args| && |w.args| == NewArgCount(c)
    ensures k < |w.args| && SameArg(w.args[k], hll.args[i])
  {
    assert c[i] in c;
    ForwardBelowCount(c, k);
  }

  method CountNewArgs(c: seq<Jit.Argument>) returns (n: nat)
    ensures n == NewArgCount(c)
  {
    n := 0;
    for i := 0 to |c|
      invariant n == NewArgCount(c[..i])
    {
      if c[i].Forward? {
        n := if c[i].index + 1 > n then c[i].index + 1 else n;
      }
      assert c[..i + 1][..i] == c[..i];
    }
    assert c[..|c|] == c;
  }

  /** The slots filled after the first `i` arguments: first uses filled, the rest still default. */
  ghost predicate SlotsFilled(c: seq<Jit.Argument>, hll: HighLevelLayout, args: seq<HighLevelArg>, i: nat)
    requires i <= |c| == |hll.args|
  {
    && |args| == NewArgCount(c)
    && (forall k, j: nat :: 0 <= k < |args| && j < i && IsFirstForward(c, k, j) ==> args[k] == hll.args[j])
    && (forall k :: 0 <= k < |args| && !Forwards(c[..i], k) ==> args[k] == DEFAULT_ARG)
  }

  lemma {:induction false} SlotStep(c: seq<Jit.Argument>, hll: HighLevelLayout, args: seq<HighLevelArg>, visited: set<nat>, i: nat)
    requires i < |c| == |hll.args| && SlotsFilled(c, hll, args, i)
    requires forall k :: k in visited <==> Forwards(c[..i], k)
    ensures c[i].Forward? ==> c[i].index < |args|
    ensures !c[i].Forward? ==> SlotsFilled(c, hll, args, i + 1)
    ensures c[i].Forward? && c[i].index in visited ==> SlotsFilled(c, hll, args, i + 1)
    ensures c[i].Forward? && c[i].index !in visited ==> SlotsFilled(c, hll, args[c[i].index := hll.args[i]], i + 1)
    ensures forall k: nat :: Forwards(c[..i + 1], k) <==> Forwards(c[..i], k) || c[i] == Jit.Forward(k)
  {
    assert c[..i + 1] == c[..i] + [c[i]];
    if c[i].Forward? {
      ForwardBelowCount(c, c[i].index);
      forall k, j: nat | 0 <= k < |args| && j < i && IsFirstForward(c, k, j) ensures k in visited {
        assert c[..i][j] == c[j];
      }
      assert c[i].index in visited ==> !IsFirstForward(c, c[i].index, i) by {
        if c[i].index in visited {
          var j :| 0 <= j < |c[..i]| && c[..i][j] == c[i];
          assert c[j] == c[i];
        }
      }
    }
  }

  /** Copies each forwarded parameter to the slot of its placeholder; later uses of a placeholder are skipped. */
  method FillSlots(c: seq<Jit.Argument>, hll: HighLevelLayout, n: nat) returns (args: seq<HighLevelArg>)
    requires |c| == |hll.args| && n == NewArgCount(c)
    ensures SlotsFilled(c, hll, args, |c|)
  {
    args := seq(n, _ => DEFAULT_ARG);
    var visited: set<nat> := {};
    for arg := 0 to |c|
      invariant SlotsFilled(c, hll, args, arg)
      invariant forall k :: k in visited <==> Forwards(c[..arg], k)
    {
      SlotStep(c, hll, args, visited, arg);
      if c[arg].Forward? {
        if c[arg].index !in visited {
          args := args[c[arg].index := hll.args[arg]];
        }
        visited := visited + {c[arg].index};
      }
    }
  }

  /** Sets the parameter indices once all sizes are known. */
  method SetParamIdx(filled: seq<HighLevelArg>) returns (args: seq<HighLevelArg>)
    ensures |args| == |filled| && ParamIdxSet(args, |args|)
    ensures forall j :: 0 <= j < |args| ==> SameArg(args[j], filled[j])
  {
    args := filled;
    var paramIdx := 0;
    for k := 0 to |filled|
      invariant |args| == |filled| && paramIdx == SizeBefore(filled, k)
      invariant forall j {:trigger args[j].firstParamIdx} :: 0 <= j < k ==> args[j].firstParamIdx == SizeBefore(filled, j)
      invariant forall j :: 0 <= j < |args| ==> SameArg(args[j], filled[j])
    {
      args := args[k := args[k].(firstParamIdx := paramIdx)];
      paramIdx := paramIdx + |args[k].types|;
    }
    forall j | 0 <= j < |args| ensures args[j].firstParamIdx == SizeBefore(args, j) {
      SizeBeforeIgnoresIdx(filled, args, j);
    }
  }

  /** The layout of the wrapper: only forwarded parameters are kept, in the order of their placeholders. */
  method GetNewLayout(c: seq<Jit.Argument>, hll: HighLevelLayout) returns (w: HighLevelLayout)
    requires |c| == |hll.args|
    ensures IsNewLayout(c, hll, w)
  {
    var n := CountNewArgs(c);
    var filled := FillSlots(c, hll, n);
    var args := SetParamIdx(filled);
    assert c[..|c|] == c;
    w := HighLevelLayout(hll.structReturn, args, hll.ret);
  }

  method GetWrapperTy(hll: HighLevelLayout) returns (ty: Type)
    ensures ty == Fn(hll.ret, ParamsOf(hll), false)
  {
    var params := if hll.structReturn.Some? then [hll.structReturn.value] else [];
    ghost var hidden := params;
    for i := 0 to |hll.args|
      invariant params == hidden + TypesBefore(hll.args, i)
    {
      params := params + hll.args[i].types;
    }
    ty := Fn(hll.ret, params, false);
  }

  // ----- the operands of the inner call -----

  datatype Operand =
    | Param(index: nat)                             // a parameter of the wrapper
    | IntConst(ty: Type, bits: nat)
    | FloatConst(ty: Type, bits: nat)
    | AddressConst(ty: Type, addr: nat)
    | LinkedVariable(name: string, ty: Type)
    | LinkedFunction(name: string, ty: Type)
    | FieldConst(ty: Type, value: Constant)
    | StructGlobal(ty: Type, value: Constant)
    | EntryFunction(name: string, ty: Type)

  /**
   What the pass looks up outside the context: the name registered at an address, the type of the address if
   it is that of a function, and the entry of each composed module. A variable is cast to the expected
   type, a function keeps its own.
   */
  datatype LinkEnv = LinkEnv(names: Registry, functionTypes: map<nat, Type>, entries: map<nat, (string, Type)>)

  function PointerOperand(addr: nat, ty: Type, env: LinkEnv): Operand {
    if addr in env.names then
      if addr in env.functionTypes then LinkedFunction(env.names[addr], env.functionTypes[addr]) else LinkedVariable(env.names[addr], ty)
    else AddressConst(ty, addr)
  }

  /** Raw bytes consumed by the first `i` field types. */
  function RawBefore(types: seq<Type>, i: nat): nat
    requires i <= |types|
  {
    if i == 0 then 0 else RawBefore(types, i - 1) + LeafSize(types[i - 1])
  }

  function FieldOperands(data: seq<Byte>, types: seq<Type>, i: nat): (ops: seq<Operand>)
    requires i <= |types| && RawBefore(types, i) <= |data|
    ensures |ops| == i
  {
    if i == 0 then []
    else FieldOperands(data, types, i - 1) +
         [FieldConst(types[i - 1], GetConstantFromRaw(types[i - 1], data, RawBefore(types, i - 1)).0)]
  }

  /** The constant global for a struct that is passed by pointer. */
  function GlobalConstant(ty: Type, data: seq<Byte>, names: Registry): Constant
    requires Fits(data, 0, LayoutShape(ty)) && Matches(Read(data, 0, LayoutShape(ty)), ty)
  {
    var v := Read(data, 0, LayoutShape(ty));
    LinkedConstant(ty, v, names)
  }

  /** The bound arguments that a parameter can take: what the compile-time checks and the layout guarantee. */
  predicate Fitting(a: Jit.Argument, p: HighLevelArg, env: LinkEnv) {
    match a
    case Forward(_) => true
    case Int(_) => |p.types| == 1 && p.types[0].Int?
    case Float(_) => |p.types| == 1 && (p.types[0].Float? || p.types[0].Double?)
    case Ptr(_) => |p.types| == 1 && p.types[0].Ptr?
    case Struct(data) =>
      if p.structByPointer then
        && |p.types| == 1 && p.types[0].Ptr? && Supported(p.types[0].to)
        && Fits(data, 0, LayoutShape(p.types[0].to)) && Matches(Read(data, 0, LayoutShape(p.types[0].to)), p.types[0].to)
      else
        && (forall i :: 0 <= i < |p.types| ==> SupportedLeaf(p.types[i]))
        && RawBefore(p.types, |p.types|) <= |data|
    case Module(h) => |p.types| == 1 && h in env.entries
  }

  /** The operands that stand for a bound argument. */
  function BoundOperands(a: Jit.Argument, p: HighLevelArg, env: LinkEnv): (ops: seq<Operand>)
    requires !a.Forward? && Fitting(a, p, env)
    ensures |ops| == |p.types|
    ensures forall j :: 0 <= j < |ops| ==> !ops[j].Param?
  {
    match a
    case Int(v) => [IntConst(p.types[0], Jit.ConstantBits(v, p.types[0].width))]
    case Float(b) => [FloatConst(p.types[0], b)]
    case Ptr(addr) => [PointerOperand(addr, p.types[0], env)]
    case Struct(data) =>
      if p.structByPointer then [StructGlobal(p.types[0], GlobalConstant(p.types[0].to, data, env.names))]
      else FieldOperandsAreConstants(data, p.types, |p.types|); FieldOperands(data, p.types, |p.types|)
    case Module(h) => [EntryFunction(env.entries[h].0, env.entries[h].1)]
  }

  lemma {:induction false} FieldOperandsAreConstants(data: seq<Byte>, types: seq<Type>, i: nat)
    requires i <= |types| && RawBefore(types, i) <= |data|
    ensures forall j :: 0 <= j < i ==> FieldOperands(data, types, i)[j].FieldConst? && FieldOperands(data, types, i)[j].ty == types[j]
  {
    if i > 0 {
      FieldOperandsAreConstants(data, types, i - 1);
    }
  }

  lemma {:induction false} FieldOperandAt(data: seq<Byte>, types: seq<Type>, n: nat, i: nat)
    requires i < n <= |types| && RawBefore(types, n) <= |data|
    ensures RawBefore(types, i) + LeafSize(types[i]) <= |data|
    ensures FieldOperands(data, types, n)[i] == FieldConst(types[i], GetConstantFromRaw(types[i], data, RawBefore(types, i)).0)
  {
    hide GetConstantFromRaw;
    if i < n - 1 {
      FieldOperandAt(data, types, n - 1, i);
    }
  }

  /** One field of a struct passed by value: the bytes just after those of the fields before it. */
  ghost predicate DenotesField(op: Operand, data: seq<Byte>, types: seq<Type>, j: nat)
    requires j < |types|
  {
    var at, n := RawBefore(types, j), LeafSize(types[j]);
    at + n <= |data| && op == FieldConst(types[j], Scalar(types[j], FromLittleEndian(data[at..at + n])))
  }

  /** What the operands for a bound argument must be, for each kind of argument. */
  ghost predicate Denotes(ops: seq<Operand>, a: Jit.Argument, p: HighLevelArg, env: LinkEnv) {
    && |ops| == |p.types|
    && match a
       case Forward(_) => false
       case Int(v) =>
         && |ops| == 1 && ops[0].IntConst? && ops[0].ty == p.types[0] && p.types[0].Int?
         && ops[0].bits < Pow2(p.types[0].width) && ops[0].bits == v % Pow2(p.types[0].width)
       case Float(b) => |ops| == 1 && ops[0] == FloatConst(p.types[0], b)
       case Ptr(addr) =>
         && |ops| == 1
         && (addr !in env.names ==> ops[0] == AddressConst(p.types[0], addr))
         && (addr in env.names && addr in env.functionTypes ==> ops[0] == LinkedFunction(env.names[addr], env.functionTypes[addr]))
         && (addr in env.names && addr !in env.functionTypes ==> ops[0] == LinkedVariable(env.names[addr], p.types[0]))
       case Struct(data) =>
         if p.structByPointer then
           && |ops| == 1 && ops[0].StructGlobal? && ops[0].ty == p.types[0] && p.types[0].Ptr?
           && Fits(data, 0, LayoutShape(p.types[0].to))
           && IsConstantOf(ops[0].value, p.types[0].to, Read(data, 0, LayoutShape(p.types[0].to)), env.names)
         else forall j :: 0 <= j < |ops| ==> DenotesField(ops[j], data, p.types, j)
       case Module(h) => |ops| == 1 && h in env.entries && ops[0] == EntryFunction(env.entries[h].0, env.entries[h].1)
  }

  lemma {:induction false} FieldsDenote(data: seq<Byte>, types: seq<Type>, j: nat)
    requires j < |types| && RawBefore(types, |types|) <= |data| && SupportedLeaf(types[j])
    ensures DenotesField(FieldOperands(data, types, |types|)[j], data, types, j)
  {
    hide FieldOperands, FromLittleEndian;
    FieldOperandAt(data, types, |types|, j);
  }

  lemma {:induction false} BoundDenotes(a: Jit.Argument, p: HighLevelArg, env: LinkEnv)
    requires !a.Forward? && Fitting(a, p, env)
    ensures Denotes(BoundOperands(a, p, env), a, p, env)
  {
    hide FieldOperands, DenotesField, IsConstantOf, LinkedConstant;
    match a
    case Struct(data) =>
      if p.structByPointer {
        LinkedIsConstantOf(p.types[0].to, Read(data, 0, LayoutShape(p.types[0].to)), env.names);
      } else {
        forall j | 0 <= j < |p.types| ensures DenotesField(FieldOperands(data, p.types, |p.types|)[j], data, p.types, j) {
          FieldsDenote(data, p.types, j);
        }
      }
    case _ =>
  }

  /** Wrapper argument `k` is the first whose position is `pos`. */
  predicate IsAtPosition(args: seq<HighLevelArg>, pos: nat, k: nat) {
    k < |args| && args[k].position == pos && forall j :: 0 <= j < k ==> args[j].position != pos
  }

  function ParamRange(first: nat, n: nat): (ops: seq<Operand>)
    ensures |ops| == n && forall j :: 0 <= j < n ==> ops[j] == Param(first + j)
  {
    seq(n, j requires 0 <= j < n => Param(first + j))
  }

  /** The wrapper's parameters that carry the argument; none when no wrapper argument has its position. */
  method GetForwardArgs(argInF: HighLevelArg, fhll: HighLevelLayout, whll: HighLevelLayout) returns (ops: Option<seq<Operand>>)
    ensures ops == None <==> forall k :: 0 <= k < |whll.args| ==> whll.args[k].position != argInF.position
    ensures forall k: nat :: IsAtPosition(whll.args, argInF.position, k) ==>
              ops == Some(ParamRange(whll.args[k].firstParamIdx + fhll.Hidden(), |argInF.types|))
  {
    var k := 0;
    while k < |whll.args| && whll.args[k].position != argInF.position
      invariant k <= |whll.args|
      invariant forall j :: 0 <= j < k ==> whll.args[j].position != argInF.position
    {
      k := k + 1;
    }
    if k == |whll.args| {
      return None;
    }
    var params: seq<Operand> := [];
    for j := 0 to |argInF.types|
      invariant params == ParamRange(whll.args[k].firstParamIdx + fhll.Hidden(), j)
    {
      params := params + [Param(whll.args[k].firstParamIdx + j + fhll.Hidden())];
    }
    return Some(params);
  }

  /** The wrapper's parameters for a forwarded argument; none when its placeholder stands for an earlier argument. */
  function ForwardOperands(c: seq<Jit.Argument>, hidden: nat, wargs: seq<HighLevelArg>, i: nat, n: nat): Option<seq<Operand>>
    requires i < |c| && c[i].Forward? && |wargs| == NewArgCount(c)
  {
    var k := c[i].index;
    ForwardInRange(c, k, i);
    if IsFirstForward(c, k, i) then Some(ParamRange(hidden + SizeBefore(wargs, k), n)) else None
  }

  function ArgOperands(c: seq<Jit.Argument>, fhll: HighLevelLayout, whll: HighLevelLayout, env: LinkEnv, i: nat): Option<seq<Operand>>
    requires i < |c| == |fhll.args| && Fitting(c[i], fhll.args[i], env)
    requires |whll.args| == NewArgCount(c)
  {
    if c[i].Forward? then ForwardOperands(c, fhll.Hidden(), whll.args, i, |fhll.args[i].types|)
    else Some(BoundOperands(c[i], fhll.args[i], env))
  }

  lemma {:induction false} ForwardInRange(c: seq<Jit.Argument>, k: nat, i: nat)
    requires IsForward(c, k, i)
    ensures k < NewArgCount(c)
  {
    assert c[i] in c;
    ForwardBelowCount(c, k);
  }

  ghost predicate AllFitting(c: seq<Jit.Argument>, fhll: HighLevelLayout, env: LinkEnv) {
    |c| == |fhll.args| && forall i :: 0 <= i < |c| ==> Fitting(c[i], fhll.args[i], env)
  }

  /** The operands of the hidden parameter and of the first `i` arguments. */
  function InlineUpTo(c: seq<Jit.Argument>, fhll: HighLevelLayout, whll: HighLevelLayout, env: LinkEnv, i: nat): Option<seq<Operand>>
    requires i <= |c| == |fhll.args| && forall j :: 0 <= j < |c| ==> Fitting(c[j], fhll.args[j], env)
    requires |whll.args| == NewArgCount(c)
  {
    if i == 0 then Some(if fhll.structReturn.Some? then [Param(0)] else [])
    else
      match (InlineUpTo(c, fhll, whll, env, i - 1), ArgOperands(c, fhll, whll, env, i - 1))
      case (Some(before), Some(ops)) => Some(before + ops)
      case _ => None
  }

  /** Gap-free: wrapper argument k sits at the position of the first use of k, and only there. */
  lemma {:induction false} PositionOfForward(c: seq<Jit.Argument>, fhll: HighLevelLayout, whll: HighLevelLayout, k: nat)
    requires IsNewLayout(c, fhll, whll) && WellFormed(fhll) && GapFree(c) && k < |whll.args|
    ensures IsFirstForward(c, k, whll.args[k].position)
  {
    assert Forwards(c, k);
    var i := FirstForwardExists(c, k);
    assert SameArg(whll.args[k], fhll.args[i]);
    assert fhll.args[i].position == i;
  }

  lemma {:induction false} FirstForwardExists(c: seq<Jit.Argument>, k: nat) returns (i: nat)
    requires Forwards(c, k)
    ensures IsFirstForward(c, k, i)
  {
    i := 0;
    while c[i] != Jit.Forward(k)
      invariant i < |c| && forall j :: 0 <= j < i ==> c[j] != Jit.Forward(k)
      decreases |c| - i
    {
      if i + 1 == |c| {
        assert forall j :: 0 <= j < |c| ==> c[j] != Jit.Forward(k);
      }
      i := i + 1;
    }
  }

  /** The search by position finds the wrapper argument exactly for first uses. */
  lemma {:induction false} SearchFindsFirstUse(c: seq<Jit.Argument>, fhll: HighLevelLayout, whll: HighLevelLayout, k: nat, i: nat)
    requires IsNewLayout(c, fhll, whll) && WellFormed(fhll) && GapFree(c) && IsForward(c, k, i)
    ensures k < |whll.args|
    ensures IsFirstForward(c, k, i) ==> IsAtPosition(whll.args, i, k)
    ensures !IsFirstForward(c, k, i) ==> forall j :: 0 <= j < |whll.args| ==> whll.args[j].position != i
  {
    ForwardInRange(c, k, i);
    forall j | 0 <= j < |whll.args| ensures IsFirstForward(c, j, whll.args[j].position) {
      PositionOfForward(c, fhll, whll, j);
    }
    if IsFirstForward(c, k, i) {
      var p := whll.args[k].position;
      assert IsFirstForward(c, k, p);
      assert p == i;
    }
  }

  /** Every forwarded argument is found by its position, at the right parameter, exactly when it is a first use. */
  ghost predicate Searchable(c: seq<Jit.Argument>, wargs: seq<HighLevelArg>) {
    && |wargs| == NewArgCount(c)
    && forall k: nat, i: nat :: IsForward(c, k, i) ==>
         && k < |wargs|
         && (IsFirstForward(c, k, i) ==> IsAtPosition(wargs, i, k) && wargs[k].firstParamIdx == SizeBefore(wargs, k))
         && (!IsFirstForward(c, k, i) ==> forall j :: 0 <= j < |wargs| ==> wargs[j].position != i)
  }

  lemma {:induction false} NewLayoutSearchable(c: seq<Jit.Argument>, fhll: HighLevelLayout, whll: HighLevelLayout)
    requires IsNewLayout(c, fhll, whll) && WellFormed(fhll) && GapFree(c)
    ensures Searchable(c, whll.args)
  {
    forall k: nat, i: nat | IsForward(c, k, i)
      ensures k < |whll.args|
      ensures IsFirstForward(c, k, i) ==> IsAtPosition(whll.args, i, k) && whll.args[k].firstParamIdx == SizeBefore(whll.args, k)
      ensures !IsFirstForward(c, k, i) ==> forall j :: 0 <= j < |whll.args| ==> whll.args[j].position != i
    {
      SearchFindsFirstUse(c, fhll, whll, k, i);
    }
  }

  /** Where the operands of argument `i` start in the inner call. */
  function OperandStart(fhll: HighLevelLayout, i: nat): nat
    requires i <= |fhll.args|
  {
    fhll.Hidden() + SizeBefore(fhll.args, i)
  }

  /** Argument `i`, if it is bound, is passed where the original expects it. */
  ghost predicate BoundAt(ops: seq<Operand>, c: seq<Jit.Argument>, fhll: HighLevelLayout, env: LinkEnv, i: nat)
    requires i < |c| == |fhll.args|
  {
    var at, n := OperandStart(fhll, i), |fhll.args[i].types|;
    !c[i].Forward? ==> at + n <= |ops| && Denotes(ops[at..at + n], c[i], fhll.args[i], env)
  }

  /** Every bound argument is passed where the original expects it, and nothing else is passed. */
  ghost predicate BoundInPlace(ops: seq<Operand>, c: seq<Jit.Argument>, fhll: HighLevelLayout, env: LinkEnv) {
    && |c| == |fhll.args| && |ops| == OperandStart(fhll, |c|)
    && (fhll.structReturn.Some? ==> |ops| > 0 && ops[0] == Param(0))
    && forall i :: 0 <= i < |c| ==> BoundAt(ops, c, fhll, env, i)
  }

  lemma {:induction false} InlineLength(c: seq<Jit.Argument>, fhll: HighLevelLayout, whll: HighLevelLayout, env: LinkEnv, i: nat)
    requires AllFitting(c, fhll, env) && |whll.args| == NewArgCount(c) && i <= |c|
    requires InlineUpTo(c, fhll, whll, env, i).Some?
    ensures |InlineUpTo(c, fhll, whll, env, i).value| == OperandStart(fhll, i)
    ensures fhll.structReturn.Some? ==> InlineUpTo(c, fhll, whll, env, i).value[0] == Param(0)
  {
    hide Fitting, BoundOperands;
    if i > 0 {
      InlineLength(c, fhll, whll, env, i - 1);
    }
  }

  /** The operands of argument `j` keep their place. */
  lemma {:induction false} InlineSlice(c: seq<Jit.Argument>, fhll: HighLevelLayout, whll: HighLevelLayout, env: LinkEnv, i: nat, j: nat)
    requires AllFitting(c, fhll, env) && |whll.args| == NewArgCount(c) && j < i <= |c|
    requires InlineUpTo(c, fhll, whll, env, i).Some?
    ensures ArgOperands(c, fhll, whll, env, j).Some?
    ensures var ops, at := InlineUpTo(c, fhll, whll, env, i).value, OperandStart(fhll, j);
      && at + |fhll.args[j].types| <= |ops|
      && ops[at..at + |fhll.args[j].types|] == ArgOperands(c, fhll, whll, env, j).value
  {
    hide Fitting, BoundOperands;
    InlineLength(c, fhll, whll, env, i - 1);
    InlineLength(c, fhll, whll, env, i);
    if j < i - 1 {
      InlineSlice(c, fhll, whll, env, i - 1, j);
    }
  }

  lemma {:induction false} InlineBound(c: seq<Jit.Argument>, fhll: HighLevelLayout, whll: HighLevelLayout, env: LinkEnv)
    requires AllFitting(c, fhll, env) && |whll.args| == NewArgCount(c)
    requires InlineUpTo(c, fhll, whll, env, |c|).Some?
    ensures BoundInPlace(InlineUpTo(c, fhll, whll, env, |c|).value, c, fhll, env)
  {
    hide Fitting, BoundOperands, Denotes;
    InlineLength(c, fhll, whll, env, |c|);
    forall i | 0 <= i < |c| ensures BoundAt(InlineUpTo(c, fhll, whll, env, |c|).value, c, fhll, env, i) {
      InlineSlice(c, fhll, whll, env, |c|, i);
      if !c[i].Forward? {
        BoundDenotes(c[i], fhll.args[i], env);
      }
    }
  }

  /** Builds the operands argument by argument. */
  method GetInlineArgs(c: seq<Jit.Argument>, fhll: HighLevelLayout, whll: HighLevelLayout, env: LinkEnv)
    returns (args: Option<seq<Operand>>)
    requires AllFitting(c, fhll, env) && WellFormed(fhll) && GapFree(c) && IsNewLayout(c, fhll, whll)
    ensures args == InlineUpTo(c, fhll, whll, env, |c|)
    ensures args.Some? ==> BoundInPlace(args.value, c, fhll, env)
  {
    NewLayoutSearchable(c, fhll, whll);
    args := InlineAll(c, fhll, whll, env);
    if args.Some? {
      InlineBound(c, fhll, whll, env);
    }
  }

  method InlineAll(c: seq<Jit.Argument>, fhll: HighLevelLayout, whll: HighLevelLayout, env: LinkEnv)
    returns (args: Option<seq<Operand>>)
    requires AllFitting(c, fhll, env) && Searchable(c, whll.args)
    requires forall i {:trigger fhll.args[i].position} :: 0 <= i < |fhll.args| ==> fhll.args[i].position == i
    ensures args == InlineUpTo(c, fhll, whll, env, |c|)
  {
    hide Fitting, BoundOperands;
    var ops: seq<Operand> := if fhll.structReturn.Some? then [Param(0)] else [];
    for i := 0 to |c|
      invariant InlineUpTo(c, fhll, whll, env, i) == Some(ops)
    {
      var more;
      if c[i].Forward? {
        more := ForwardArg(c, fhll, whll, i);
      } else {
        var bound := GetBoundArg(c[i], fhll.args[i], env);
        more := Some(bound);
      }
      if more == None {
        NoneStays(c, fhll, whll, env, i + 1, |c|);
        return None;
      }
      ops := ops + more.value;
    }
    return Some(ops);
  }

  method ForwardArg(c: seq<Jit.Argument>, fhll: HighLevelLayout, whll: HighLevelLayout, i: nat) returns (ops: Option<seq<Operand>>)
    requires Searchable(c, whll.args) && i < |c| == |fhll.args| && c[i].Forward? && fhll.args[i].position == i
    ensures ops == ForwardOperands(c, fhll.Hidden(), whll.args, i, |fhll.args[i].types|)
  {
    ops := GetForwardArgs(fhll.args[i], fhll, whll);
    assert IsForward(c, c[i].index, i);
  }

  lemma {:induction false} NoneStays(c: seq<Jit.Argument>, fhll: HighLevelLayout, whll: HighLevelLayout, env: LinkEnv, i: nat, j: nat)
    requires AllFitting(c, fhll, env) && |whll.args| == NewArgCount(c) && i <= j <= |c|
    requires InlineUpTo(c, fhll, whll, env, i) == None
    ensures InlineUpTo(c, fhll, whll, env, j) == None
  {
    hide Fitting, BoundOperands;
    if i < j {
      NoneStays(c, fhll, whll, env, i, j - 1);
    }
  }

  /** The cases of the switch for bound arguments. */
  method GetBoundArg(a: Jit.Argument, p: HighLevelArg, env: LinkEnv) returns (ops: seq<Operand>)
    requires !a.Forward? && Fitting(a, p, env)
    ensures ops == BoundOperands(a, p, env) && Denotes(ops, a, p, env)
  {
    BoundDenotes(a, p, env);
    hide Denotes;
    match a
    case Int(v) => ops := [IntConst(p.types[0], Jit.ConstantBits(v, p.types[0].width))];
    case Float(b) => ops := [FloatConst(p.types[0], b)];
    case Ptr(addr) =>
      var value := AddressConst(p.types[0], addr);
      if addr in env.names {
        value := PointerOperand(addr, p.types[0], env);
      }
      ops := [value];
    case Struct(data) =>
      if p.structByPointer {
        var g := BuildGlobal(p.types[0].to, data, env.names);
        ops := [StructGlobal(p.types[0], g)];
      } else {
        ops := ReadFields(data, p.types);
      }
    case Module(h) => ops := [EntryFunction(env.entries[h].0, env.entries[h].1)];
  }

  method BuildGlobal(ty: Type, data: seq<Byte>, names: Registry) returns (g: Constant)
    requires Supported(ty) && Fits(data, 0, LayoutShape(ty)) && Matches(Read(data, 0, LayoutShape(ty)), ty)
    ensures g == GlobalConstant(ty, data, names)
  {
    var builder := new GlobalStructBuilder(names);
    g := builder.GetGlobalStruct(ty, data);
  }

  /** A struct passed by value: one constant per field, read one after the other. */
  method ReadFields(data: seq<Byte>, types: seq<Type>) returns (ops: seq<Operand>)
    requires forall i :: 0 <= i < |types| ==> SupportedLeaf(types[i])
    requires RawBefore(types, |types|) <= |data|
    ensures ops == FieldOperands(data, types, |types|)
  {
    hide GetConstantFromRaw, Read;
    ops := [];
    var rawOffset := 0;
    for i := 0 to |types|
      invariant rawOffset == RawBefore(types, i) <= |data|
      invariant ops == FieldOperands(data, types, i)
    {
      RawBeforeMono(types, i + 1, |types|);
      var (value, rawSize) := GetConstantFromRaw(types[i], data, rawOffset);
      ops := ops + [FieldConst(types[i], value)];
      rawOffset := rawOffset + rawSize;
    }
  }

  lemma {:induction false} RawBeforeMono(types: seq<Type>, i: nat, j: nat)
    requires i <= j <= |types|
    ensures RawBefore(types, i) <= RawBefore(types, j)
  {
    if i < j {
      RawBeforeMono(types, i, j - 1);
    }
  }
}
