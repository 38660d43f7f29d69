/**
 The just-in-time context: how each argument given to `easy::jit` is recorded, the options, and the
 comparison and hash that make a context usable as a cache key.
 */
module JitContext {
  import opened Arithmetic
  import opened Bytes

  type Address = nat

  // ----- recorded arguments -----

  datatype Argument =
    | Forward(index: nat)
    | Int(value: int)
    | Float(bits: nat)          // the IEEE-754 pattern of a double
    | Ptr(addr: Address)
    | Struct(data: seq<Byte>)
    | Module(handle: nat)       // the identity of a compiled module

  const NEGATIVE_ZERO: nat := 0x8000_0000_0000_0000

  predicate IsZero(bits: nat) { bits == 0 || bits == NEGATIVE_ZERO }

  /** All exponent bits set and a non-zero fraction. */
  predicate IsNaN(bits: nat) {
    bits % NEGATIVE_ZERO > 0x7FF0_0000_0000_0000
  }

  /** In terms of the fields of the pattern: exponent all ones, fraction not zero, either sign. */
  lemma {:induction false} NaNPattern(bits: nat)
    requires bits < 2 * NEGATIVE_ZERO
    ensures IsNaN(bits) <==> bits / 0x10_0000_0000_0000 % 0x800 == 0x7FF && bits % 0x10_0000_0000_0000 != 0
  {
  }

  /** `==` on doubles: NaN differs from everything, the two zeros are equal. */
  predicate DoubleEquals(a: nat, b: nat) {
    !IsNaN(a) && !IsNaN(b) && (a == b || (IsZero(a) && IsZero(b)))
  }

  predicate ArgumentEquals(a: Argument, b: Argument) {
    match (a, b)
    case (Float(x), Float(y)) => DoubleEquals(x, y)
    case _ => a == b
  }

  datatype RawBytes = RawBytes(bytes: seq<Byte>, reservedRegs: seq<string>)

  datatype ContextValue = ContextValue(
    args: seq<Argument>, optLevel: nat, optSize: nat, debugFile: string, layout: seq<nat>, rawBytes: RawBytes)

  const DEFAULT_CONTEXT := ContextValue([], 2, 0, "", [], RawBytes([], []))

  /** Context comparison: opt levels and arguments only. */
  predicate ContextEquals(a: ContextValue, b: ContextValue) {
    && a.optLevel == b.optLevel && a.optSize == b.optSize
    && |a.args| == |b.args|
    && forall i :: 0 <= i < |a.args| ==> ArgumentEquals(a.args[i], b.args[i])
  }

  // ----- hashing -----

  type Hash = bv64

  /** The primitive hashes of the standard library. */
  datatype Hashers = Hashers(
    ofUnsigned: nat -> Hash, ofInt64: int -> Hash, ofDouble: nat -> Hash, ofPointer: Address -> Hash, ofModule: nat -> Hash)
  {
    /** `std::hash<double>` must agree on doubles that compare equal, hence on the two zeros. */
    ghost predicate Lawful() {
      ofDouble(0) == ofDouble(NEGATIVE_ZERO)
    }
  }

  function Xor(a: Hash, b: Hash): Hash { a ^ b }

  /** The accumulator loop `R = op(R, h(x))` over a list. */
  function Fold<T, H>(s: seq<T>, h: T -> H, op: (H, H) -> H, start: H): H {
    if s == [] then start else op(Fold(s[..|s| - 1], h, op, start), h(s[|s| - 1]))
  }

  function ArgumentHasher(hs: Hashers): Argument -> Hash {
    a => ArgumentHash(hs, a)
  }

  function CharHasher(hs: Hashers): Byte -> Hash {
    (c: Byte) => hs.ofInt64(SignedChar(c))
  }

  function ArgumentHash(hs: Hashers, a: Argument): Hash {
    match a
    case Forward(i) => hs.ofUnsigned(i)
    case Int(v) => hs.ofInt64(v)
    case Float(b) => hs.ofDouble(b)
    case Ptr(p) => hs.ofPointer(p)
    case Struct(data) => Fold(data, CharHasher(hs), Xor, 0)
    case Module(h) => hs.ofModule(h)
  }

  function SignedChar(c: Byte): int { if c < 128 then c else c - 256 }

  function ContextHash(hs: Hashers, c: ContextValue): Hash {
    Xor(Fold(c.args, ArgumentHasher(hs), Xor, 0), Xor(hs.ofUnsigned(c.optLevel), hs.ofUnsigned(c.optSize)))
  }

  lemma {:induction false} EqualArgumentsHashEqually(hs: Hashers, a: Argument, b: Argument)
    requires hs.Lawful() && ArgumentEquals(a, b)
    ensures ArgumentHash(hs, a) == ArgumentHash(hs, b)
  {
  }

  lemma {:induction false} EqualFolds<T, H>(s: seq<T>, t: seq<T>, h: T -> H, op: (H, H) -> H, start: H)
    requires |s| == |t| && forall i :: 0 <= i < |s| ==> h(s[i]) == h(t[i])
    ensures Fold(s, h, op, start) == Fold(t, h, op, start)
  {
    if s != [] {
      EqualFolds(s[..|s| - 1], t[..|t| - 1], h, op, start);
    }
  }

  /** Contexts that compare equal hash equally, signed zeros included. */
  lemma {:induction false} EqualContextsHashEqually(hs: Hashers, a: ContextValue, b: ContextValue)
    requires hs.Lawful() && ContextEquals(a, b)
    ensures ContextHash(hs, a) == ContextHash(hs, b)
  {
    var h := ArgumentHasher(hs);
    forall i | 0 <= i < |a.args| ensures h(a.args[i]) == h(b.args[i]) {
      EqualArgumentsHashEqually(hs, a.args[i], b.args[i]);
    }
    EqualFolds(a.args, b.args, h, Xor, 0);
  }

  ghost predicate OrderFree<H(!new)>(op: (H, H) -> H) {
    forall a, b, c :: op(op(a, b), c) == op(op(a, c), b)
  }

  lemma {:induction false} XorOrderFree()
    ensures OrderFree(Xor)
  {
    forall a, b, c ensures Xor(Xor(a, b), c) == Xor(Xor(a, c), b) {
      XorSwap(a, b, c);
    }
  }

  lemma {:induction false} XorSwap(a: Hash, b: Hash, c: Hash)
    ensures Xor(Xor(a, b), c) == Xor(Xor(a, c), b)
  {
    XorAssociative(a, b, c);
    XorAssociative(a, c, b);
    assert b ^ c == c ^ b;
  }

  lemma {:induction false} XorAssociative(a: Hash, b: Hash, c: Hash)
    ensures (a ^ b) ^ c == a ^ (b ^ c)
  {
  }

  /** Taking one element out and adding it at the end does not change the fold. */
  lemma {:induction false} FoldRemove<T, H(!new)>(s: seq<T>, k: nat, h: T -> H, op: (H, H) -> H, start: H)
    requires k < |s| && OrderFree(op)
    ensures Fold(s, h, op, start) == op(Fold(s[..k] + s[k + 1..], h, op, start), h(s[k]))
  {
    var last := |s| - 1;
    var rest := s[..k] + s[k + 1..];
    if k == last {
      assert rest == s[..last];
    } else {
      var init := s[..last];
      FoldRemove(init, k, h, op, start);
      assert rest[..|rest| - 1] == init[..k] + init[k + 1..];
    }
  }

  lemma {:induction false} RemoveOne<T>(s: seq<T>, k: nat)
    requires k < |s|
    ensures multiset(s[..k] + s[k + 1..]) == multiset(s) - multiset{s[k]}
  {
    assert s == s[..k] + [s[k]] + s[k + 1..];
  }

  /** The fold depends only on the multiset of what is folded. */
  lemma {:induction false} FoldOfMultiset<T, H(!new)>(s: seq<T>, t: seq<T>, h: T -> H, op: (H, H) -> H, start: H)
    requires multiset(s) == multiset(t) && OrderFree(op)
    ensures Fold(s, h, op, start) == Fold(t, h, op, start)
  {
    assert |s| == |multiset(s)| == |multiset(t)| == |t|;
    if s != [] {
      var last := |s| - 1;
      assert s[last] in multiset(t);
      var k :| 0 <= k < |t| && t[k] == s[last];
      RemoveOne(t, k);
      RemoveOne(s, last);
      assert s[..last] + s[last + 1..] == s[..last];
      FoldOfMultiset(s[..last], t[..k] + t[k + 1..], h, op, start);
      FoldRemove(t, k, h, op, start);
    }
  }

  /** A context's hash ignores the order of its arguments, and everything but them and the opt levels. */
  lemma {:induction false} HashIgnoresOrder(hs: Hashers, a: ContextValue, b: ContextValue)
    requires multiset(a.args) == multiset(b.args) && a.optLevel == b.optLevel && a.optSize == b.optSize
    ensures ContextHash(hs, a) == ContextHash(hs, b)
  {
    XorOrderFree();
    FoldOfMultiset(a.args, b.args, ArgumentHasher(hs), Xor, 0);
  }

  /** Context comparison is symmetric and transitive; it is reflexive exactly for contexts without NaN. */
  lemma {:induction false} ContextEqualsIsPartialEquivalence(a: ContextValue, b: ContextValue, c: ContextValue)
    ensures ContextEquals(a, b) ==> ContextEquals(b, a)
    ensures ContextEquals(a, b) && ContextEquals(b, c) ==> ContextEquals(a, c)
    ensures ContextEquals(a, a) <==> !HasNaN(a)
  {
    if ContextEquals(a, b) && ContextEquals(b, c) {
      forall i | 0 <= i < |a.args| ensures ArgumentEquals(a.args[i], c.args[i]) {
        assert ArgumentEquals(a.args[i], b.args[i]) && ArgumentEquals(b.args[i], c.args[i]);
      }
    }
    if ContextEquals(a, a) {
      forall i | 0 <= i < |a.args| && a.args[i].Float? ensures !IsNaN(a.args[i].bits) {
        assert ArgumentEquals(a.args[i], a.args[i]);
      }
    }
  }

  predicate HasNaN(c: ContextValue) {
    exists i :: 0 <= i < |c.args| && c.args[i].Float? && IsNaN(c.args[i].bits)
  }

  predicate HasNegativeZero(c: ContextValue) {
    exists i :: 0 <= i < |c.args| && c.args[i] == Float(NEGATIVE_ZERO)
  }

  /** The same arguments are negative zeros. */
  predicate SameZeroSigns(a: ContextValue, b: ContextValue) {
    forall i :: 0 <= i < |a.args| && i < |b.args| ==> (a.args[i] == Float(NEGATIVE_ZERO) <==> b.args[i] == Float(NEGATIVE_ZERO))
  }

  /** Contexts that compare equal record the same arguments exactly when their zeros have the same signs. */
  lemma {:induction false} EqualContextsSameArguments(a: ContextValue, b: ContextValue)
    requires ContextEquals(a, b)
    ensures a.args == b.args <==> SameZeroSigns(a, b)
  {
    if SameZeroSigns(a, b) {
      forall i | 0 <= i < |a.args| ensures a.args[i] == b.args[i] {
        assert ArgumentEquals(a.args[i], b.args[i]);
      }
    }
  }

  // ----- what the caller passes -----

  datatype JitArg =
    | Placeholder(number: nat, spelling: nat)   // number 0 is not a placeholder; spelling is its cv/ref type
    | Wrapper(handle: nat)
    | Integer(value: int, asDouble: nat)        // with what it converts to as a floating-point parameter
    | Floating(bits: nat, asInteger: int)       // with what it converts to as an integral parameter
    | Pointer(addr: Address)
    | Object(data: seq<Byte>, addr: Address)
    | OptLevel(level: nat, size: nat)
    | DumpIr(file: string)

  datatype ParamType = Integral(width: nat, signed: bool) | FloatingPoint | PointerTo | Reference | Class

  function PlaceholderNumber(a: JitArg): nat { if a.Placeholder? then a.number else 0 }

  predicate IsPlaceholder(a: JitArg) { PlaceholderNumber(a) > 0 }

  predicate IsOption(a: JitArg) { a.OptLevel? || a.DumpIr? }

  /** The conversions that the overloads of `set_param` accept. */
  predicate Accepts(p: ParamType, a: JitArg) {
    IsPlaceholder(a) ||
    match a
    case Placeholder(_, _) => false
    case Wrapper(_) => p.PointerTo? || p.Reference?       // a function pointer or reference
    case Integer(_, _) | Floating(_, _) => p.FloatingPoint? || (p.Integral? && 0 < p.width <= 64)
    case Pointer(_) => p.PointerTo?
    case Object(_, _) => p.Reference? || p.Class?
    case _ => false
  }

  /** Conversion of an integer to a `width`-bit integral type. */
  function ToIntegral(v: int, width: nat, signed: bool): int {
    var m := v % Pow2(width);
    if signed && width > 0 && m >= Pow2(width - 1) then m - Pow2(width) else m
  }

  /** First converted to the parameter's type, then widened to a signed 64-bit integer. */
  function RecordInt(v: int, width: nat, signed: bool): Argument {
    Int(ToIntegral(ToIntegral(v, width, signed), 64, true))
  }

  function Record(p: ParamType, a: JitArg): Argument
    requires Accepts(p, a)
  {
    if IsPlaceholder(a) then Forward(a.number - 1)
    else
      match a
      case Wrapper(h) => Module(h)
      case Integer(v, d) => if p.FloatingPoint? then Float(d) else RecordInt(v, p.width, p.signed)
      case Floating(b, v) => if p.FloatingPoint? then Float(b) else RecordInt(v, p.width, p.signed)
      case Pointer(q) => Ptr(q)
      case Object(data, q) => if p.Reference? then Ptr(q) else Struct(data)
  }

  /** The values of a `width`-bit integral type. */
  predicate InType(v: int, width: nat, signed: bool) {
    0 < width && if signed then 0 - Pow2(width - 1) <= v < Pow2(width - 1) else 0 <= v < Pow2(width)
  }

  /** An integral argument: the value of the parameter's type that is congruent to it, as a signed 64-bit integer. */
  predicate RecordsInt(r: Argument, v: int, width: nat, signed: bool) {
    && r.Int? && 0 - Pow2(63) <= r.value < Pow2(63)
    && r.value % Pow2(width) == v % Pow2(width)
    && (width < 64 || signed ==> InType(r.value, width, signed))
    && (InType(v, width, signed) && v < Pow2(63) ==> r.value == v)
  }

  /** What a context must hold for an argument. */
  predicate Records(r: Argument, p: ParamType, a: JitArg) {
    match a
    case Placeholder(k, _) => k > 0 && r == Forward(k - 1)
    case Wrapper(h) => r == Module(h)
    case Integer(v, d) => if p.Integral? then RecordsInt(r, v, p.width, p.signed) else r == Float(d)
    case Floating(b, v) => if p.Integral? then RecordsInt(r, v, p.width, p.signed) else r == Float(b)
    case Pointer(q) => r == Ptr(q)
    case Object(data, q) => r == if p.Reference? then Ptr(q) else Struct(data)
    case OptLevel(_, _) | DumpIr(_) => false
  }

  function ApplyOption(c: ContextValue, a: JitArg): ContextValue {
    match a
    case OptLevel(l, s) => c.(optLevel := l, optSize := s)
    case DumpIr(f) => c.(debugFile := f)
    case _ => c
  }

  function ApplyOptions(c: ContextValue, opts: seq<JitArg>): ContextValue
    decreases |opts|
  {
    if opts == [] then c else ApplyOptions(ApplyOption(c, opts[0]), opts[1..])
  }

  function Recorded(params: seq<ParamType>, args: seq<JitArg>): (r: seq<Argument>)
    requires |params| <= |args| && forall i :: 0 <= i < |params| ==> Accepts(params[i], args[i])
    ensures |r| == |params|
  {
    seq(|params|, i requires 0 <= i < |params| => Record(params[i], args[i]))
  }

  /** One argument per parameter, and then only options. */
  predicate ValidCall(params: seq<ParamType>, args: seq<JitArg>) {
    && |params| <= |args|
    && (forall i :: 0 <= i < |params| ==> Accepts(params[i], args[i]))
    && (forall i :: |params| <= i < |args| ==> IsOption(args[i]))
  }

  /** The context that a call builds. */
  function ContextFor(params: seq<ParamType>, args: seq<JitArg>): ContextValue
    requires ValidCall(params, args)
  {
    ApplyOptions(DEFAULT_CONTEXT.(args := Recorded(params, args)), args[|params|..])
  }

  /** Options change neither the arguments nor the raw bytes. */
  lemma {:induction false} OptionsKeep(c: ContextValue, opts: seq<JitArg>)
    ensures ApplyOptions(c, opts).args == c.args
    ensures ApplyOptions(c, opts).rawBytes == c.rawBytes && ApplyOptions(c, opts).layout == c.layout
    decreases |opts|
  {
    if opts != [] {
      OptionsKeep(ApplyOption(c, opts[0]), opts[1..]);
    }
  }

  /** The last option of each kind wins; without one the start value stays. */
  ghost predicate LastOptionWins(c: ContextValue, start: ContextValue, opts: seq<JitArg>) {
    && (forall i :: 0 <= i < |opts| && opts[i].OptLevel? && (forall j :: i < j < |opts| ==> !opts[j].OptLevel?) ==>
          c.optLevel == opts[i].level && c.optSize == opts[i].size)
    && ((forall i :: 0 <= i < |opts| ==> !opts[i].OptLevel?) ==> c.optLevel == start.optLevel && c.optSize == start.optSize)
    && (forall i :: 0 <= i < |opts| && opts[i].DumpIr? && (forall j :: i < j < |opts| ==> !opts[j].DumpIr?) ==>
          c.debugFile == opts[i].file)
    && ((forall i :: 0 <= i < |opts| ==> !opts[i].DumpIr?) ==> c.debugFile == start.debugFile)
  }

  lemma {:induction false} OptionsLastWins(c: ContextValue, opts: seq<JitArg>)
    ensures LastOptionWins(ApplyOptions(c, opts), c, opts)
    decreases |opts|
  {
    if opts != [] {
      var next, rest := ApplyOption(c, opts[0]), opts[1..];
      OptionsLastWins(next, rest);
      LastOptionStep(ApplyOptions(c, opts), c, next, opts, rest);
    }
  }

  lemma {:induction false} LastOptionStep(r: ContextValue, c: ContextValue, next: ContextValue, opts: seq<JitArg>, rest: seq<JitArg>)
    requires opts != [] && rest == opts[1..] && next == ApplyOption(c, opts[0]) && LastOptionWins(r, next, rest)
    ensures LastOptionWins(r, c, opts)
  {
    assert forall i :: 0 < i < |opts| ==> opts[i] == rest[i - 1];
    assert forall i :: 0 <= i < |rest| ==> rest[i] == opts[i + 1];
    forall i | 0 <= i < |opts| && opts[i].OptLevel? && (forall j :: i < j < |opts| ==> !opts[j].OptLevel?)
      ensures r.optLevel == opts[i].level && r.optSize == opts[i].size
    {
      if i > 0 {
        assert rest[i - 1].OptLevel? && forall j :: i - 1 < j < |rest| ==> !rest[j].OptLevel?;
      }
    }
    forall i | 0 <= i < |opts| && opts[i].DumpIr? && (forall j :: i < j < |opts| ==> !opts[j].DumpIr?)
      ensures r.debugFile == opts[i].file
    {
      if i > 0 {
        assert rest[i - 1].DumpIr? && forall j :: i - 1 < j < |rest| ==> !rest[j].DumpIr?;
      }
    }
  }

  class Context {
    var value: ContextValue

    constructor ()
      ensures value == DEFAULT_CONTEXT
    {
      value := DEFAULT_CONTEXT;
    }

    method SetArg(a: Argument)
      modifies this
      ensures value == old(value).(args := old(value).args + [a])
    {
      value := value.(args := value.args + [a]);
    }

    /** One argument per parameter, in order; whatever follows must be options. */
    method SetParameters(params: seq<ParamType>, args: seq<JitArg>)
      requires |params| <= |args|
      requires forall i :: 0 <= i < |params| ==> Accepts(params[i], args[i])
      requires forall i :: |params| <= i < |args| ==> IsOption(args[i])
      modifies this
      ensures value == ApplyOptions(old(value).(args := old(value).args + Recorded(params, args)), args[|params|..])
      ensures |value.args| == |old(value).args| + |params| && value.args[..|old(value).args|] == old(value).args
      ensures forall i :: 0 <= i < |params| ==> Records(value.args[|old(value).args| + i], params[i], args[i])
      ensures LastOptionWins(value, old(value), args[|params|..])
      decreases |params|
    {
      hide Records, LastOptionWins, Record, Accepts, ApplyOptions;
      if params == [] {
        SetOptions(args);
        assert old(value).args + [] == old(value).args;
        assert args[0..] == args;
      } else {
        SetArg(Record(params[0], args[0]));
        SetParameters(params[1..], args[1..]);
        assert Recorded(params, args) == [Record(params[0], args[0])] + Recorded(params[1..], args[1..]);
        assert old(value).args + Recorded(params, args)
            == (old(value).args + [Record(params[0], args[0])]) + Recorded(params[1..], args[1..]);
        assert args[1..][|params| - 1..] == args[|params|..];
      }
      ParametersRecorded(old(value), params, args);
    }

    method SetOptions(opts: seq<JitArg>)
      requires forall i :: 0 <= i < |opts| ==> IsOption(opts[i])
      modifies this
      ensures value == ApplyOptions(old(value), opts)
      ensures LastOptionWins(value, old(value), opts)
      decreases |opts|
    {
      if opts != [] {
        value := ApplyOption(value, opts[0]);
        SetOptions(opts[1..]);
      }
      OptionsLastWins(old(value), opts);
    }

    /** Walks both argument lists side by side. */
    method Equals(other: Context) returns (b: bool)
      ensures b <==> ContextEquals(value, other.value)
    {
      if (value.optLevel, value.optSize) != (other.value.optLevel, other.value.optSize) {
        return false;
      }
      if |value.args| != |other.value.args| {
        return false;
      }
      for i := 0 to |value.args|
        invariant forall k :: 0 <= k < i ==> ArgumentEquals(value.args[k], other.value.args[k])
      {
        if !ArgumentEquals(value.args[i], other.value.args[i]) {
          return false;
        }
      }
      return true;
    }

    method ComputeHash(hs: Hashers) returns (h: Hash)
      ensures h == ContextHash(hs, value)
    {
      h := 0;
      for i := 0 to |value.args|
        invariant h == Fold(value.args[..i], ArgumentHasher(hs), Xor, 0)
      {
        h := Xor(h, ArgumentHash(hs, value.args[i]));
        assert value.args[..i + 1][..i] == value.args[..i];
      }
      assert value.args[..|value.args|] == value.args;
      h := Xor(h, Xor(hs.ofUnsigned(value.optLevel), hs.ofUnsigned(value.optSize)));
    }
  }

  /** What the context holds after recording: the old arguments, a record of each new one, the last option of each kind. */
  lemma {:induction false} ParametersRecorded(c: ContextValue, params: seq<ParamType>, args: seq<JitArg>)
    requires ValidCall(params, args)
    ensures var r := ApplyOptions(c.(args := c.args + Recorded(params, args)), args[|params|..]);
      && |r.args| == |c.args| + |params| && r.args[..|c.args|] == c.args
      && (forall i :: 0 <= i < |params| ==> Records(r.args[|c.args| + i], params[i], args[i]))
      && LastOptionWins(r, c, args[|params|..])
  {
    var start := c.(args := c.args + Recorded(params, args));
    OptionsKeep(start, args[|params|..]);
    OptionsLastWins(start, args[|params|..]);
    hide Records;
    forall i | 0 <= i < |params| ensures Records(start.args[|c.args| + i], params[i], args[i]) {
      RecordRecords(params[i], args[i]);
    }
  }

  /** `get_context_for`: the recorded arguments and options; raw bytes are never set on this path. */
  method GetContextFor(params: seq<ParamType>, args: seq<JitArg>) returns (c: Context)
    requires ValidCall(params, args)
    ensures c.value == ContextFor(params, args)
    ensures c.value.args == Recorded(params, args) && c.value.rawBytes == DEFAULT_CONTEXT.rawBytes
    ensures forall i :: 0 <= i < |params| ==> Records(c.value.args[i], params[i], args[i])
    ensures LastOptionWins(c.value, ContextValue([], 2, 0, "", [], RawBytes([], [])), args[|params|..])
  {
    c := new Context();
    c.SetParameters(params, args);
    OptionsLastWins(DEFAULT_CONTEXT.(args := Recorded(params, args)), args[|params|..]);
    forall i | 0 <= i < |params| ensures Records(Recorded(params, args)[i], params[i], args[i]) {
      RecordRecords(params[i], args[i]);
    }
    assert [] + Recorded(params, args) == Recorded(params, args);
    OptionsKeep(DEFAULT_CONTEXT.(args := Recorded(params, args)), args[|params|..]);
  }

  // ----- integral parameters -----

  lemma {:induction false} Pow2Sum(a: nat, b: nat)
    ensures Pow2(a + b) == Pow2(a) * Pow2(b)
  {
    if a > 0 {
      Pow2Sum(a - 1, b);
      assert Pow2(a + b) == 2 * Pow2(a + b - 1) == 2 * (Pow2(a - 1) * Pow2(b)) == Pow2(a) * Pow2(b);
    }
  }

  lemma {:induction false} ModPlusMultiple(v: int, k: int, m: nat)
    requires m > 0
    ensures (v + k * m) % m == v % m
  {
    var q := v / m;
    assert v == q * m + v % m;
    Distribute(q, -k, m);
    assert v + k * m == (q + k) * m + v % m;
    UniqueDivision(v + k * m, q + k, v % m, m);
  }

  /** Converting to an integral type adds a multiple of two to the power of its width. */
  lemma {:induction false} ToIntegralShift(v: int, width: nat, signed: bool) returns (k: int)
    ensures ToIntegral(v, width, signed) == v + k * Pow2(width)
  {
    var p := Pow2(width);
    var q, m := v / p, v % p;
    assert v == q * p + m;
    Distribute(0, q, p);
    if ToIntegral(v, width, signed) == m {
      k := 0 - q;
    } else {
      k := 0 - q - 1;
      Distribute(0 - q, 1, p);
    }
  }

  /** Converting to an integral type keeps the low bits. */
  lemma {:induction false} ToIntegralKeepsBits(v: int, width: nat, signed: bool, low: nat)
    requires low <= width
    ensures ToIntegral(v, width, signed) % Pow2(low) == v % Pow2(low)
  {
    var k := ToIntegralShift(v, width, signed);
    Pow2Sum(width - low, low);
    Associate(k, Pow2(width - low), Pow2(low));
    ModPlusMultiple(v, k * Pow2(width - low), Pow2(low));
  }

  lemma {:induction false} Associate(a: int, b: int, c: int)
    ensures a * (b * c) == (a * b) * c
  {
  }

  /** The constant's bit pattern: the recorded 64-bit value truncated to the IR type. */
  function ConstantBits(value: int, width: nat): nat { value % Pow2(width) }

  /** Recording an integral argument and truncating it to its IR width gives the pattern of the converted argument. */
  lemma {:induction false} IntegralBitsSurvive(v: int, width: nat, signed: bool)
    requires 0 < width <= 64
    ensures ConstantBits(RecordInt(v, width, signed).value, width)
         == ToIntegral(v, width, signed) % Pow2(width) == v % Pow2(width)
  {
    ToIntegralKeepsBits(v, width, signed, width);
    ToIntegralKeepsBits(ToIntegral(v, width, signed), 64, true, width);
  }

  /** Read back at the parameter's type, the constant is the argument converted to that type. */
  lemma {:induction false} IntegralRoundTrip(v: int, width: nat, signed: bool)
    requires 0 < width <= 64
    ensures ToIntegral(ConstantBits(RecordInt(v, width, signed).value, width), width, signed) == ToIntegral(v, width, signed)
  {
    IntegralBitsSurvive(v, width, signed);
    var m := v % Pow2(width);
    UniqueDivision(m, 0, m, Pow2(width));
  }

  /** In particular a value in the range of the type is recovered. */
  lemma {:induction false} InRangeUnchanged(v: int, width: nat, signed: bool)
    requires 0 < width
    requires if signed then 0 - Pow2(width - 1) <= v < Pow2(width - 1) else 0 <= v < Pow2(width)
    ensures ToIntegral(v, width, signed) == v
  {
    var p := Pow2(width);
    if v >= 0 {
      UniqueDivision(v, 0, v, p);
    } else {
      UniqueDivision(v, -1, v + p, p);
    }
  }

  lemma {:induction false} Pow2Mono(a: nat, b: nat)
    requires a <= b
    ensures Pow2(a) <= Pow2(b)
  {
    if a < b {
      Pow2Mono(a, b - 1);
    }
  }

  lemma {:induction false} ToIntegralInType(v: int, width: nat, signed: bool)
    requires 0 < width
    ensures InType(ToIntegral(v, width, signed), width, signed)
  {
    assert Pow2(width) == 2 * Pow2(width - 1);
  }

  /** What the recorded value is: the converted argument, except for large unsigned 64-bit values. */
  lemma {:induction false} RecordIntValue(v: int, width: nat, signed: bool)
    requires 0 < width <= 64
    ensures 0 - Pow2(63) <= RecordInt(v, width, signed).value < Pow2(63)
    ensures width < 64 || signed || ToIntegral(v, width, signed) < Pow2(63) ==> RecordInt(v, width, signed).value == ToIntegral(v, width, signed)
  {
    var t := ToIntegral(v, width, signed);
    ToIntegralInType(v, width, signed);
    ToIntegralInType(t, 64, true);
    hide ToIntegral, Pow2;
    Pow2Mono(width - 1, 63);
    if width < 64 {
      Pow2Mono(width, 63);
    }
    if width < 64 || signed || t < Pow2(63) {
      InRangeUnchanged(t, 64, true);
    }
  }

  /** The conversion to the parameter's type followed by the widening does what it should. */
  lemma {:induction false} RecordIntRecords(v: int, width: nat, signed: bool)
    requires 0 < width <= 64
    ensures RecordsInt(RecordInt(v, width, signed), v, width, signed)
  {
    IntegralBitsSurvive(v, width, signed);
    RecordIntValue(v, width, signed);
    ToIntegralInType(v, width, signed);
    hide ToIntegral, Pow2;
    if InType(v, width, signed) {
      InRangeUnchanged(v, width, signed);
    }
  }

  lemma {:induction false} RecordRecords(p: ParamType, a: JitArg)
    requires Accepts(p, a)
    ensures Records(Record(p, a), p, a)
  {
    hide RecordsInt, RecordInt;
    match a
    case Integer(v, _) => if p.Integral? { RecordIntRecords(v, p.width, p.signed); }
    case Floating(_, v) => if p.Integral? { RecordIntRecords(v, p.width, p.signed); }
    case _ =>
  }

  /** The hash of a context is the XOR of the primitive hashes of what it holds. */
  lemma {:induction false} HashOfOne(hs: Hashers, c: ContextValue, a: Argument)
    ensures ContextHash(hs, c.(args := c.args + [a])) == Xor(ContextHash(hs, c), ArgumentHash(hs, a))
    ensures ArgumentHash(hs, a) ==
      match a
      case Forward(i) => hs.ofUnsigned(i)
      case Int(v) => hs.ofInt64(v)
      case Float(b) => hs.ofDouble(b)
      case Ptr(p) => hs.ofPointer(p)
      case Module(h) => hs.ofModule(h)
      case Struct(data) => if data == [] then 0 else Xor(ArgumentHash(hs, Struct(data[..|data| - 1])), hs.ofInt64(SignedChar(data[|data| - 1])))
  {
    assert (c.args + [a])[..|c.args|] == c.args;
    XorSwap(Fold(c.args, ArgumentHasher(hs), Xor, 0), ArgumentHash(hs, a), Xor(hs.ofUnsigned(c.optLevel), hs.ofUnsigned(c.optSize)));
  }

}
