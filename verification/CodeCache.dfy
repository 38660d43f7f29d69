/**
 The code cache. Its specification is a list of entries searched from the front; the class keeps the
 entries in hash buckets. A compilation that throws leaves an empty wrapper behind, as in the source.
 */
module CodeCache {
  import opened JitContext
  import opened Relations
  import opened Wrappers

  /** A call of `jit`: the key to cache under, and what to compile if the key is new. */
  datatype Request<+K> = Request(key: K, fun: Address, ctx: ContextValue)

  /** A cached wrapper; an empty one is what a failed compilation leaves. */
  datatype Entry<+K, +C> = Entry(key: K, wrapper: Option<C>)

  datatype Outcome<+C> = Returned(wrapper: Option<C>) | Threw

  /** Compilation is a deterministic function of the target, the arguments, the opt levels and the raw bytes; it may throw. */
  type Compiler<!C> = (Address, seq<Argument>, (nat, nat), RawBytes) -> Option<C>

  function Compile<K, C>(compile: Compiler<C>, r: Request<K>): Option<C> {
    compile(r.fun, r.ctx.args, (r.ctx.optLevel, r.ctx.optSize), r.ctx.rawBytes)
  }

  /** What the call would do without a cache. */
  function Direct<K, C>(compile: Compiler<C>, r: Request<K>): Outcome<C> {
    match Compile(compile, r) case Some(c) => Returned(Some(c)) case None => Threw
  }

  // ----- the specification: a list searched from the front -----

  function FindEntry<K, C>(entries: seq<Entry<K, C>>, key: K, eq: (K, K) -> bool): Option<Entry<K, C>> {
    if entries == [] then None
    else if eq(entries[0].key, key) then Some(entries[0])
    else FindEntry(entries[1..], key, eq)
  }

  function CallOutcome<K, C>(entries: seq<Entry<K, C>>, r: Request<K>, eq: (K, K) -> bool, compile: Compiler<C>): Outcome<C> {
    match FindEntry(entries, r.key, eq)
    case Some(e) => Returned(e.wrapper)
    case None => Direct(compile, r)
  }

  function CallEntries<K, C>(entries: seq<Entry<K, C>>, r: Request<K>, eq: (K, K) -> bool, compile: Compiler<C>): seq<Entry<K, C>> {
    match FindEntry(entries, r.key, eq)
    case Some(_) => entries
    case None => entries + [Entry(r.key, Compile(compile, r))]
  }

  /** The entries after a run of calls. */
  function RunEntries<K, C>(reqs: seq<Request<K>>, eq: (K, K) -> bool, compile: Compiler<C>): seq<Entry<K, C>> {
    if reqs == [] then []
    else CallEntries(RunEntries(reqs[..|reqs| - 1], eq, compile), reqs[|reqs| - 1], eq, compile)
  }

  // ----- what a run returns -----

  /** The first request of the run whose key equals `key`. */
  function FirstEqual<K>(reqs: seq<Request<K>>, key: K, eq: (K, K) -> bool): Option<Request<K>> {
    if reqs == [] then None
    else
      match FirstEqual(reqs[..|reqs| - 1], key, eq)
      case Some(q) => Some(q)
      case None => if eq(reqs[|reqs| - 1].key, key) then Some(reqs[|reqs| - 1]) else None
  }

  lemma {:induction false} FirstEqualFacts<K>(reqs: seq<Request<K>>, key: K, eq: (K, K) -> bool)
    ensures FirstEqual(reqs, key, eq).Some? <==> exists q :: q in reqs && eq(q.key, key)
    ensures FirstEqual(reqs, key, eq).Some? ==>
              FirstEqual(reqs, key, eq).value in reqs && eq(FirstEqual(reqs, key, eq).value.key, key)
  {
    if reqs != [] {
      var init, last := reqs[..|reqs| - 1], reqs[|reqs| - 1];
      FirstEqualFacts(init, key, eq);
      assert forall q :: q in reqs <==> q in init || q == last;
    }
  }

  lemma {:induction false} FindAppend<K, C>(entries: seq<Entry<K, C>>, e: Entry<K, C>, key: K, eq: (K, K) -> bool)
    ensures FindEntry(entries + [e], key, eq) ==
              match FindEntry(entries, key, eq) case Some(x) => Some(x) case None => if eq(e.key, key) then Some(e) else None
  {
    if entries == [] {
      assert (entries + [e])[1..] == [];
    } else {
      FindAppend(entries[1..], e, key, eq);
      assert (entries + [e])[1..] == entries[1..] + [e];
    }
  }

  /** A lookup after a run finds the entry that the first equal request created. */
  lemma {:induction false} LookupAfterRun<K(!new), C>(reqs: seq<Request<K>>, key: K, eq: (K, K) -> bool, compile: Compiler<C>)
    requires Transitive(eq)
    ensures FindEntry(RunEntries(reqs, eq, compile), key, eq) ==
              match FirstEqual(reqs, key, eq) case Some(q) => Some(Entry(q.key, Compile(compile, q))) case None => None
  {
    if reqs != [] {
      var init, last := reqs[..|reqs| - 1], reqs[|reqs| - 1];
      LookupAfterRun(init, key, eq, compile);
      LookupAfterRun(init, last.key, eq, compile);
      FindAppend(RunEntries(init, eq, compile), Entry(last.key, Compile(compile, last)), key, eq);
      if FirstEqual(init, last.key, eq).Some? && eq(last.key, key) {
        FirstEqualFacts(init, last.key, eq);
        FirstEqualFacts(init, key, eq);
        var q := FirstEqual(init, last.key, eq).value;
        assert eq(q.key, key);
      }
    }
  }

  /** In any run, a call returns what the first call with an equal key compiled; a call with a new key compiles directly. */
  lemma {:induction false} RunOutcome<K(!new), C>(reqs: seq<Request<K>>, r: Request<K>, eq: (K, K) -> bool, compile: Compiler<C>)
    requires Transitive(eq)
    ensures CallOutcome(RunEntries(reqs, eq, compile), r, eq, compile) ==
              match FirstEqual(reqs, r.key, eq) case Some(q) => Returned(Compile(compile, q)) case None => Direct(compile, r)
  {
    LookupAfterRun(reqs, r.key, eq, compile);
  }

  /** The lookup of `has`. */
  predicate Has<K, C>(entries: seq<Entry<K, C>>, key: K, eq: (K, K) -> bool) {
    FindEntry(entries, key, eq).Some?
  }

  /** A key is in the cache exactly when a call with an equal key was made earlier. */
  lemma {:induction false} HasIffUsed<K(!new), C>(reqs: seq<Request<K>>, key: K, eq: (K, K) -> bool, compile: Compiler<C>)
    requires Transitive(eq)
    ensures Has(RunEntries(reqs, eq, compile), key, eq) <==> exists q :: q in reqs && eq(q.key, key)
  {
    LookupAfterRun(reqs, key, eq, compile);
    FirstEqualFacts(reqs, key, eq);
  }

  /** The requests of a run that reach the compiler. */
  function Compiled<K, C>(reqs: seq<Request<K>>, eq: (K, K) -> bool, compile: Compiler<C>): seq<Request<K>> {
    if reqs == [] then []
    else
      var init, last := reqs[..|reqs| - 1], reqs[|reqs| - 1];
      if Has(RunEntries(init, eq, compile), last.key, eq) then Compiled(init, eq, compile)
      else Compiled(init, eq, compile) + [last]
  }

  /** No two compilations of a run have equal keys. */
  lemma {:induction false} CompiledOnce<K(!new), C>(reqs: seq<Request<K>>, eq: (K, K) -> bool, compile: Compiler<C>)
    requires Transitive(eq)
    ensures forall q :: q in Compiled(reqs, eq, compile) ==> q in reqs
    ensures forall i, j :: 0 <= i < j < |Compiled(reqs, eq, compile)| ==>
              !eq(Compiled(reqs, eq, compile)[i].key, Compiled(reqs, eq, compile)[j].key)
  {
    if reqs != [] {
      var init, last := reqs[..|reqs| - 1], reqs[|reqs| - 1];
      CompiledOnce(init, eq, compile);
      HasIffUsed(init, last.key, eq, compile);
    }
  }

  // ----- keys made of a function and a context -----

  type AutoKey = (Address, ContextValue)

  predicate AutoKeyEquals(a: AutoKey, b: AutoKey) {
    a.0 == b.0 && ContextEquals(a.1, b.1)
  }

  function AutoKeyHash(hs: Hashers, k: AutoKey): Hash {
    Xor(hs.ofPointer(k.0), ContextHash(hs, k.1))
  }

  /** A call of the automatic cache: its context is the key and is what gets compiled. */
  function CallRequest(fun: Address, params: seq<ParamType>, args: seq<JitArg>): Request<AutoKey>
    requires ValidCall(params, args)
  {
    Request((fun, ContextFor(params, args)), fun, ContextFor(params, args))
  }

  ghost predicate AutoKeyed(r: Request<AutoKey>) {
    exists params, args :: ValidCall(params, args) && r == CallRequest(r.fun, params, args)
  }

  /** Such a request never carries raw bytes. */
  lemma {:induction false} AutoKeyedFacts(r: Request<AutoKey>)
    requires AutoKeyed(r)
    ensures r.key == (r.fun, r.ctx) && r.ctx.rawBytes == DEFAULT_CONTEXT.rawBytes
  {
    var params, args :| ValidCall(params, args) && r == CallRequest(r.fun, params, args);
    OptionsKeep(DEFAULT_CONTEXT.(args := Recorded(params, args)), args[|params|..]);
  }

  lemma {:induction false} AutoKeyLaws(hs: Hashers)
    requires hs.Lawful()
    ensures Transitive(AutoKeyEquals)
    ensures forall a, b :: AutoKeyEquals(a, b) ==> AutoKeyHash(hs, a) == AutoKeyHash(hs, b)
  {
    forall a, b, c | AutoKeyEquals(a, b) && AutoKeyEquals(b, c) ensures AutoKeyEquals(a, c) {
      ContextEqualsIsPartialEquivalence(a.1, b.1, c.1);
    }
    forall a, b | AutoKeyEquals(a, b) ensures AutoKeyHash(hs, a) == AutoKeyHash(hs, b) {
      EqualContextsHashEqually(hs, a.1, b.1);
    }
  }

  lemma {:induction false} AutoKeyTransitive()
    ensures Transitive(AutoKeyEquals)
  {
    forall a, b, c | AutoKeyEquals(a, b) && AutoKeyEquals(b, c) ensures AutoKeyEquals(a, c) {
      ContextEqualsIsPartialEquivalence(a.1, b.1, c.1);
    }
  }

  /**
   Over any run of calls without negative zeros a cached call does what direct compilation would, with
   one exception: a call whose compilation throws, repeated, returns the empty wrapper left by the first
   attempt.
   */
  lemma {:induction false} CacheIsTransparent<C>(reqs: seq<Request<AutoKey>>, r: Request<AutoKey>, compile: Compiler<C>)
    requires forall q :: q in reqs + [r] ==> AutoKeyed(q) && !HasNegativeZero(q.ctx)
    ensures CallOutcome(RunEntries(reqs, AutoKeyEquals, compile), r, AutoKeyEquals, compile) == Direct(compile, r) <==>
              (Compile(compile, r) == None ==> !exists q :: q in reqs && AutoKeyEquals(q.key, r.key))
    ensures Compile(compile, r) == None && (exists q :: q in reqs && AutoKeyEquals(q.key, r.key)) ==>
              CallOutcome(RunEntries(reqs, AutoKeyEquals, compile), r, AutoKeyEquals, compile) == Returned(None)
  {
    AutoKeyTransitive();
    RunOutcome(reqs, r, AutoKeyEquals, compile);
    FirstEqualFacts(reqs, r.key, AutoKeyEquals);
    assert r in reqs + [r];
    if FirstEqual(reqs, r.key, AutoKeyEquals).Some? {
      var q := FirstEqual(reqs, r.key, AutoKeyEquals).value;
      assert q in reqs + [r];
      SameCompilation(q, r);
      assert Compile(compile, q) == Compile(compile, r);
    }
  }

  /** Requests with equal keys ask for the same compilation exactly when their zeros have the same signs. */
  lemma {:induction false} SameCompilation(q: Request<AutoKey>, r: Request<AutoKey>)
    requires AutoKeyed(q) && AutoKeyed(r) && AutoKeyEquals(q.key, r.key)
    ensures q.fun == r.fun && (q.ctx.optLevel, q.ctx.optSize) == (r.ctx.optLevel, r.ctx.optSize)
    ensures q.ctx.rawBytes == r.ctx.rawBytes
    ensures q.ctx.args == r.ctx.args <==> SameZeroSigns(q.ctx, r.ctx)
  {
    AutoKeyedFacts(q);
    AutoKeyedFacts(r);
    EqualContextsSameArguments(q.ctx, r.ctx);
  }

  /** A compiler whose code records the arguments it was given. */
  function Recording(): Compiler<seq<Argument>> {
    (f, args, opt, raw) => Some(args)
  }

  /** The request that created the cached entry agrees with this one in the signs of its zeros. */
  predicate ServedAlike(reqs: seq<Request<AutoKey>>, r: Request<AutoKey>) {
    match FirstEqual(reqs, r.key, AutoKeyEquals)
    case None => true
    case Some(q) => SameZeroSigns(q.ctx, r.ctx)
  }

  /** Exactly then a compiler that looks at its arguments cannot tell the cache from direct compilation. */
  lemma {:induction false} TransparentExactly<C>(reqs: seq<Request<AutoKey>>, r: Request<AutoKey>, compile: Compiler<C>)
    requires forall q :: q in reqs + [r] ==> AutoKeyed(q)
    ensures ServedAlike(reqs, r) && Compile(compile, r).Some? ==>
              CallOutcome(RunEntries(reqs, AutoKeyEquals, compile), r, AutoKeyEquals, compile) == Direct(compile, r)
    ensures CallOutcome(RunEntries(reqs, AutoKeyEquals, Recording()), r, AutoKeyEquals, Recording()) == Direct(Recording(), r) <==>
              ServedAlike(reqs, r)
  {
    AutoKeyTransitive();
    RunOutcome(reqs, r, AutoKeyEquals, compile);
    RunOutcome(reqs, r, AutoKeyEquals, Recording());
    FirstEqualFacts(reqs, r.key, AutoKeyEquals);
    assert r in reqs + [r];
    if FirstEqual(reqs, r.key, AutoKeyEquals).Some? {
      var q := FirstEqual(reqs, r.key, AutoKeyEquals).value;
      assert q in reqs + [r];
      SameCompilation(q, r);
    }
  }

  /** A call that binds one floating-point parameter. */
  function FloatCall(fun: Address, bits: nat): Request<AutoKey> {
    CallRequest(fun, [FloatingPoint], [Floating(bits, 0)])
  }

  lemma {:induction false} FloatCallFacts(fun: Address, bits: nat)
    ensures AutoKeyed(FloatCall(fun, bits)) && FloatCall(fun, bits).ctx == DEFAULT_CONTEXT.(args := [Float(bits)])
  {
    var params, args := [FloatingPoint], [Floating(bits, 0)];
    assert ValidCall(params, args);
    assert Recorded(params, args) == [Float(bits)] && args[1..] == [];
  }

  /** A call with -0.0 after one with 0.0 gets the code for 0.0. */
  lemma {:induction false} NegativeZeroCounterexample(fun: Address)
    ensures var first, second := FloatCall(fun, 0), FloatCall(fun, NEGATIVE_ZERO);
      && AutoKeyed(first) && AutoKeyed(second)
      && CallOutcome(RunEntries([first], AutoKeyEquals, Recording()), second, AutoKeyEquals, Recording()) == Returned(Some([Float(0)]))
      && Direct(Recording(), second) == Returned(Some([Float(NEGATIVE_ZERO)]))
  {
    var first, second := FloatCall(fun, 0), FloatCall(fun, NEGATIVE_ZERO);
    FloatCallFacts(fun, 0);
    FloatCallFacts(fun, NEGATIVE_ZERO);
    var run: seq<Request<AutoKey>> := [first];
    assert run[..0] == [];
    assert AutoKeyEquals(first.key, second.key);
  }

  // ----- keys that are not equal to themselves -----

  lemma {:induction false} SelfEqual(r: Request<AutoKey>)
    requires AutoKeyed(r)
    ensures AutoKeyEquals(r.key, r.key) <==> !HasNaN(r.ctx)
    ensures forall k :: AutoKeyEquals(k, r.key) ==> AutoKeyEquals(r.key, r.key)
  {
    AutoKeyedFacts(r);
    ContextEqualsIsPartialEquivalence(r.ctx, r.ctx, r.ctx);
    forall k | AutoKeyEquals(k, r.key) ensures AutoKeyEquals(r.key, r.key) {
      ContextEqualsIsPartialEquivalence(k.1, r.ctx, k.1);
      ContextEqualsIsPartialEquivalence(r.ctx, k.1, r.ctx);
    }
  }

  /** A call that was made is found again exactly when it binds no NaN. */
  lemma {:induction false} FoundIffNoNaN<C>(reqs: seq<Request<AutoKey>>, r: Request<AutoKey>, compile: Compiler<C>)
    requires AutoKeyed(r) && r in reqs
    ensures Has(RunEntries(reqs, AutoKeyEquals, compile), r.key, AutoKeyEquals) <==> !HasNaN(r.ctx)
  {
    AutoKeyTransitive();
    HasIffUsed(reqs, r.key, AutoKeyEquals, compile);
    SelfEqual(r);
  }

  /** With a NaN every occurrence in the run reaches the compiler. */
  lemma {:induction false} NaNAlwaysCompiled<C>(reqs: seq<Request<AutoKey>>, r: Request<AutoKey>, compile: Compiler<C>)
    requires AutoKeyed(r) && HasNaN(r.ctx)
    ensures multiset(Compiled(reqs, AutoKeyEquals, compile))[r] == multiset(reqs)[r]
  {
    if reqs != [] {
      var init, last := reqs[..|reqs| - 1], reqs[|reqs| - 1];
      NaNAlwaysCompiled(init, r, compile);
      assert reqs == init + [last];
      if last == r {
        AutoKeyTransitive();
        HasIffUsed(init, r.key, AutoKeyEquals, compile);
        SelfEqual(r);
      }
    }
  }

  /** A call repeated in a run is compiled again each time exactly when it binds a NaN; otherwise at most once. */
  lemma {:induction false} RecompiledIffNaN<C>(reqs: seq<Request<AutoKey>>, r: Request<AutoKey>, compile: Compiler<C>)
    requires AutoKeyed(r) && multiset(reqs)[r] >= 2
    ensures multiset(Compiled(reqs, AutoKeyEquals, compile))[r] == multiset(reqs)[r] <==> HasNaN(r.ctx)
    ensures !HasNaN(r.ctx) ==> multiset(Compiled(reqs, AutoKeyEquals, compile))[r] <= 1
  {
    var compiled := Compiled(reqs, AutoKeyEquals, compile);
    if HasNaN(r.ctx) {
      NaNAlwaysCompiled(reqs, r, compile);
    } else if multiset(compiled)[r] >= 2 {
      var i, j := TwoOccurrences(compiled, r);
      AutoKeyTransitive();
      CompiledOnce(reqs, AutoKeyEquals, compile);
      SelfEqual(r);
    }
  }

  lemma {:induction false} TwoOccurrences<T>(s: seq<T>, x: T) returns (i: nat, j: nat)
    requires multiset(s)[x] >= 2
    ensures i < j < |s| && s[i] == x && s[j] == x
  {
    var init, last := s[..|s| - 1], s[|s| - 1];
    assert s == init + [last];
    if last == x {
      assert x in multiset(init);
      i :| 0 <= i < |init| && init[i] == x;
      j := |s| - 1;
    } else {
      i, j := TwoOccurrences(init, x);
    }
  }

  /** The smallest such run. */
  lemma {:induction false} NaNCounterexample<C>(fun: Address, bits: nat, compile: Compiler<C>)
    requires IsNaN(bits)
    ensures var r := FloatCall(fun, bits);
      && AutoKeyed(r)
      && !Has(RunEntries([r], AutoKeyEquals, compile), r.key, AutoKeyEquals)
      && multiset(Compiled([r, r], AutoKeyEquals, compile))[r] == 2
  {
    var r := FloatCall(fun, bits);
    FloatCallFacts(fun, bits);
    assert r.ctx.args[0] == Float(bits);
    FoundIffNoNaN([r], r, compile);
    NaNAlwaysCompiled([r, r], r, compile);
  }

  // ----- the implementation: hash buckets -----

  function InBucket<K, C>(entries: seq<Entry<K, C>>, bucketOf: K -> nat, b: nat): seq<Entry<K, C>> {
    if entries == [] then []
    else if bucketOf(entries[0].key) == b then [entries[0]] + InBucket(entries[1..], bucketOf, b)
    else InBucket(entries[1..], bucketOf, b)
  }

  lemma {:induction false} InBucketAppend<K, C>(entries: seq<Entry<K, C>>, e: Entry<K, C>, bucketOf: K -> nat, b: nat)
    ensures InBucket(entries + [e], bucketOf, b) == InBucket(entries, bucketOf, b) + (if bucketOf(e.key) == b then [e] else [])
  {
    if entries == [] {
      assert (entries + [e])[1..] == [];
    } else {
      InBucketAppend(entries[1..], e, bucketOf, b);
      assert (entries + [e])[1..] == entries[1..] + [e];
    }
  }

  /** Searching one bucket agrees with searching the whole list, because equal keys share a bucket. */
  lemma {:induction false} FindInBucket<K(!new), C>(entries: seq<Entry<K, C>>, key: K, eq: (K, K) -> bool, bucketOf: K -> nat)
    requires forall a, b :: eq(a, b) ==> bucketOf(a) == bucketOf(b)
    ensures FindEntry(InBucket(entries, bucketOf, bucketOf(key)), key, eq) == FindEntry(entries, key, eq)
  {
    if entries != [] {
      FindInBucket(entries[1..], key, eq, bucketOf);
      if bucketOf(entries[0].key) == bucketOf(key) {
        assert InBucket(entries, bucketOf, bucketOf(key))[1..] == InBucket(entries[1..], bucketOf, bucketOf(key));
      }
    }
  }

  class Cache<K(!new), C(!new)> {
    const eq: (K, K) -> bool
    const bucketOf: K -> nat
    const bucketCount: nat
    const compile: Compiler<C>
    var buckets: seq<seq<Entry<K, C>>>
    ghost var entries: seq<Entry<K, C>>
    ghost var history: seq<Request<K>>      // every call so far

    ghost predicate Valid()
      reads this
    {
      && (forall a, b :: eq(a, b) ==> bucketOf(a) == bucketOf(b))
      && (forall k :: bucketOf(k) < bucketCount)
      && |buckets| == bucketCount
      && entries == RunEntries(history, eq, compile)
      && forall b :: 0 <= b < bucketCount ==> buckets[b] == InBucket(entries, bucketOf, b)
    }

    constructor (eq: (K, K) -> bool, bucketOf: K -> nat, bucketCount: nat, compile: Compiler<C>)
      requires forall a, b :: eq(a, b) ==> bucketOf(a) == bucketOf(b)
      requires forall k :: bucketOf(k) < bucketCount
      ensures Valid() && history == []
      ensures this.eq == eq && this.bucketOf == bucketOf && this.compile == compile
    {
      this.eq, this.bucketOf, this.bucketCount, this.compile := eq, bucketOf, bucketCount, compile;
      buckets := seq(bucketCount, _ => []);
      entries, history := [], [];
    }

    /** Walks the key's bucket. */
    method Find(key: K) returns (i: nat)
      requires Valid()
      ensures i <= |buckets[bucketOf(key)]|
      ensures i < |buckets[bucketOf(key)]| ==> FindEntry(entries, key, eq) == Some(buckets[bucketOf(key)][i])
      ensures i == |buckets[bucketOf(key)]| ==> FindEntry(entries, key, eq) == None
    {
      FindInBucket(entries, key, eq, bucketOf);
      var bucket := buckets[bucketOf(key)];
      i := 0;
      while i < |bucket| && !eq(bucket[i].key, key)
        invariant i <= |bucket|
        invariant FindEntry(bucket[i..], key, eq) == FindEntry(bucket, key, eq)
      {
        assert bucket[i..][1..] == bucket[i + 1..];
        i := i + 1;
      }
    }

    method HasKey(key: K) returns (b: bool)
      requires Valid() && Transitive(eq)
      ensures b <==> exists q :: q in history && eq(q.key, key)
    {
      HasIffUsed(history, key, eq, compile);
      var i := Find(key);
      b := i != |buckets[bucketOf(key)]|;
    }

    /** Emplaces an empty wrapper; if the key was new, compiles and overwrites it. */
    method JitCall(r: Request<K>) returns (outcome: Outcome<C>)
      requires Valid()
      modifies this
      ensures Valid() && history == old(history) + [r]
      ensures outcome == CallOutcome(RunEntries(old(history), eq, compile), r, eq, compile)
    {
      var b := bucketOf(r.key);
      var i := Find(r.key);
      assert (history + [r])[..|history|] == history;
      history := history + [r];
      if i < |buckets[b]| {
        return Returned(buckets[b][i].wrapper);
      }
      ghost var code := Compile(compile, r);
      forall x ensures InBucket(entries + [Entry(r.key, code)], bucketOf, x) ==
                       InBucket(entries, bucketOf, x) + (if b == x then [Entry(r.key, code)] else []) {
        InBucketAppend(entries, Entry(r.key, code), bucketOf, x);
      }
      entries := entries + [Entry(r.key, code)];
      buckets := buckets[b := buckets[b] + [Entry(r.key, None)]];
      match Compile(compile, r)
      case None =>
        outcome := Threw;
      case Some(c) =>
        buckets := buckets[b := buckets[b][i := Entry(r.key, Some(c))]];
        outcome := Returned(buckets[b][i].wrapper);
    }
  }

  // ----- the cache with automatic keys -----

  function AutoBucket(hs: Hashers, n: nat): AutoKey -> nat
    requires n > 0
  {
    k => (AutoKeyHash(hs, k) as nat) % n
  }

  /** An automatic cache: contexts as keys, spread over the buckets by their hash. */
  method NewAutoCache<C(!new)>(hs: Hashers, n: nat, compile: Compiler<C>) returns (cache: Cache<AutoKey, C>)
    requires hs.Lawful() && n > 0
    ensures fresh(cache) && cache.Valid() && cache.history == []
    ensures cache.eq == AutoKeyEquals && cache.compile == compile
  {
    AutoKeyLaws(hs);
    cache := new Cache(AutoKeyEquals, AutoBucket(hs, n), n, compile);
  }

  /** `jit` on it: after any calls without negative zeros, the outcome of direct compilation unless an equal call threw. */
  method AutoJit<C(!new)>(cache: Cache<AutoKey, C>, fun: Address, params: seq<ParamType>, args: seq<JitArg>) returns (outcome: Outcome<C>)
    requires cache.Valid() && cache.eq == AutoKeyEquals && ValidCall(params, args)
    modifies cache
    ensures cache.Valid() && cache.history == old(cache.history) + [CallRequest(fun, params, args)]
    ensures (forall q :: q in cache.history ==> AutoKeyed(q) && !HasNegativeZero(q.ctx)) &&
            (Compile(cache.compile, CallRequest(fun, params, args)) == None ==>
               !exists q :: q in old(cache.history) && AutoKeyEquals(q.key, CallRequest(fun, params, args).key)) ==>
              outcome ==
                var ctx := ContextFor(params, args);
                match cache.compile(fun, ctx.args, (ctx.optLevel, ctx.optSize), ctx.rawBytes)
                case Some(code) => Returned(Some(code))
                case None => Threw
  {
    var context := GetContextFor(params, args);
    var r := Request((fun, context.value), fun, context.value);
    ghost var before := cache.history;
    outcome := cache.JitCall(r);
    if forall q :: q in cache.history ==> AutoKeyed(q) && !HasNegativeZero(q.ctx) {
      CacheIsTransparent(before, r, cache.compile);
    }
  }

  /** `has` on it: whether an equal call was made before. */
  method AutoHas<C(!new)>(cache: Cache<AutoKey, C>, fun: Address, params: seq<ParamType>, args: seq<JitArg>) returns (b: bool)
    requires cache.Valid() && cache.eq == AutoKeyEquals && ValidCall(params, args)
    ensures b <==> exists q :: q in cache.history && AutoKeyEquals(q.key, CallRequest(fun, params, args).key)
  {
    AutoKeyTransitive();
    var context := GetContextFor(params, args);
    b := cache.HasKey((fun, context.value));
  }
}
