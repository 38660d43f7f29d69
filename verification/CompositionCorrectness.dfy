/**
 When a tree of compositions is compiled as intended: the entry wraps each function around its own
 original, all the way down, and every call in the code that was linked together reaches the function it names. The
 answer depends only on which names each module mentions and defines.
 */
module CompositionCorrectness {
  import opened Wrappers
  import opened EntryTags

  /** What the composition stands for. */
  function Intended(t: Composition): Function {
    match t
    case Pointer(n) => OriginalOf(n)
    case Jit(f, args) => WrapperOf(f, seq(|args|, i requires 0 <= i < |args| => Intended(args[i])))
  }

  // ----- what code calls -----

  ghost predicate HasOpen(code: seq<Code>, n: string) {
    exists c :: c in code && n in c.open
  }

  /** A bound call that does not reach the function it names. */
  predicate Misses(c: Code, n: string) {
    n in c.bound && c.bound[n] != OriginalOf(n)
  }

  /** Some call of a function by name reaches something else. */
  ghost predicate Redirected(code: seq<Code>) {
    exists c, n :: c in code && Misses(c, n)
  }

  /** The function of that name, or a specialisation of it. */
  predicate Named(f: Function, n: string) {
    f == OriginalOf(n) || (f.WrapperOf? && f.target == n)
  }

  /** A name is called through its symbol or is bound, not both, and bound only to what bears that name. */
  ghost predicate Separate(code: seq<Code>) {
    forall c :: c in code ==> c.open !! c.bound.Keys && forall n :: n in c.bound ==> Named(c.bound[n], n)
  }

  lemma {:induction false} OpenConcat(a: seq<Code>, b: seq<Code>, n: string)
    ensures HasOpen(a + b, n) <==> HasOpen(a, n) || HasOpen(b, n)
  {
    assert forall c :: c in a + b <==> c in a || c in b;
  }

  lemma {:induction false} RedirectedConcat(a: seq<Code>, b: seq<Code>)
    ensures Redirected(a + b) <==> Redirected(a) || Redirected(b)
  {
    assert forall c :: c in a + b <==> c in a || c in b;
  }

  /** Binding a name closes exactly the calls through it. */
  lemma {:induction false} OpenBind(code: seq<Code>, n: string, f: Function, m: string)
    ensures HasOpen(Bind(code, n, f), m) <==> HasOpen(code, m) && m != n
  {
    var bound := Bind(code, n, f);
    if HasOpen(bound, m) {
      var c :| c in bound && m in c.open;
      var i :| 0 <= i < |bound| && bound[i] == c;
      assert code[i] in code && m in code[i].open;
    }
    if HasOpen(code, m) && m != n {
      var c :| c in code && m in c.open;
      var i :| 0 <= i < |code| && code[i] == c;
      assert bound[i] in bound && m in bound[i].open;
    }
  }

  lemma {:induction false} SeparateBind(code: seq<Code>, n: string, f: Function)
    requires Separate(code) && Named(f, n)
    ensures Separate(Bind(code, n, f))
  {
    var bound := Bind(code, n, f);
    forall c | c in bound ensures c.open !! c.bound.Keys && forall m :: m in c.bound ==> Named(c.bound[m], m) {
      var i :| 0 <= i < |bound| && bound[i] == c;
      assert code[i] in code;
    }
  }

  lemma {:induction false} MissesBind(c: Code, n: string, f: Function, m: string)
    requires c.open !! c.bound.Keys
    ensures Misses(BindIn(c, n, f), m) <==> Misses(c, m) || (m == n && n in c.open && f != OriginalOf(n))
  {
  }

  /** Binding redirects a call exactly when the name is bound to something else and was still open. */
  lemma {:induction false} RedirectedBind(code: seq<Code>, n: string, f: Function)
    requires Separate(code)
    ensures Redirected(Bind(code, n, f)) <==> Redirected(code) || (f != OriginalOf(n) && HasOpen(code, n))
  {
    hide Misses, BindIn;
    var bound := Bind(code, n, f);
    forall i, m | 0 <= i < |code|
      ensures bound[i] in bound && code[i] in code
      ensures Misses(bound[i], m) <==> Misses(code[i], m) || (m == n && n in code[i].open && f != OriginalOf(n))
    {
      MissesBind(code[i], n, f, m);
    }
    if Redirected(bound) {
      var c, m :| c in bound && Misses(c, m);
      var i :| 0 <= i < |bound| && bound[i] == c;
      assert Misses(bound[i], m);
    }
    if Redirected(code) {
      var c, m :| c in code && Misses(c, m);
      var i :| 0 <= i < |code| && code[i] == c;
      assert Misses(bound[i], m);
    }
    if f != OriginalOf(n) && HasOpen(code, n) {
      var c :| c in code && n in c.open;
      var i :| 0 <= i < |code| && code[i] == c;
      assert Misses(bound[i], n);
    }
  }

  // ----- modules described by names -----

  /** Every visible name except the target's is called by some code, and open calls go to visible names. */
  ghost predicate OpenOk(m: ModuleValue, target: string) {
    && Separate(m.code)
    && (forall n :: n in m.names && n != target ==> HasOpen(m.code, n))
    && (forall n :: HasOpen(m.code, n) ==> n in m.names)
  }

  /** A module without a wrapper of its own. */
  ghost predicate Describes(m: ModuleValue, target: string, mentioned: set<string>, defined: set<string>) {
    m.names == mentioned && m.defined == defined && defined <= mentioned && m.entries == map[] && OpenOk(m, target)
  }

  /** A module to be linked for its function `entry`: an original, or the only wrapper. */
  ghost predicate DescribesSource(m: ModuleValue, entry: string, mentioned: set<string>, defined: set<string>) {
    && m.names == mentioned && m.defined == defined && defined <= mentioned && entry in defined
    && m.entries.Keys <= {entry} && Named(FunctionAt(m, entry), entry)
    && OpenOk(m, entry) && !HasOpen(m.code, entry)
  }

  /** The open calls after a link. */
  lemma {:induction false} LinkStepOpen(dst: ModuleValue, src: ModuleValue, target: string, entry: string, f: Function, m: ModuleValue)
    requires OpenOk(dst, target) && OpenOk(src, entry) && Named(f, entry)
    requires m.names == dst.names + src.names - {entry} && m.code == Bind(dst.code + src.code, entry, f)
    ensures OpenOk(m, target)
  {
    SeparateConcat(dst.code, src.code);
    SeparateBind(dst.code + src.code, entry, f);
    forall n ensures HasOpen(m.code, n) <==> (HasOpen(dst.code, n) || HasOpen(src.code, n)) && n != entry {
      OpenBind(dst.code + src.code, entry, f, n);
      OpenConcat(dst.code, src.code, n);
    }
  }

  lemma {:induction false} SeparateConcat(a: seq<Code>, b: seq<Code>)
    requires Separate(a) && Separate(b)
    ensures Separate(a + b)
  {
    assert forall c :: c in a + b <==> c in a || c in b;
  }

  /** One function linked in and made private: the names, and whether a call was redirected. */
  lemma {:induction false} LinkStep(dst: ModuleValue, src: ModuleValue, target: string, entry: string,
                                    names: set<string>, defs: set<string>, moreNames: set<string>, moreDefs: set<string>)
    requires Describes(dst, target, names, defs) && DescribesSource(src, entry, moreNames, moreDefs)
    ensures var m := Privatized(Linked(dst, Unmarked(src)), entry);
      && Describes(m, target, names + moreNames - {entry}, defs + moreDefs - {entry})
      && (Redirected(m.code) <==>
            Redirected(dst.code) || Redirected(src.code) || (FunctionAt(src, entry) != OriginalOf(entry) && HasOpen(dst.code, entry)))
  {
    hide HasOpen, Redirected, Separate, Bind;
    var linked := Linked(dst, Unmarked(src));
    var m := Privatized(linked, entry);
    var f := FunctionAt(src, entry);
    assert FunctionAt(linked, entry) == f && m.entries.Keys == {};
    assert m.entries == map[];
    LinkStepOpen(dst, src, target, entry, f, m);
    SeparateConcat(dst.code, src.code);
    RedirectedBind(dst.code + src.code, entry, f);
    RedirectedConcat(dst.code, src.code);
    OpenConcat(dst.code, src.code, entry);
  }

  // ----- resolving the direct calls -----

  /** The names that the module mentions once the first `k` direct calls are resolved, and those it defines. */
  function ResolvedNames(lib: Library, target: string, k: nat): set<string>
    requires k <= |Find(lib, target).calls|
  {
    if k == 0 then Names(lib, target)
    else
      var n := Find(lib, target).calls[k - 1];
      if n in lib then ResolvedNames(lib, target, k - 1) + Names(lib, n) - {n} else ResolvedNames(lib, target, k - 1)
  }

  function ResolvedDefs(lib: Library, target: string, k: nat): set<string>
    requires k <= |Find(lib, target).calls|
  {
    if k == 0 then Defs(lib, target)
    else
      var n := Find(lib, target).calls[k - 1];
      if n in lib then ResolvedDefs(lib, target, k - 1) + Defs(lib, n) - {n} else ResolvedDefs(lib, target, k - 1)
  }

  lemma {:induction false} ParsedOk(lib: Library, n: string)
    ensures DescribesSource(Parsed(lib, n), n, Names(lib, n), Defs(lib, n))
    ensures Describes(Parsed(lib, n), n, Names(lib, n), Defs(lib, n))
    ensures !Redirected(Parsed(lib, n).code)
  {
    var m := Parsed(lib, n);
    var c := m.code[0];
    assert forall x :: x in m.code <==> x == c;
    forall d | d in Names(lib, n) && d != n ensures HasOpen(m.code, d) {
      assert c in m.code && d in c.open;
    }
  }

  lemma {:induction false} ResolvedOk(lib: Library, target: string, k: nat)
    requires k <= |Find(lib, target).calls|
    ensures Describes(Resolved(lib, target, k), target, ResolvedNames(lib, target, k), ResolvedDefs(lib, target, k))
    ensures !Redirected(Resolved(lib, target, k).code)
  {
    hide Describes, DescribesSource, Redirected, Parsed, Linked, Privatized;
    ParsedOk(lib, target);
    if k > 0 {
      var n := Find(lib, target).calls[k - 1];
      ResolvedOk(lib, target, k - 1);
      if n in lib {
        ParsedOk(lib, n);
        ParsedUntagged(lib, n);
        LinkStep(Resolved(lib, target, k - 1), Parsed(lib, n), target, n,
                 ResolvedNames(lib, target, k - 1), ResolvedDefs(lib, target, k - 1), Names(lib, n), Defs(lib, n));
      }
    }
  }

  lemma {:induction false} ParsedUntagged(lib: Library, n: string)
    ensures Unmarked(Parsed(lib, n)) == Parsed(lib, n) && FunctionAt(Parsed(lib, n), n) == OriginalOf(n)
  {
  }

  // ----- linking the arguments -----

  /** The names that the module mentions after the first `i` arguments, and those it defines. */
  function Mentioned(lib: Library, t: Composition, i: nat): set<string>
    requires t.Jit? && i <= |t.args|
    decreases t, i
  {
    if i == 0 then ResolvedNames(lib, t.target, |Find(lib, t.target).calls|)
    else if Skipped(lib, t.args[i - 1]) then Mentioned(lib, t, i - 1)
    else Mentioned(lib, t, i - 1) + AllMentioned(lib, t.args[i - 1]) - {t.args[i - 1].target}
  }

  function DefinedIn(lib: Library, t: Composition, i: nat): set<string>
    requires t.Jit? && i <= |t.args|
    decreases t, i
  {
    if i == 0 then ResolvedDefs(lib, t.target, |Find(lib, t.target).calls|)
    else if Skipped(lib, t.args[i - 1]) then DefinedIn(lib, t, i - 1)
    else DefinedIn(lib, t, i - 1) + AllDefined(lib, t.args[i - 1]) - {t.args[i - 1].target}
  }

  /** What the finished module offers to the next link: its entry, and the rest. */
  function AllMentioned(lib: Library, t: Composition): set<string>
    decreases t, ArgCount(t) + 1
  {
    if t.Pointer? then Names(lib, t.target) else Mentioned(lib, t, |t.args|) + {t.target}
  }

  function AllDefined(lib: Library, t: Composition): set<string>
    decreases t, ArgCount(t) + 1
  {
    if t.Pointer? then Defs(lib, t.target) else DefinedIn(lib, t, |t.args|) + {t.target}
  }

  /** The target starts out under its own name: visible, or private because it calls itself. */
  predicate StartsWell(lib: Library, target: string) {
    && target in lib
    && var k := |Find(lib, target).calls|;
       target in ResolvedNames(lib, target, k) ==> target in ResolvedDefs(lib, target, k)
  }

  /** No argument takes the target away: none defines it, and none mentions it when it is private. */
  predicate KeepsTarget(lib: Library, t: Composition, i: nat)
    requires t.Jit? && i < |t.args|
  {
    Skipped(lib, t.args[i]) ||
    if t.target in Mentioned(lib, t, i) then t.target !in AllDefined(lib, t.args[i]) else t.target !in AllMentioned(lib, t.args[i])
  }

  predicate NeverLost(lib: Library, t: Composition)
    decreases t, ArgCount(t) + 1
  {
    if t.Pointer? then t.target in lib else NeverLostUpTo(lib, t, |t.args|)
  }

  predicate NeverLostUpTo(lib: Library, t: Composition, i: nat)
    requires t.Jit? && i <= |t.args|
    decreases t, i
  {
    if i == 0 then StartsWell(lib, t.target)
    else
      && NeverLostUpTo(lib, t, i - 1) && KeepsTarget(lib, t, i - 1)
      && (Skipped(lib, t.args[i - 1]) || NeverLost(lib, t.args[i - 1]))
  }

  /** No composed function has a name that code already in the module still calls through its symbol. */
  predicate NeverCaptured(lib: Library, t: Composition)
    decreases t, ArgCount(t) + 1
  {
    t.Pointer? || NeverCapturedUpTo(lib, t, |t.args|)
  }

  predicate NeverCapturedUpTo(lib: Library, t: Composition, i: nat)
    requires t.Jit? && i <= |t.args|
    decreases t, i
  {
    i == 0 ||
    (NeverCapturedUpTo(lib, t, i - 1) && NeverCaptured(lib, t.args[i - 1])
     && (t.args[i - 1].Jit? ==> t.args[i - 1].target !in Mentioned(lib, t, i - 1)))
  }

  /** What holds after the first `i` arguments are linked. */
  ghost predicate LinkedOk(lib: Library, p: Progress, t: Composition, i: nat)
    requires t.Jit? && i <= |t.args|
  {
    && Describes(p.m, t.target, Mentioned(lib, t, i), DefinedIn(lib, t, i))
    && |p.callees| == i && (forall j :: 0 <= j < i ==> p.callees[j] == Intended(t.args[j]))
    && (Redirected(p.m.code) <==> !NeverCapturedUpTo(lib, t, i))
  }

  /** What holds of a module that is ready to be linked. */
  ghost predicate CompiledOk(lib: Library, m: ModuleValue, t: Composition) {
    && DescribesSource(m, t.target, AllMentioned(lib, t), AllDefined(lib, t))
    && FunctionAt(m, t.target) == Intended(t)
    && (Redirected(m.code) <==> !NeverCaptured(lib, t))
  }

  lemma {:induction false} LosesExactly(lib: Library, p: Progress, src: ModuleValue, t: Composition, i: nat)
    requires t.Jit? && i < |t.args| && !Skipped(lib, t.args[i])
    requires LinkedOk(lib, p, t, i) && CompiledOk(lib, src, t.args[i])
    ensures Loses(p.m, src, t.target) <==> !KeepsTarget(lib, t, i)
  {
    hide OpenOk, HasOpen, Redirected, Intended;
  }

  lemma {:induction false} ArgStep(lib: Library, p: Progress, src: ModuleValue, t: Composition, i: nat)
    requires t.Jit? && i < |t.args| && !Skipped(lib, t.args[i]) && KeepsTarget(lib, t, i)
    requires LinkedOk(lib, p, t, i) && CompiledOk(lib, src, t.args[i])
    ensures LinkedOk(lib, LinkedArg(p, src, t.args[i].target), t, i + 1)
  {
    hide Redirected, HasOpen;
    var arg := t.args[i];
    LinkStep(p.m, src, t.target, arg.target, Mentioned(lib, t, i), DefinedIn(lib, t, i), AllMentioned(lib, arg), AllDefined(lib, arg));
    assert arg.target != t.target;
    assert HasOpen(p.m.code, arg.target) <==> arg.target in Mentioned(lib, t, i);
    hide Linked, Privatized, Describes, DescribesSource;
  }

  lemma {:induction false} SkipStep(lib: Library, p: Progress, t: Composition, i: nat)
    requires t.Jit? && i < |t.args| && Skipped(lib, t.args[i]) && LinkedOk(lib, p, t, i)
    ensures LinkedOk(lib, Progress(p.m, p.callees + [OriginalOf(t.args[i].target)]), t, i + 1)
  {
    hide Describes, Redirected;
    assert NeverCaptured(lib, t.args[i]);
  }

  lemma {:induction false} StartExactly(lib: Library, t: Composition)
    requires t.Jit?
    ensures Start(lib, t.target).Success? <==> StartsWell(lib, t.target)
    ensures Start(lib, t.target).Success? ==> LinkedOk(lib, Progress(Start(lib, t.target).value, []), t, 0)
  {
    hide OpenOk, Redirected, Resolved;
    ResolvedOk(lib, t.target, |Find(lib, t.target).calls|);
  }

  lemma {:induction false} LinkArgsExactly(lib: Library, t: Composition, i: nat)
    requires t.Jit? && i <= |t.args|
    ensures LinkArgs(lib, t, i).Success? <==> NeverLostUpTo(lib, t, i)
    ensures LinkArgs(lib, t, i).Success? ==> LinkedOk(lib, LinkArgs(lib, t, i).value, t, i)
    decreases t, i
  {
    hide LinkedOk, CompiledOk, Loses, KeepsTarget, Start, StartsWell;
    if i == 0 {
      StartExactly(lib, t);
    } else {
      LinkArgsExactly(lib, t, i - 1);
      if LinkArgs(lib, t, i - 1).Success? {
        ArgExactly(lib, t, i);
      }
    }
  }

  lemma {:induction false} ArgExactly(lib: Library, t: Composition, i: nat)
    requires t.Jit? && 0 < i <= |t.args| && LinkArgs(lib, t, i - 1).Success? && LinkedOk(lib, LinkArgs(lib, t, i - 1).value, t, i - 1)
    ensures LinkArgs(lib, t, i).Success? <==> KeepsTarget(lib, t, i - 1) && (Skipped(lib, t.args[i - 1]) || NeverLost(lib, t.args[i - 1]))
    ensures LinkArgs(lib, t, i).Success? ==> LinkedOk(lib, LinkArgs(lib, t, i).value, t, i)
    decreases t, i, 0
  {
    hide LinkedOk, CompiledOk, Loses;
    var p, arg := LinkArgs(lib, t, i - 1).value, t.args[i - 1];
    if Skipped(lib, arg) {
      SkipStep(lib, p, t, i - 1);
    } else {
      CompiledExactly(lib, arg);
      if CompileTree(lib, arg).Success? {
        LosesExactly(lib, p, CompileTree(lib, arg).value, t, i - 1);
        if KeepsTarget(lib, t, i - 1) {
          ArgStep(lib, p, CompileTree(lib, arg).value, t, i - 1);
        }
      }
    }
  }

  lemma {:induction false} WrapStep(lib: Library, p: Progress, t: Composition)
    requires t.Jit? && LinkedOk(lib, p, t, |t.args|)
    ensures CompiledOk(lib, Wrapped(p.m, t.target, p.callees), t)
  {
    var m := Wrapped(p.m, t.target, p.callees);
    assert p.callees == Intended(t).callees;
    SeparateBind(p.m.code, t.target, OriginalOf(t.target));
    RedirectedBind(p.m.code, t.target, OriginalOf(t.target));
    forall n ensures HasOpen(m.code, n) <==> HasOpen(p.m.code, n) && n != t.target {
      OpenBind(p.m.code, t.target, OriginalOf(t.target), n);
    }
  }

  /**
   Compilation is defined exactly when no target is lost; then the entry is the intended function, and
   some call was redirected exactly when a composed name was still in use.
   */
  lemma {:induction false} CompiledExactly(lib: Library, t: Composition)
    ensures CompileTree(lib, t).Success? <==> NeverLost(lib, t)
    ensures CompileTree(lib, t).Success? ==> CompiledOk(lib, CompileTree(lib, t).value, t)
    decreases t, ArgCount(t) + 1
  {
    hide CompiledOk, LinkedOk, Wrapped, Parsed;
    if t.Jit? {
      LinkArgsExactly(lib, t, |t.args|);
      if CompileTree(lib, t).Success? {
        WrapStep(lib, LinkArgs(lib, t, |t.args|).value, t);
      }
    } else if t.target in lib {
      PointerOk(lib, t);
    }
  }

  lemma {:induction false} PointerOk(lib: Library, t: Composition)
    requires t.Pointer? && t.target in lib
    ensures CompiledOk(lib, Parsed(lib, t.target), t)
  {
    ParsedOk(lib, t.target);
  }

  /** The composition is compiled as intended: its entry is right, and every other call still reaches what it names. */
  ghost predicate Faithful(lib: Library, t: Composition)
    requires t.Jit?
  {
    && CompileTree(lib, t).Success?
    && FunctionAt(CompileTree(lib, t).value, t.target) == Intended(t)
    && !Redirected(CompileTree(lib, t).value.code)
  }

  /** Exactly when no target is lost and no composed name was still in use. */
  lemma {:induction false} FaithfulIff(lib: Library, t: Composition)
    requires t.Jit?
    ensures Faithful(lib, t) <==> NeverLost(lib, t) && NeverCaptured(lib, t)
  {
    CompiledExactly(lib, t);
  }

  // ----- modules that define nothing else visibly -----

  /** What the static pass arranges, unless a function is marked `optnone`: every definition except the function itself is private. */
  predicate OnlyTargetsVisible(lib: Library) {
    forall n :: n in lib ==> lib[n].defines == {}
  }

  predicate CallsItself(lib: Library, n: string) { n in Find(lib, n).calls }

  /**
   Then a target is only lost to itself: directly composed with itself or bound to a pointer to itself or,
   if it calls itself, mentioned by a function it calls later or by an argument.
   */
  predicate NoSelf(lib: Library, t: Composition)
    decreases t, ArgCount(t) + 1
  {
    if t.Pointer? then t.target in lib else NoSelfUpTo(lib, t, |t.args|)
  }

  predicate NoSelfUpTo(lib: Library, t: Composition, i: nat)
    requires t.Jit? && i <= |t.args|
    decreases t, i
  {
    if i == 0 then t.target in lib && (CallsItself(lib, t.target) ==> t.target !in Mentioned(lib, t, 0))
    else
      && NoSelfUpTo(lib, t, i - 1)
      && (Skipped(lib, t.args[i - 1]) ||
          (NoSelf(lib, t.args[i - 1]) &&
           if CallsItself(lib, t.target) then t.target !in AllMentioned(lib, t.args[i - 1]) else t.args[i - 1].target != t.target))
  }

  lemma {:induction false} PlainResolved(lib: Library, target: string, k: nat)
    requires OnlyTargetsVisible(lib) && target in lib && k <= |Find(lib, target).calls|
    ensures ResolvedDefs(lib, target, k) == if target in Find(lib, target).calls[..k] then {} else {target}
    ensures target !in Find(lib, target).calls[..k] ==> target in ResolvedNames(lib, target, k)
  {
    if k > 0 {
      var calls := Find(lib, target).calls;
      PlainResolved(lib, target, k - 1);
      assert calls[..k] == calls[..k - 1] + [calls[k - 1]];
    }
  }

  /** The target's status under these conditions. */
  ghost predicate PlainStatus(lib: Library, t: Composition, i: nat)
    requires t.Jit? && i <= |t.args|
  {
    if CallsItself(lib, t.target) then t.target !in Mentioned(lib, t, i) && DefinedIn(lib, t, i) == {}
    else t.target in Mentioned(lib, t, i) && DefinedIn(lib, t, i) == {t.target}
  }

  lemma {:induction false} PlainNames(lib: Library, t: Composition, i: nat)
    requires OnlyTargetsVisible(lib) && t.Jit? && i <= |t.args|
    ensures NeverLostUpTo(lib, t, i) <==> NoSelfUpTo(lib, t, i)
    ensures NoSelfUpTo(lib, t, i) ==> PlainStatus(lib, t, i)
    decreases t, i
  {
    if i == 0 {
      if t.target in lib {
        var calls := Find(lib, t.target).calls;
        PlainResolved(lib, t.target, |calls|);
        assert calls[..|calls|] == calls;
      }
    } else {
      PlainNames(lib, t, i - 1);
      PlainDefined(lib, t.args[i - 1]);
    }
  }

  lemma {:induction false} PlainDefined(lib: Library, t: Composition)
    requires OnlyTargetsVisible(lib)
    ensures NeverLost(lib, t) <==> NoSelf(lib, t)
    ensures NoSelf(lib, t) ==> AllDefined(lib, t) == {t.target}
    ensures t.target in AllDefined(lib, t) && t.target in AllMentioned(lib, t)
    decreases t, ArgCount(t) + 1
  {
    if t.Jit? {
      PlainNames(lib, t, |t.args|);
    }
  }

  /** Compilation is defined exactly when no target is lost to itself; it is as intended when also nothing is captured. */
  lemma {:induction false} PlainFaithfulIff(lib: Library, t: Composition)
    requires OnlyTargetsVisible(lib) && t.Jit?
    ensures CompileTree(lib, t).Success? <==> NoSelf(lib, t)
    ensures Faithful(lib, t) <==> NoSelf(lib, t) && NeverCaptured(lib, t)
  {
    PlainDefined(lib, t);
    CompiledExactly(lib, t);
  }

  // ----- distinct names are enough -----

  function TargetsOf(t: Composition): set<string>
    decreases t, ArgCount(t) + 1
  {
    {t.target} + if t.Jit? then TargetsUpTo(t, |t.args|) else {}
  }

  function TargetsUpTo(t: Composition, i: nat): set<string>
    requires t.Jit? && i <= |t.args|
    decreases t, i
  {
    if i == 0 then {} else TargetsUpTo(t, i - 1) + TargetsOf(t.args[i - 1])
  }

  /** No function occurs twice in the tree. */
  predicate DistinctTargets(t: Composition)
    decreases t, ArgCount(t) + 1
  {
    t.Jit? ==> t.target !in TargetsUpTo(t, |t.args|) && DistinctUpTo(t, |t.args|)
  }

  predicate DistinctUpTo(t: Composition, i: nat)
    requires t.Jit? && i <= |t.args|
    decreases t, i
  {
    i == 0 || (DistinctUpTo(t, i - 1) && DistinctTargets(t.args[i - 1]) && TargetsOf(t.args[i - 1]) !! TargetsUpTo(t, i - 1))
  }

  /** No registered module declares or visibly defines one of the functions, other than as itself. */
  predicate NotMentioned(lib: Library, functions: set<string>) {
    forall n :: n in lib ==> lib[n].declares + lib[n].defines !! functions
  }

  lemma {:induction false} ResolvedApart(lib: Library, target: string, functions: set<string>, k: nat)
    requires NotMentioned(lib, functions) && k <= |Find(lib, target).calls|
    ensures ResolvedDefs(lib, target, k) <= ResolvedNames(lib, target, k)
    ensures ResolvedNames(lib, target, k) * functions <= {target}
    ensures target in ResolvedNames(lib, target, k) && target in functions ==> target in ResolvedDefs(lib, target, k)
  {
    if k > 0 {
      ResolvedApart(lib, target, functions, k - 1);
    }
  }

  lemma {:induction false} MentionedApart(lib: Library, t: Composition, functions: set<string>, i: nat)
    requires t.Jit? && i <= |t.args| && NotMentioned(lib, functions)
    ensures Mentioned(lib, t, i) * functions <= {t.target}
    decreases t, i
  {
    if i == 0 {
      ResolvedApart(lib, t.target, functions, |Find(lib, t.target).calls|);
    } else {
      MentionedApart(lib, t, functions, i - 1);
      AllMentionedApart(lib, t.args[i - 1], functions);
    }
  }

  lemma {:induction false} AllMentionedApart(lib: Library, t: Composition, functions: set<string>)
    requires NotMentioned(lib, functions)
    ensures AllMentioned(lib, t) * functions <= {t.target}
    ensures AllDefined(lib, t) * functions <= {t.target}
    decreases t, ArgCount(t) + 1
  {
    if t.Jit? {
      MentionedApart(lib, t, functions, |t.args|);
      DefinedMentioned(lib, t, |t.args|);
    }
  }

  lemma {:induction false} DefinedMentioned(lib: Library, t: Composition, i: nat)
    requires t.Jit? && i <= |t.args|
    ensures DefinedIn(lib, t, i) <= Mentioned(lib, t, i)
    decreases t, i
  {
    if i == 0 {
      ResolvedApart(lib, t.target, {}, |Find(lib, t.target).calls|);
    } else {
      DefinedMentioned(lib, t, i - 1);
      var arg := t.args[i - 1];
      if arg.Jit? {
        DefinedMentioned(lib, arg, |arg.args|);
      }
    }
  }

  lemma {:induction false} DistinctSafe(lib: Library, t: Composition, functions: set<string>, i: nat)
    requires t.Jit? && i <= |t.args| && NotMentioned(lib, functions) && functions <= lib.Keys
    requires {t.target} + TargetsUpTo(t, i) <= functions && t.target !in TargetsUpTo(t, i) && DistinctUpTo(t, i)
    ensures NeverLostUpTo(lib, t, i) && NeverCapturedUpTo(lib, t, i)
    decreases t, i
  {
    if i == 0 {
      ResolvedApart(lib, t.target, functions, |Find(lib, t.target).calls|);
    } else {
      var arg := t.args[i - 1];
      DistinctSafe(lib, t, functions, i - 1);
      if arg.Jit? {
        DistinctSafe(lib, arg, functions, |arg.args|);
      }
      MentionedApart(lib, t, functions, i - 1);
      AllMentionedApart(lib, arg, functions);
      assert arg.target in TargetsOf(arg) && arg.target in functions && t.target in functions;
    }
  }

  /** With distinct registered functions, none of which any module mentions otherwise, every composition is compiled as intended. */
  lemma {:induction false} CompositionResolves(lib: Library, t: Composition)
    requires t.Jit? && DistinctTargets(t) && TargetsOf(t) <= lib.Keys && NotMentioned(lib, TargetsOf(t))
    ensures Faithful(lib, t)
  {
    DistinctSafe(lib, t, TargetsOf(t), |t.args|);
    FaithfulIff(lib, t);
  }

  // ----- where it fails, and where it does not -----

  function Pair(f: string, g: string): Composition { Jit(f, [Jit(g, [])]) }

  /** The conditions for f composed with a specialised g that calls nothing directly. */
  lemma {:induction false} PairConditions(lib: Library, f: string, g: string)
    requires f in lib && g in lib && lib[g].calls == []
    ensures var names := ResolvedNames(lib, f, |lib[f].calls|);
      && (NeverLost(lib, Pair(f, g)) <==> StartsWell(lib, f) && if f in names then f !in Defs(lib, g) else f !in Names(lib, g))
      && (NeverCaptured(lib, Pair(f, g)) <==> g !in names)
  {
    var t, inner := Pair(f, g), Jit(g, []);
    assert AllMentioned(lib, inner) == Names(lib, g) && AllDefined(lib, inner) == Defs(lib, g);
    assert NeverLost(lib, inner) && NeverCaptured(lib, inner);
    assert NeverLostUpTo(lib, t, 0) <==> StartsWell(lib, f);
    assert NeverCapturedUpTo(lib, t, 0);
  }

  /** A function composed with itself, or bound to a pointer to itself: linking destroys the function that the pass holds. */
  lemma {:induction false} SelfCompositionCounterexample(f: string)
    ensures var lib := map[f := EMPTY];
      CompileTree(lib, Pair(f, f)).Failure? && CompileTree(lib, Jit(f, [Pointer(f)])).Failure?
  {
    var lib: Library := map[f := EMPTY];
    PairConditions(lib, f, f);
    CompiledExactly(lib, Pair(f, f));
    var t := Jit(f, [Pointer(f)]);
    assert f in Mentioned(lib, t, 0) && f in AllDefined(lib, Pointer(f)) && !KeepsTarget(lib, t, 0);
    CompiledExactly(lib, t);
  }

  /** A function that calls itself loses its name to a composed function that merely declares it; one that does not call itself keeps it. */
  lemma {:induction false} RecursiveTargetCounterexample(f: string, g: string)
    requires f != g
    ensures CompileTree(map[f := Bitcode({}, {}, [f]), g := Bitcode({f}, {}, [])], Pair(f, g)).Failure?
    ensures Faithful(map[f := EMPTY, g := Bitcode({f}, {}, [])], Pair(f, g))
  {
    var recursive: Library := map[f := Bitcode({}, {}, [f]), g := Bitcode({f}, {}, [])];
    assert ResolvedNames(recursive, f, 0) == {f} && ResolvedNames(recursive, f, 1) == {};
    PairConditions(recursive, f, g);
    CompiledExactly(recursive, Pair(f, g));
    var plain: Library := map[f := EMPTY, g := Bitcode({f}, {}, [])];
    assert ResolvedNames(plain, f, 0) == {f} && ResolvedDefs(plain, f, 0) == {f};
    PairConditions(plain, f, g);
    FaithfulIff(plain, Pair(f, g));
  }

  /** The bitcode of a function that mentions g and directly calls `calls`, beside a g that calls nothing. */
  function Mentions(f: string, g: string, calls: seq<string>): Library {
    map[f := Bitcode({g}, {}, calls), g := EMPTY]
  }

  /** Code that was in the module before a link keeps its place; its calls of the linked function are bound. */
  lemma {:induction false} CodeKept(p: Progress, src: ModuleValue, name: string, j: nat)
    requires name in src.defined && name in src.names && p.m.entries == map[] && j < |p.m.code|
    ensures j < |LinkedArg(p, src, name).m.code|
    ensures LinkedArg(p, src, name).m.code[j] == BindIn(p.m.code[j], name, FunctionAt(src, name))
  {
  }

  lemma {:induction false} WrappedCode(m: ModuleValue, target: string, callees: seq<Function>, j: nat)
    requires j < |m.code|
    ensures var code := Wrapped(m, target, callees).code;
      && j < |code| && code[j].name == m.code[j].name
      && forall n :: n in m.code[j].bound && n != target ==> n in code[j].bound && code[j].bound[n] == m.code[j].bound[n]
  {
  }

  /** f reaches g through a helper: the helper's call of g is redirected to the specialised g. */
  lemma {:induction false} CapturedCallCounterexample(f: string, g: string)
    requires f != g
    ensures var r := CompileTree(Mentions(f, g, []), Pair(f, g));
      && r.Success? && |r.value.code| > 0 && r.value.code[0].name == f
      && g in r.value.code[0].bound && r.value.code[0].bound[g] == WrapperOf(g, [])
  {
    var lib := Mentions(f, g, []);
    var t, inner := Pair(f, g), Jit(g, []);
    assert ResolvedNames(lib, f, 0) == {f, g} && ResolvedDefs(lib, f, 0) == {f};
    PairConditions(lib, f, g);
    LinkArgsExactly(lib, t, 0);
    CompiledExactly(lib, t);
    assert NeverLostUpTo(lib, inner, 0);
    CompiledExactly(lib, inner);
    hide Linked, Privatized, Wrapped;
    var p := LinkArgs(lib, t, 0).value;
    assert p.m.code == [Original(f, Names(lib, f) - {f}, map[])];
    var src := CompileTree(lib, inner).value;
    assert FunctionAt(src, g) == Intended(inner) == WrapperOf(g, []);
    CodeKept(p, src, g, 0);
    var q := LinkedArg(p, src, g);
    assert LinkArgs(lib, t, 1) == Success(q);
    WrappedCode(q.m, f, q.callees, 0);
  }

  /** f itself calls g: that call was resolved to a private g before, and nothing is redirected. */
  lemma {:induction false} DirectCallHarmless(f: string, g: string)
    requires f != g
    ensures Faithful(Mentions(f, g, [g]), Pair(f, g))
  {
    var lib := Mentions(f, g, [g]);
    assert ResolvedNames(lib, f, 0) == {f, g} && ResolvedNames(lib, f, 1) == {f};
    assert ResolvedDefs(lib, f, 0) == {f} && ResolvedDefs(lib, f, 1) == {f};
    PairConditions(lib, f, g);
    FaithfulIff(lib, Pair(f, g));
  }

  /** f calls itself after g: resolving f brings the open call of g back. In the other order nothing is left open. */
  lemma {:induction false} ResolveOrderMatters(f: string, g: string)
    requires f != g
    ensures !Faithful(Mentions(f, g, [g, f]), Pair(f, g)) && Faithful(Mentions(f, g, [f, g]), Pair(f, g))
  {
    var first, second := Mentions(f, g, [g, f]), Mentions(f, g, [f, g]);
    assert ResolvedNames(first, f, 0) == {f, g} && ResolvedNames(first, f, 1) == {f} && ResolvedNames(first, f, 2) == {g};
    PairConditions(first, f, g);
    FaithfulIff(first, Pair(f, g));
    assert ResolvedNames(second, f, 0) == {f, g} && ResolvedNames(second, f, 1) == {g} && ResolvedNames(second, f, 2) == {};
    PairConditions(second, f, g);
    FaithfulIff(second, Pair(f, g));
  }

  /** Two specialisations of g below one f, and f again below g, are all compiled as intended. */
  lemma {:induction false} SharedNamesHarmless(f: string, g: string)
    requires f != g
    ensures var lib := map[f := EMPTY, g := EMPTY];
      Faithful(lib, Jit(f, [Jit(g, []), Jit(g, [])])) && Faithful(lib, Jit(f, [Pair(g, f)]))
  {
    var lib: Library := map[f := EMPTY, g := EMPTY];
    var g0 := Jit(g, []);
    var t, u := Jit(f, [g0, g0]), Jit(f, [Pair(g, f)]);
    assert ResolvedNames(lib, f, 0) == {f} && ResolvedDefs(lib, f, 0) == {f};
    assert ResolvedNames(lib, g, 0) == {g} && ResolvedDefs(lib, g, 0) == {g};
    assert Mentioned(lib, g0, 0) == {g} && DefinedIn(lib, g0, 0) == {g};
    assert NeverLostUpTo(lib, g0, 0) && NeverCapturedUpTo(lib, g0, 0);
    assert AllMentioned(lib, g0) == {g} && AllDefined(lib, g0) == {g};
    assert Mentioned(lib, t, 0) == {f} && Mentioned(lib, t, 1) == {f};
    assert NeverLostUpTo(lib, t, 0) && NeverLostUpTo(lib, t, 1) && NeverLostUpTo(lib, t, 2);
    assert NeverCapturedUpTo(lib, t, 0) && NeverCapturedUpTo(lib, t, 1) && NeverCapturedUpTo(lib, t, 2);
    FaithfulIff(lib, t);
    PairConditions(lib, g, f);
    PairNames(lib, g, f);
    assert Mentioned(lib, u, 0) == {f};
    assert NeverLostUpTo(lib, u, 0) && NeverLostUpTo(lib, u, 1) && NeverCapturedUpTo(lib, u, 0) && NeverCapturedUpTo(lib, u, 1);
    FaithfulIff(lib, u);
  }

  lemma {:induction false} PairNames(lib: Library, f: string, g: string)
    requires f in lib && g in lib && lib[f] == EMPTY && lib[g] == EMPTY && f != g
    ensures AllMentioned(lib, Pair(f, g)) == {f} && AllDefined(lib, Pair(f, g)) == {f}
  {
    var t, inner := Pair(f, g), Jit(g, []);
    assert AllMentioned(lib, inner) == {g} && AllDefined(lib, inner) == {g};
    assert Mentioned(lib, t, 0) == {f} && Mentioned(lib, t, 1) == {f};
    assert DefinedIn(lib, t, 0) == {f} && DefinedIn(lib, t, 1) == {f};
  }
}
