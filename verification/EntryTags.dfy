/**
 Entry tags and composition. A jitted module carries named metadata whose entry node names its wrapper.
 When a jitted function is bound as an argument of another, its module is cloned, its tag erased, and
 the rest linked in; the new wrapper then takes the name of the function it wraps and is tagged.
 */
module EntryTags {
  import opened Wrappers

  datatype MdOperand = MdString(s: string) | MdOther
  type MdNode = seq<MdOperand>

  const ENTRY_TAG := "entry"

  /** A function that code can call: an original, or a wrapper and the functions it passes. */
  datatype Function = OriginalOf(name: string) | WrapperOf(target: string, callees: seq<Function>)

  /**
   A registered function with its private helpers, and the functions that this code calls by name outside
   itself. Open calls go through the visible symbol of the name, which linking can still replace; bound
   ones go to a private function, which linking leaves alone.
   */
  datatype Code = Original(name: string, open: set<string>, bound: map<string, Function>)

  /**
   A module: the names of its externally visible symbols, those among them that are defined, those that
   are wrappers, the code compiled from source and, if present, the named metadata.
   */
  datatype ModuleValue = ModuleValue(
    names: set<string>, defined: set<string>, entries: map<string, Function>, code: seq<Code>, metadata: Option<seq<MdNode>>)

  // ----- tags -----

  predicate IsEntry(node: MdNode) {
    |node| == 2 && node[0] == MdString(ENTRY_TAG) && node[1].MdString?
  }

  function EntryNode(name: string): MdNode { [MdString(ENTRY_TAG), MdString(name)] }

  /** The name in the first entry node. */
  function EntryName(m: ModuleValue): Option<string> {
    match m.metadata
    case None => None
    case Some(nodes) => FirstEntry(nodes)
  }

  function FirstEntry(nodes: seq<MdNode>): Option<string> {
    if nodes == [] then None else if IsEntry(nodes[0]) then Some(nodes[0][1].s) else FirstEntry(nodes[1..])
  }

  function Nodes(m: ModuleValue): seq<MdNode> {
    match m.metadata case None => [] case Some(nodes) => nodes
  }

  function Marked(m: ModuleValue, name: string): ModuleValue {
    m.(metadata := Some(Nodes(m) + [EntryNode(name)]))
  }

  function Unmarked(m: ModuleValue): ModuleValue { m.(metadata := None) }

  // ----- linking -----

  /**
   Linking with override: visible symbols are matched by name, the source's definitions replace those of
   the destination, a declaration never replaces anything; code and metadata are concatenated. A private
   function is not matched: it gives up its name to a visible one and keeps its callers.
   */
  function Linked(dst: ModuleValue, src: ModuleValue): ModuleValue {
    ModuleValue(
      dst.names + src.names,
      dst.defined + src.defined,
      (dst.entries - src.defined) + src.entries,
      dst.code + src.code,
      if src.metadata.None? then dst.metadata else Some(Nodes(dst) + Nodes(src)))
  }

  /** Tags of both modules survive a link, which is why the tag of a composed module is erased first. */
  lemma {:induction false} LinkedTags(dst: ModuleValue, src: ModuleValue)
    ensures Nodes(Linked(dst, src)) == Nodes(dst) + Nodes(src)
    ensures Nodes(Linked(dst, Unmarked(src))) == Nodes(dst)
  {
  }

  /** What the visible symbol of a defined name stands for. */
  function FunctionAt(m: ModuleValue, n: string): Function {
    if n in m.entries then m.entries[n] else OriginalOf(n)
  }

  function BindIn(c: Code, n: string, f: Function): Code {
    if n in c.open then c.(open := c.open - {n}, bound := c.bound[n := f]) else c
  }

  function Bind(code: seq<Code>, n: string, f: Function): seq<Code> {
    seq(|code|, i requires 0 <= i < |code| => BindIn(code[i], n, f))
  }

  /** Private linkage: the symbol is no longer matched, and the calls through it are bound for good. */
  function Privatized(m: ModuleValue, n: string): ModuleValue {
    if n in m.names then
      m.(names := m.names - {n}, defined := m.defined - {n}, entries := m.entries - {n}, code := Bind(m.code, n, FunctionAt(m, n)))
    else m
  }

  // ----- registered bitcode -----

  /**
   The bitcode of a registered function: the functions it declares, the other ones it defines visibly, and
   the names that the function itself calls directly, in order.
   */
  datatype Bitcode = Bitcode(declares: set<string>, defines: set<string>, calls: seq<string>)

  type Library = map<string, Bitcode>

  const EMPTY := Bitcode({}, {}, [])

  function Find(lib: Library, n: string): Bitcode { if n in lib then lib[n] else EMPTY }

  function Names(lib: Library, n: string): set<string> { Find(lib, n).declares + Find(lib, n).defines + {n} }
  function Defs(lib: Library, n: string): set<string> { Find(lib, n).defines + {n} }

  /** The module parsed from the bitcode; a call of the function by itself is not a call outside its code. */
  function Parsed(lib: Library, n: string): ModuleValue {
    ModuleValue(Names(lib, n), Defs(lib, n), map[], [Original(n, Names(lib, n) - {n}, map[])], None)
  }

  /** A registered function is linked in and made private; an unregistered one is left alone. */
  function LinkedPointer(m: ModuleValue, lib: Library, n: string): ModuleValue {
    if n in lib then Privatized(Linked(m, Parsed(lib, n)), n) else m
  }

  /** The first `k` direct calls of the target resolved. */
  function Resolved(lib: Library, target: string, k: nat): ModuleValue
    requires k <= |Find(lib, target).calls|
  {
    if k == 0 then Parsed(lib, target)
    else LinkedPointer(Resolved(lib, target, k - 1), lib, Find(lib, target).calls[k - 1])
  }

  /** The wrapper takes the name of the target, which becomes private if it is not already. */
  function Wrapped(m: ModuleValue, target: string, callees: seq<Function>): ModuleValue {
    Marked(AddEntry(Privatized(m, target), target, WrapperOf(target, callees)), target)
  }

  function AddEntry(m: ModuleValue, n: string, f: Function): ModuleValue {
    m.(names := m.names + {n}, defined := m.defined + {n}, entries := m.entries[n := f])
  }

  datatype Error =
    | NotRegistered(name: string)
    | TargetErased(name: string)      // linking destroyed the function that the pass holds
    | TargetRenamed(name: string)     // another symbol took the private target's name

  /**
   The pass holds the target while `src` is linked. A visible target is destroyed by a definition of its
   name; a private one loses its name to any visible symbol.
   */
  predicate Loses(m: ModuleValue, src: ModuleValue, target: string) {
    target in src.names && (target in m.names ==> target in src.defined)
  }

  function Loss(m: ModuleValue, target: string): Error {
    if target in m.names then TargetErased(target) else TargetRenamed(target)
  }

  class Module {
    var value: ModuleValue

    constructor (v: ModuleValue)
      ensures value == v
    {
      value := v;
    }

    /** Skips nodes that are not entry nodes; no result when there is none. */
    method GetEntryFunctionName() returns (name: Option<string>)
      ensures name == EntryName(value)
    {
      if value.metadata.None? {
        return None;
      }
      var nodes := value.metadata.value;
      for i := 0 to |nodes|
        invariant FirstEntry(nodes) == FirstEntry(nodes[i..])
      {
        if |nodes[i]| != 2 {
          assert nodes[i..][1..] == nodes[i + 1..];
          continue;
        }
        if !nodes[i][0].MdString? || !nodes[i][1].MdString? || nodes[i][0].s != ENTRY_TAG {
          assert nodes[i..][1..] == nodes[i + 1..];
          continue;
        }
        return Some(nodes[i][1].s);
      }
      return None;
    }

    method MarkAsEntry(name: string)
      modifies this
      ensures value == Marked(old(value), name)
    {
      var nodes := if value.metadata.Some? then value.metadata.value else [];
      value := value.(metadata := Some(nodes + [EntryNode(name)]));
    }

    method UnmarkEntry()
      modifies this
      ensures value == Unmarked(old(value))
    {
      value := value.(metadata := None);
    }

    /** Links a registered function in and makes it private. */
    method LinkPointerIfPossible(lib: Library, n: string)
      modifies this
      ensures value == LinkedPointer(old(value), lib, n)
    {
      if n in lib {
        value := Linked(value, Parsed(lib, n));
        value := Privatized(value, n);
      }
    }

    /** Resolves the direct calls of the target, which are collected before anything is linked. */
    method ResolveModule(lib: Library, target: string)
      requires value == Parsed(lib, target)
      modifies this
      ensures value == Resolved(lib, target, |Find(lib, target).calls|)
    {
      var toDo := Find(lib, target).calls;
      for k := 0 to |toDo|
        invariant value == Resolved(lib, target, k)
      {
        LinkPointerIfPossible(lib, toDo[k]);
      }
    }

    /**
     The cases of the argument switch that link: a composed module, cloned and without its tag, or a
     registered function pointer. The linked function is made private and passed; `lost` tells that the
     target which the pass holds did not survive under its name.
     */
    method LinkArgument(src: Module, name: string, held: string) returns (callee: Function, lost: bool)
      requires name in src.value.defined
      modifies this
      ensures lost == Loses(old(value), old(src.value), held)
      ensures callee == FunctionAt(old(src.value), name)
      ensures value == Privatized(Linked(old(value), Unmarked(old(src.value))), name)
    {
      var clone := new Module(src.value);
      clone.UnmarkEntry();
      lost := held in clone.value.names && (held in value.names ==> held in clone.value.defined);
      value := Linked(value, clone.value);
      callee := FunctionAt(value, name);
      value := Privatized(value, name);
    }

    /** The end of the pass: the wrapper steals the target's name and becomes the entry. */
    method WrapTarget(target: string, callees: seq<Function>)
      modifies this
      ensures value == Wrapped(old(value), target, callees)
    {
      value := Privatized(value, target);
      value := AddEntry(value, target, WrapperOf(target, callees));
      MarkAsEntry(target);
    }
  }

  // ----- trees of compositions -----

  /** A function specialised with some arguments bound to other compositions, or a plain function pointer. */
  datatype Composition = Jit(target: string, args: seq<Composition>) | Pointer(target: string)

  /** A pointer to an unregistered function is passed as an address; nothing is linked for it. */
  predicate Skipped(lib: Library, t: Composition) { t.Pointer? && t.target !in lib }

  function ArgCount(t: Composition): nat { if t.Jit? then |t.args| else 0 }

  datatype Progress = Progress(m: ModuleValue, callees: seq<Function>)

  /** The module that the pass starts from: the target's bitcode with its direct calls resolved. */
  function Start(lib: Library, target: string): Result<ModuleValue, Error> {
    if target !in lib then Failure(NotRegistered(target))
    else
      var m := Resolved(lib, target, |Find(lib, target).calls|);
      if target in m.names && target !in m.defined then Failure(TargetRenamed(target)) else Success(m)
  }

  /** The module that compiling the composition leaves; for a pointer, the module it is linked from. */
  function CompileTree(lib: Library, t: Composition): (r: Result<ModuleValue, Error>)
    ensures r.Success? ==> t.target in r.value.names && t.target in r.value.defined
    ensures r.Success? && t.Jit? ==> r.value.metadata == Some([EntryNode(t.target)])
    decreases t, ArgCount(t) + 1
  {
    if t.Pointer? then
      if t.target in lib then Success(Parsed(lib, t.target)) else Failure(NotRegistered(t.target))
    else
      match LinkArgs(lib, t, |t.args|)
      case Failure(e) => Failure(e)
      case Success(p) =>
        assert [] + [EntryNode(t.target)] == [EntryNode(t.target)];
        Success(Wrapped(p.m, t.target, p.callees))
  }

  /** The resolved target with the first `i` arguments linked in. */
  function LinkArgs(lib: Library, t: Composition, i: nat): (r: Result<Progress, Error>)
    requires t.Jit? && i <= |t.args|
    ensures r.Success? ==> r.value.m.metadata == None
    decreases t, i
  {
    if i == 0 then
      match Start(lib, t.target)
      case Failure(e) => Failure(e)
      case Success(m) => ResolvedUntagged(lib, t.target, |Find(lib, t.target).calls|); Success(Progress(m, []))
    else
      match LinkArgs(lib, t, i - 1)
      case Failure(e) => Failure(e)
      case Success(p) =>
        if Skipped(lib, t.args[i - 1]) then Success(Progress(p.m, p.callees + [OriginalOf(t.args[i - 1].target)])) else
        match CompileTree(lib, t.args[i - 1])
        case Failure(e) => Failure(e)
        case Success(src) => if Loses(p.m, src, t.target) then Failure(Loss(p.m, t.target)) else Success(LinkedArg(p, src, t.args[i - 1].target))
  }

  function LinkedArg(p: Progress, src: ModuleValue, name: string): Progress {
    Progress(Privatized(Linked(p.m, Unmarked(src)), name), p.callees + [FunctionAt(src, name)])
  }

  lemma {:induction false} ResolvedUntagged(lib: Library, target: string, k: nat)
    requires k <= |Find(lib, target).calls|
    ensures Resolved(lib, target, k).metadata == None
  {
    if k > 0 {
      ResolvedUntagged(lib, target, k - 1);
    }
  }

  /** Compiles bottom-up, with the steps of the source in their order; clones leave the composed modules alone. */
  method CompileComposition(lib: Library, t: Composition) returns (r: Result<Module, Error>)
    ensures r.Success? ==> fresh(r.value) && CompileTree(lib, t) == Success(r.value.value)
    ensures r.Failure? ==> CompileTree(lib, t) == Failure(r.error)
    decreases t
  {
    hide Linked, Privatized, Wrapped, Marked, Unmarked, Loses, Resolved, Parsed, FunctionAt, EntryName, FirstEntry;
    if t.target !in lib {
      StartFails(lib, t);
      return Failure(NotRegistered(t.target));
    }
    var into := new Module(Parsed(lib, t.target));
    if t.Pointer? {
      return Success(into);
    }
    into.ResolveModule(lib, t.target);
    if t.target in into.value.names && t.target !in into.value.defined {
      StartFails(lib, t);
      return Failure(TargetRenamed(t.target));
    }
    var callees: seq<Function> := [];
    for i := 0 to |t.args|
      invariant LinkArgs(lib, t, i) == Success(Progress(into.value, callees)) && fresh(into)
    {
      if Skipped(lib, t.args[i]) {
        callees := callees + [OriginalOf(t.args[i].target)];
        continue;
      }
      var src := CompileComposition(lib, t.args[i]);
      if src.Failure? {
        FailureStays(lib, t, i + 1, |t.args|);
        return Failure(src.error);
      }
      var error := if t.target in into.value.names then TargetErased(t.target) else TargetRenamed(t.target);
      var name := t.args[i].target;
      if t.args[i].Jit? {
        ExactlyOneEntry(lib, t.args[i]);
        var tag := src.value.GetEntryFunctionName();
        name := tag.value;
      }
      var callee, lost := into.LinkArgument(src.value, name, t.target);
      if lost {
        FailureStays(lib, t, i + 1, |t.args|);
        return Failure(error);
      }
      callees := callees + [callee];
    }
    into.WrapTarget(t.target, callees);
    return Success(into);
  }

  lemma {:induction false} StartFails(lib: Library, t: Composition)
    requires t.Jit? ==> Start(lib, t.target).Failure?
    requires t.Pointer? ==> t.target !in lib
    ensures CompileTree(lib, t) == Failure(if t.Jit? then Start(lib, t.target).error else NotRegistered(t.target))
  {
    if t.Jit? {
      FailureStays(lib, t, 0, |t.args|);
    }
  }

  lemma {:induction false} FailureStays(lib: Library, t: Composition, i: nat, j: nat)
    requires t.Jit? && i <= j <= |t.args| && LinkArgs(lib, t, i).Failure?
    ensures LinkArgs(lib, t, j) == LinkArgs(lib, t, i)
    decreases j
  {
    if i < j {
      FailureStays(lib, t, i, j - 1);
    }
  }

  /** Whatever the composition, exactly one entry tag survives, and it names the outer target. */
  lemma {:induction false} ExactlyOneEntry(lib: Library, t: Composition)
    requires t.Jit? && CompileTree(lib, t).Success?
    ensures CompileTree(lib, t).value.metadata == Some([EntryNode(t.target)])
    ensures EntryName(CompileTree(lib, t).value) == Some(t.target)
  {
    assert FirstEntry([EntryNode(t.target)]) == Some(t.target);
  }
}
