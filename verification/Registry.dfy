/**
 The bitcode tracker: what each registered address stands for, and the address of each name. Both maps
 keep the first registration. Serialised code finds its globals again through the name of its entry.
 */
module Registry {
  import opened Wrappers
  import opened EntryTags

  type Address = nat

  const NULL: Address := 0

  datatype FunctionInfo = FunctionInfo(name: string, globals: nat, bitcode: string)

  /** One registration made by a static constructor. */
  datatype Registration = Registration(addr: Address, info: FunctionInfo)

  // ----- maps in which the first value wins -----

  function Emplace<K, V>(m: map<K, V>, k: K, v: V): map<K, V> {
    if k in m then m else m[k := v]
  }

  function Build<K, V>(pairs: seq<(K, V)>): map<K, V> {
    if pairs == [] then map[] else Emplace(Build(pairs[..|pairs| - 1]), pairs[|pairs| - 1].0, pairs[|pairs| - 1].1)
  }

  predicate IsFirst<K(==), V>(pairs: seq<(K, V)>, i: nat) {
    i < |pairs| && forall j :: 0 <= j < i ==> pairs[j].0 != pairs[i].0
  }

  predicate Occurs<K(==), V>(pairs: seq<(K, V)>, k: K) {
    exists i :: 0 <= i < |pairs| && pairs[i].0 == k
  }

  lemma {:induction false} BuildKeys<K, V>(pairs: seq<(K, V)>, k: K)
    ensures k in Build(pairs) <==> Occurs(pairs, k)
  {
    if pairs != [] {
      var last := |pairs| - 1;
      var init := pairs[..last];
      BuildKeys(init, k);
      if Occurs(pairs, k) && pairs[last].0 != k {
        var i :| 0 <= i < |pairs| && pairs[i].0 == k;
        assert init[i].0 == k;
      }
      if Occurs(init, k) {
        var i :| 0 <= i < |init| && init[i].0 == k;
        assert pairs[i].0 == k;
      }
    }
  }

  lemma {:induction false} FirstValue<K, V>(pairs: seq<(K, V)>, i: nat)
    requires IsFirst(pairs, i)
    ensures pairs[i].0 in Build(pairs) && Build(pairs)[pairs[i].0] == pairs[i].1
  {
    var last := |pairs| - 1;
    var init := pairs[..last];
    if i < last {
      FirstValue(init, i);
    } else {
      BuildKeys(init, pairs[last].0);
    }
  }

  /** The map holds every key, with the value of the key's first occurrence. */
  lemma {:induction false} FirstWins<K(!new), V>(pairs: seq<(K, V)>)
    ensures forall k :: k in Build(pairs) <==> Occurs(pairs, k)
    ensures forall i: nat :: IsFirst(pairs, i) ==> pairs[i].0 in Build(pairs) && Build(pairs)[pairs[i].0] == pairs[i].1
  {
    forall k ensures k in Build(pairs) <==> Occurs(pairs, k) {
      BuildKeys(pairs, k);
    }
    forall i: nat | IsFirst(pairs, i) ensures pairs[i].0 in Build(pairs) && Build(pairs)[pairs[i].0] == pairs[i].1 {
      FirstValue(pairs, i);
    }
  }

  lemma {:induction false} FirstExists<K, V>(pairs: seq<(K, V)>, j: nat) returns (i: nat)
    requires j < |pairs|
    ensures IsFirst(pairs, i) && pairs[i].0 == pairs[j].0 && i <= j
  {
    if k :| 0 <= k < j && pairs[k].0 == pairs[j].0 {
      i := FirstExists(pairs, k);
    } else {
      i := j;
    }
  }

  // ----- the two tables -----

  function ByAddress(rs: seq<Registration>): seq<(Address, FunctionInfo)> {
    seq(|rs|, i requires 0 <= i < |rs| => (rs[i].addr, rs[i].info))
  }

  function ByName(rs: seq<Registration>): seq<(string, Address)> {
    seq(|rs|, i requires 0 <= i < |rs| => (rs[i].info.name, rs[i].addr))
  }

  /** The run-time lookups, on the tables that a run of registrations leaves. */
  function AddressOf(names: map<string, Address>, name: string): Address {
    if name in names then names[name] else NULL
  }

  /** How a fresh compilation of `addr` chooses its entry name and globals; it throws for an unknown address. */
  function CompileChoice(functions: map<Address, FunctionInfo>, addr: Address): Option<(string, nat)> {
    if addr in functions then Some((functions[addr].name, functions[addr].globals)) else None
  }

  /** How deserialisation chooses the globals for an entry name: none for an unknown name. */
  function DeserializeChoice(functions: map<Address, FunctionInfo>, names: map<string, Address>, name: string): Option<nat> {
    var addr := AddressOf(names, name);
    if addr != NULL && addr in functions then Some(functions[addr].globals) else None
  }

  /** The name and the globals with which a serialised module is compiled again; none without an entry tag. */
  function Deserialized(functions: map<Address, FunctionInfo>, names: map<string, Address>, m: ModuleValue): Option<(string, Option<nat>)> {
    match EntryName(m)
    case None => None
    case Some(name) => Some((name, DeserializeChoice(functions, names, name)))
  }

  /** Over every run of registrations, a known name has a registered address. */
  lemma {:induction false} KnownNameHasAddress(rs: seq<Registration>, name: string)
    requires name in Build(ByName(rs))
    ensures Build(ByName(rs))[name] in Build(ByAddress(rs))
  {
    FirstWins(ByName(rs));
    FirstWins(ByAddress(rs));
    var j :| 0 <= j < |ByName(rs)| && ByName(rs)[j].0 == name;
    var i := FirstExists(ByName(rs), j);
    assert ByAddress(rs)[i].0 == Build(ByName(rs))[name];
  }

  lemma {:induction false} AddressRegistered(rs: seq<Registration>, addr: Address)
    ensures addr in Build(ByAddress(rs)) <==> exists r :: r in rs && r.addr == addr
  {
    FirstWins(ByAddress(rs));
    if addr in Build(ByAddress(rs)) {
      var i :| 0 <= i < |ByAddress(rs)| && ByAddress(rs)[i].0 == addr;
      assert rs[i] in rs;
    }
    if r :| r in rs && r.addr == addr {
      var i :| 0 <= i < |rs| && rs[i] == r;
      assert ByAddress(rs)[i].0 == addr;
      assert Occurs(ByAddress(rs), addr);
    }
  }

  /** Names and addresses determine each other, and no function is at the null address. */
  ghost predicate UniquePairs(rs: seq<Registration>) {
    && (forall i, j :: 0 <= i < |rs| && 0 <= j < |rs| ==> (rs[i].addr == rs[j].addr <==> rs[i].info.name == rs[j].info.name))
    && (forall i :: 0 <= i < |rs| ==> rs[i].addr != NULL)
  }

  /** The first registration under the name was made at this address. */
  ghost predicate OwnsName(rs: seq<Registration>, name: string, addr: Address) {
    addr != NULL && exists m: nat :: IsFirst(ByName(rs), m) && rs[m].addr == addr && rs[m].info.name == name
  }

  /** Registrations of one address agree, and within the globals of one module a name has one address. */
  ghost predicate Coherent(rs: seq<Registration>) {
    && (forall i, j :: 0 <= i < |rs| && 0 <= j < |rs| && rs[i].addr == rs[j].addr ==> rs[i].info == rs[j].info)
    && (forall i, j :: 0 <= i < |rs| && 0 <= j < |rs| && rs[i].info.globals == rs[j].info.globals && rs[i].info.name == rs[j].info.name ==>
          rs[i].addr == rs[j].addr)
  }

  /** The name table leads back to the address exactly when the address owns the name. */
  lemma {:induction false} NameLeadsBack(rs: seq<Registration>, name: string, addr: Address)
    requires addr != NULL
    ensures OwnsName(rs, name, addr) <==> AddressOf(Build(ByName(rs)), name) == addr
  {
    var ns := ByName(rs);
    FirstWins(ns);
    if m: nat :| IsFirst(ns, m) && rs[m].addr == addr && rs[m].info.name == name {
      assert ns[m] == (name, addr);
    }
    if name in Build(ns) && Build(ns)[name] == addr {
      var j :| 0 <= j < |ns| && ns[j].0 == name;
      var i := FirstExists(ns, j);
      assert ns[i] == (rs[i].info.name, rs[i].addr);
    }
  }

  /** An entry of the first table comes from a registration. */
  lemma {:induction false} InfoRegistered(rs: seq<Registration>, addr: Address) returns (i: nat)
    requires addr in Build(ByAddress(rs))
    ensures i < |rs| && rs[i] == Registration(addr, Build(ByAddress(rs))[addr])
  {
    var ads := ByAddress(rs);
    FirstWins(ads);
    var j :| 0 <= j < |ads| && ads[j].0 == addr;
    i := FirstExists(ads, j);
    assert ads[i] == (rs[i].addr, rs[i].info);
  }

  lemma {:induction false} NameRegistered(rs: seq<Registration>, name: string) returns (m: nat)
    requires name in Build(ByName(rs))
    ensures m < |rs| && rs[m].info.name == name && rs[m].addr == Build(ByName(rs))[name]
  {
    var ns := ByName(rs);
    FirstWins(ns);
    var j :| 0 <= j < |ns| && ns[j].0 == name;
    m := FirstExists(ns, j);
    assert ns[m] == (rs[m].info.name, rs[m].addr);
  }

  /** A serialised function is given the globals it was compiled with if its address was the first one registered under its name. */
  lemma {:induction false} OwnerAgrees(rs: seq<Registration>, addr: Address)
    requires CompileChoice(Build(ByAddress(rs)), addr).Some? && OwnsName(rs, Build(ByAddress(rs))[addr].name, addr)
    ensures DeserializeChoice(Build(ByAddress(rs)), Build(ByName(rs)), Build(ByAddress(rs))[addr].name) == Some(Build(ByAddress(rs))[addr].globals)
  {
    NameLeadsBack(rs, Build(ByAddress(rs))[addr].name, addr);
  }

  /** For coherent registrations: exactly then. */
  lemma {:induction false} DeserializeAgreesIffOwned(rs: seq<Registration>, addr: Address)
    requires Coherent(rs) && CompileChoice(Build(ByAddress(rs)), addr).Some?
    ensures var functions := Build(ByAddress(rs));
      var (name, globals) := CompileChoice(functions, addr).value;
      DeserializeChoice(functions, Build(ByName(rs)), name) == Some(globals) <==> OwnsName(rs, name, addr)
  {
    var functions, names := Build(ByAddress(rs)), Build(ByName(rs));
    var info := functions[addr];
    if OwnsName(rs, info.name, addr) {
      OwnerAgrees(rs, addr);
    }
    if DeserializeChoice(functions, names, info.name) == Some(info.globals) {
      var i := InfoRegistered(rs, addr);
      var m := NameRegistered(rs, info.name);
      var j := InfoRegistered(rs, names[info.name]);
      assert rs[m].info == rs[j].info;
      assert rs[m].addr == addr;
      NameLeadsBack(rs, info.name, addr);
    }
  }

  /** With unique pairs every registered function owns its name. */
  lemma {:induction false} UniquePairsOwn(rs: seq<Registration>, addr: Address)
    requires UniquePairs(rs)
    requires CompileChoice(Build(ByAddress(rs)), addr).Some?
    ensures addr != NULL && OwnsName(rs, CompileChoice(Build(ByAddress(rs)), addr).value.0, addr)
  {
    var ads, ns := ByAddress(rs), ByName(rs);
    FirstWins(ads);
    var j :| 0 <= j < |ads| && ads[j].0 == addr;
    var i := FirstExists(ads, j);
    assert ads[i] == (rs[i].addr, rs[i].info) && ns[i] == (rs[i].info.name, rs[i].addr);
    var m := FirstExists(ns, i);
    assert ns[m] == (rs[m].info.name, rs[m].addr);
    assert rs[m].addr == addr;
  }

  /**
   Compile a registered function under the name and with the globals the registry chooses, serialise the
   module, and deserialise it: the tag that survived in the module gives back the same name, and through
   it the same globals.
   */
  lemma {:induction false} DeserializeAgrees(rs: seq<Registration>, addr: Address, lib: Library, t: Composition)
    requires UniquePairs(rs)
    requires CompileChoice(Build(ByAddress(rs)), addr).Some?
    requires t.Jit? && t.target == CompileChoice(Build(ByAddress(rs)), addr).value.0 && CompileTree(lib, t).Success?
    ensures Deserialized(Build(ByAddress(rs)), Build(ByName(rs)), CompileTree(lib, t).value)
         == Some((t.target, Some(CompileChoice(Build(ByAddress(rs)), addr).value.1)))
  {
    ExactlyOneEntry(lib, t);
    UniquePairsOwn(rs, addr);
    OwnerAgrees(rs, addr);
  }

  /** Two functions registered under one name: the second is given the globals of the first. */
  lemma {:induction false} SharedNameCounterexample(name: string)
    ensures var rs := [Registration(1, FunctionInfo(name, 10, "a")), Registration(2, FunctionInfo(name, 20, "b"))];
      && CompileChoice(Build(ByAddress(rs)), 2) == Some((name, 20))
      && DeserializeChoice(Build(ByAddress(rs)), Build(ByName(rs)), name) == Some(10)
  {
    var rs := [Registration(1, FunctionInfo(name, 10, "a")), Registration(2, FunctionInfo(name, 20, "b"))];
    var ads, ns := ByAddress(rs), ByName(rs);
    FirstWins(ads);
    FirstWins(ns);
    assert IsFirst(ads, 0) && IsFirst(ads, 1) && IsFirst(ns, 0);
    assert ads[1].0 == 2 && ads[0].0 == 1 && ns[0].0 == name;
  }

  class BitcodeTracker {
    var functions: map<Address, FunctionInfo>
    var nameToAddress: map<string, Address>
    ghost var registered: seq<Registration>

    ghost predicate Valid()
      reads this
    {
      functions == Build(ByAddress(registered)) && nameToAddress == Build(ByName(registered))
    }

    constructor ()
      ensures Valid() && registered == []
    {
      functions, nameToAddress, registered := map[], map[], [];
    }

    method RegisterFunction(addr: Address, info: FunctionInfo)
      requires Valid()
      modifies this
      ensures Valid() && registered == old(registered) + [Registration(addr, info)]
    {
      functions := Emplace(functions, addr, info);
      nameToAddress := Emplace(nameToAddress, info.name, addr);
      ghost var rs := registered + [Registration(addr, info)];
      assert ByAddress(rs)[..|registered|] == ByAddress(registered);
      assert ByName(rs)[..|registered|] == ByName(registered);
      registered := rs;
    }

    method GetAddress(name: string) returns (addr: Address)
      requires Valid()
      ensures addr == AddressOf(Build(ByName(registered)), name)
    {
      addr := if name in nameToAddress then nameToAddress[name] else NULL;
    }

    /** Throws for an unknown address. */
    method GetNameAndGlobalMapping(addr: Address) returns (r: Option<(string, nat)>)
      requires Valid()
      ensures r == CompileChoice(Build(ByAddress(registered)), addr)
    {
      if addr !in functions {
        return None;
      }
      return Some((functions[addr].name, functions[addr].globals));
    }

    method HasGlobalMapping(addr: Address) returns (b: bool)
      requires Valid()
      ensures b <==> exists r :: r in registered && r.addr == addr
    {
      b := addr in functions;
      AddressRegistered(registered, addr);
    }

    /** The globals that deserialised code with this entry name is linked against; a known name never fails. */
    method GlobalsForEntry(name: string) returns (globals: Option<nat>)
      requires Valid()
      ensures globals == DeserializeChoice(Build(ByAddress(registered)), Build(ByName(registered)), name)
    {
      globals := None;
      var addr := GetAddress(name);
      if addr != NULL {
        KnownNameHasAddress(registered, name);
        var r := GetNameAndGlobalMapping(addr);
        globals := Some(r.value.1);
      }
    }

    /** Reads the entry tag of the module and looks its globals up. */
    method Deserialize(m: Module) returns (r: Option<(string, Option<nat>)>)
      requires Valid()
      ensures r == Deserialized(Build(ByAddress(registered)), Build(ByName(registered)), m.value)
    {
      var name := m.GetEntryFunctionName();
      if name.None? {
        return None;
      }
      var globals := GlobalsForEntry(name.value);
      return Some((name.value, globals));
    }
  }
}
