/**
 * What the dynamic linker of host/src/dylink.ts does to a process: the indirect function
 * table, the global offset table (GOT), the symbol table and the loaded libraries.
 */
module Linking {
  import opened DylinkSection
  import opened Int32
  import opened Wrappers

  /** The identity of a function object. */
  type Fn = nat

  datatype Sym = Func(f: Fn) | Data(value: int)

  /** How a side module asks for a symbol. */
  datatype Want = GotMem(sym: String) | GotFunc(sym: String) | Env(sym: String)

  /** A mutable exported global keeps its value; an immutable one is an offset to relocate. */
  datatype Exported = ExFunc(f: Fn) | ExGlobal(value: int, mutable: bool) | ExOther

  datatype NamedExport = NamedExport(name: String, value: Exported)

  /** What instantiation comes to: table slots filled in the module's own region, and exports. */
  datatype Instance = Instance(elements: seq<Option<Fn>>, exports: seq<NamedExport>)

  /** A side module: its dylink.0 metadata, its imports, and how it instantiates at given bases. */
  datatype Mod = Mod(
    metadata: Option<Metadata>, imports: seq<Want>, instance: (int, int) -> Option<Instance>,
    relocates: bool, constructs: bool)

  datatype Lib = Lib(name: String, memoryBase: int, tableBase: int, exports: seq<NamedExport>)

  /**
   * The linker's state. `misbound` is a record: GOT entries made as data while their symbol was
   * a function, or as a function while it was data, and not redefined since.
   */
  datatype St = St(
    table: seq<Option<Fn>>, got: map<String, int>, symbols: map<String, Sym>,
    loaded: map<String, Lib>, allocations: nat, misbound: set<String>)

  /** The memory allocator's answers in order (none: it throws), and the libraries that can be found. */
  datatype World = World(alloc: nat -> Option<int>, libraries: map<String, Mod>)

  datatype Loaded = Ok(st: St, lib: Lib) | Fail(st: St)

  datatype Resolved = Resolved(st: St, ok: bool)

  const UNDERSCORES: String := Ascii("__")

  // ---- the table ----

  /** The first slot that holds a function, from `i` on. */
  function SlotOf(table: seq<Option<Fn>>, f: Fn, i: nat): (r: Option<nat>)
    requires i <= |table|
    ensures r.Some? ==> i <= r.value < |table| && table[r.value] == Some(f)
    ensures r.Some? ==> forall k :: i <= k < r.value ==> table[k] != Some(f)
    ensures r.None? ==> forall k :: i <= k < |table| ==> table[k] != Some(f)
    decreases |table| - i
  {
    if i == |table| then None else if table[i] == Some(f) then Some(i) else SlotOf(table, f, i + 1)
  }

  /** The table with a slot for `f`, which is appended only when it has none. */
  function WithSlot(table: seq<Option<Fn>>, f: Fn): seq<Option<Fn>> {
    if SlotOf(table, f, 0).Some? then table else table + [Some(f)]
  }

  function SlotIn(table: seq<Option<Fn>>, f: Fn): (r: nat)
    ensures r < |WithSlot(table, f)| && WithSlot(table, f)[r] == Some(f)
  {
    var r := SlotOf(table, f, 0);
    if r.Some? then r.value else |table|
  }

  function Nulls(n: nat): (r: seq<Option<Fn>>)
    ensures |r| == n
  {
    seq(n, _ => None)
  }

  // ---- imports ----

  function GotEntry(st: St, sym: String, mem: bool): St {
    if sym in st.got then st
    else if mem && sym in st.symbols && st.symbols[sym].Data? then
      st.(got := st.got[sym := st.symbols[sym].value])
    else if !mem && sym in st.symbols && st.symbols[sym].Func? then
      var f := st.symbols[sym].f;
      st.(table := WithSlot(st.table, f), got := st.got[sym := SlotIn(st.table, f)])
    else
      st.(got := st.got[sym := 0],
          misbound := st.misbound + if sym in st.symbols then {sym} else {})
  }

  /** What the environment supplies itself. */
  const BUILTINS: set<String> := {
    Ascii("memory"), Ascii("__indirect_function_table"), Ascii("__memory_base"), Ascii("__table_base"),
    Ascii("__stack_pointer"), Ascii("__c_longjmp")
  }

  function ResolveOne(st: St, w: Want): Resolved {
    match w
    case GotMem(sym) => Resolved(GotEntry(st, sym, true), true)
    case GotFunc(sym) => Resolved(GotEntry(st, sym, false), true)
    case Env(sym) => Resolved(st, sym in BUILTINS || sym in st.symbols)
  }

  /** Imports are looked up in order; the first that cannot be supplied stops the instantiation. */
  function Resolve(st: St, ws: seq<Want>): Resolved
    decreases |ws|
  {
    if ws == [] then Resolved(st, true)
    else
      var r := ResolveOne(st, ws[0]);
      if r.ok then Resolve(r.st, ws[1..]) else r
  }

  // ---- exports ----

  function Relocate(e: NamedExport, memoryBase: int): NamedExport {
    match e.value
    case ExGlobal(value, false) => e.(value := ExGlobal(ToI32(value + memoryBase), false))
    case _ => e
  }

  function RelocateAll(es: seq<NamedExport>, memoryBase: int): (r: seq<NamedExport>)
    ensures |r| == |es|
  {
    seq(|es|, i requires 0 <= i < |es| => Relocate(es[i], memoryBase))
  }

  function Reslot(got: map<String, int>, sym: String, value: int): map<String, int> {
    if sym in got then got[sym := value] else got
  }

  function PublishOne(st: St, e: NamedExport): St {
    if UNDERSCORES <= e.name then st
    else
      match e.value
      case ExFunc(f) =>
        st.(table := st.table + [Some(f)], got := Reslot(st.got, e.name, |st.table|),
            symbols := st.symbols[e.name := Func(f)], misbound := st.misbound - {e.name})
      case ExGlobal(value, _) =>
        st.(got := Reslot(st.got, e.name, value),
            symbols := st.symbols[e.name := Data(value)], misbound := st.misbound - {e.name})
      case ExOther => st
  }

  function Publish(st: St, es: seq<NamedExport>): St
    decreases |es|
  {
    if es == [] then st else Publish(PublishOne(st, es[0]), es[1..])
  }

  // ---- one library ----

  /** The table with `elements` in the slots from `base` on. */
  function Fill(table: seq<Option<Fn>>, base: nat, elements: seq<Option<Fn>>): (r: seq<Option<Fn>>)
    requires base + |elements| <= |table|
    ensures |r| == |table|
  {
    table[..base] + elements + table[base + |elements|..]
  }

  /** Memory, table slots, imports, instantiation, exports, and startup; a failure keeps what was done before it. */
  function Instantiate(w: World, st: St, name: String, m: Mod, md: Metadata, replay: Option<int>): Loaded {
    var asks := md.memorySize > 0 && replay.None?;
    var answer := w.alloc(st.allocations);
    var st1 := if asks then st.(allocations := st.allocations + 1) else st;
    if asks && answer.None? then Fail(st1)
    else
      var memoryBase := if md.memorySize == 0 then 0 else if asks then answer.value else replay.value;
      var tableBase := if md.tableSize > 0 then |st1.table| else 0;
      var st2 := st1.(table := st1.table + Nulls(md.tableSize));
      Link(st2, name, m, md, memoryBase, tableBase, replay.Some?)
  }

  function Link(st: St, name: String, m: Mod, md: Metadata, memoryBase: int, tableBase: nat, replay: bool): Loaded {
    var r := Resolve(st, m.imports);
    var inst := m.instance(memoryBase, tableBase);
    if !r.ok || inst.None? || |inst.value.elements| > md.tableSize || tableBase + md.tableSize > |r.st.table| then
      Fail(r.st)
    else
      var exports := RelocateAll(inst.value.exports, memoryBase);
      var st1 := Publish(r.st.(table := Fill(r.st.table, tableBase, inst.value.elements)), exports);
      if !m.relocates || (!replay && !m.constructs) then Fail(st1)
      else
        var lib := Lib(name, memoryBase, tableBase, exports);
        Ok(st1.(loaded := st1.loaded[name := lib]), lib)
  }

  // ---- a library and its dependencies ----

  /** `depth` is the room left on the call stack; running out of it is an error like any other. */
  function Load(w: World, st: St, name: String, m: Mod, replay: Option<int>, depth: nat): Loaded
    decreases depth, 1, 0
  {
    if name in st.loaded then Ok(st, st.loaded[name])
    else if m.metadata.None? || depth == 0 then Fail(st)
    else
      var md := m.metadata.value;
      if replay.Some? && md.neededDynlibs != [] then Fail(st)
      else
        var r := LoadDeps(w, st, md.neededDynlibs, depth);
        if !r.ok then Fail(r.st) else Instantiate(w, r.st, name, m, md, replay)
  }

  function LoadDeps(w: World, st: St, deps: seq<String>, depth: nat): Resolved
    requires depth > 0
    decreases depth, 0, |deps|
  {
    if deps == [] then Resolved(st, true)
    else if deps[0] in st.loaded then LoadDeps(w, st, deps[1..], depth)
    else if deps[0] !in w.libraries then Resolved(st, false)
    else
      var r := Load(w, st, deps[0], w.libraries[deps[0]], None, depth - 1);
      if r.Fail? then Resolved(r.st, false) else LoadDeps(w, r.st, deps[1..], depth)
  }

  // ---- what every load keeps ----

  /** The slot a GOT entry names holds the function its symbol stands for; an entry for data is its address. */
  predicate Binds(st: St, sym: String) {
    sym in st.got && sym in st.symbols ==>
      match st.symbols[sym]
      case Func(f) => 0 <= st.got[sym] < |st.table| && st.table[st.got[sym]] == Some(f)
      case Data(value) => st.got[sym] == value
  }

  ghost predicate Coherent(st: St) {
    && (forall sym :: sym !in st.misbound ==> Binds(st, sym))
    && (forall sym :: sym in st.misbound ==>
          sym in st.got && st.got[sym] == 0 && sym in st.symbols)
  }

  /** No slot that was there has changed. */
  predicate Extends(st: St, t: St) { st.table <= t.table }

  lemma GotEntryKeeps(st: St, sym: String, mem: bool)
    requires Coherent(st)
    ensures Coherent(GotEntry(st, sym, mem)) && Extends(st, GotEntry(st, sym, mem))
  {
    var t := GotEntry(st, sym, mem);
    assert forall s :: s !in st.misbound ==> Binds(st, s);
  }

  lemma {:induction false} ResolveKeeps(st: St, ws: seq<Want>)
    requires Coherent(st)
    ensures Coherent(Resolve(st, ws).st) && Extends(st, Resolve(st, ws).st)
    decreases |ws|
  {
    hide Coherent, GotEntry;
    if ws != [] {
      match ws[0] {
        case GotMem(sym) => GotEntryKeeps(st, sym, true);
        case GotFunc(sym) => GotEntryKeeps(st, sym, false);
        case Env(_) =>
      }
      if ResolveOne(st, ws[0]).ok { ResolveKeeps(ResolveOne(st, ws[0]).st, ws[1..]); }
    }
  }

  lemma PublishOneKeeps(st: St, e: NamedExport)
    requires Coherent(st)
    ensures Coherent(PublishOne(st, e)) && Extends(st, PublishOne(st, e))
  {
    assert forall s :: s !in st.misbound ==> Binds(st, s);
  }

  lemma {:induction false} PublishKeeps(st: St, es: seq<NamedExport>)
    requires Coherent(st)
    ensures Coherent(Publish(st, es)) && Extends(st, Publish(st, es))
    decreases |es|
  {
    hide Coherent, PublishOne;
    if es != [] {
      PublishOneKeeps(st, es[0]);
      PublishKeeps(PublishOne(st, es[0]), es[1..]);
    }
  }

  /** Filling slots that are still empty moves no function that a GOT entry names. */
  lemma FillKeeps(st: St, base: nat, elements: seq<Option<Fn>>)
    requires Coherent(st) && base + |elements| <= |st.table|
    requires forall k :: base <= k < base + |elements| ==> st.table[k] == None
    ensures Coherent(st.(table := Fill(st.table, base, elements)))
  {
    var t := st.(table := Fill(st.table, base, elements));
    forall sym | sym !in t.misbound
      ensures Binds(t, sym)
    {
      assert Binds(st, sym);
    }
  }

  lemma GrowKeeps(st: St, n: nat)
    requires Coherent(st)
    ensures Coherent(st.(table := st.table + Nulls(n)))
  {
    var t := st.(table := st.table + Nulls(n));
    forall sym | sym !in t.misbound
      ensures Binds(t, sym)
    {
      assert Binds(st, sym);
    }
  }

  /** Slots of the table before `n` are the same in both states. */
  predicate SameBelow(st: St, t: St, n: nat) { n <= |st.table| && n <= |t.table| && t.table[..n] == st.table[..n] }

  lemma LinkKeeps(st: St, name: String, m: Mod, md: Metadata, memoryBase: int, tableBase: nat, replay: bool, below: nat)
    requires Coherent(st) && |st.table| == below + md.tableSize && (md.tableSize > 0 ==> tableBase == below)
    requires (md.tableSize == 0 ==> tableBase == 0)
    requires forall k :: below <= k < |st.table| ==> st.table[k] == None
    ensures Coherent(Link(st, name, m, md, memoryBase, tableBase, replay).st)
    ensures SameBelow(st, Link(st, name, m, md, memoryBase, tableBase, replay).st, below)
  {
    hide Coherent, Resolve, Publish, RelocateAll;
    var r := Resolve(st, m.imports).st;
    var inst := m.instance(memoryBase, tableBase);
    ResolveKeeps(st, m.imports);
    if inst.Some? && |inst.value.elements| <= md.tableSize {
      FillKeeps(r, tableBase, inst.value.elements);
      var filled := r.(table := Fill(r.table, tableBase, inst.value.elements));
      PublishKeeps(filled, RelocateAll(inst.value.exports, memoryBase));
      LoadedKeeps(filled, inst.value, name, memoryBase, tableBase);
    }
  }

  lemma LoadedKeeps(st: St, inst: Instance, name: String, memoryBase: int, tableBase: int)
    requires Coherent(st)
    ensures var exports := RelocateAll(inst.exports, memoryBase);
            var t := Publish(st, exports);
            Coherent(t.(loaded := t.loaded[name := Lib(name, memoryBase, tableBase, exports)]))
  {
    hide Publish, RelocateAll;
    var exports := RelocateAll(inst.exports, memoryBase);
    PublishKeeps(st, exports);
    var t := Publish(st, exports);
    LoadedIrrelevant(t, t.loaded[name := Lib(name, memoryBase, tableBase, exports)], t.allocations);
  }

  lemma LoadedIrrelevant(st: St, loaded: map<String, Lib>, allocations: nat)
    requires Coherent(st)
    ensures Coherent(st.(loaded := loaded)) && Coherent(st.(allocations := allocations))
  {
    assert forall sym :: sym !in st.misbound ==> Binds(st, sym);
  }

  lemma InstantiateKeeps(w: World, st: St, name: String, m: Mod, md: Metadata, replay: Option<int>)
    requires Coherent(st)
    ensures Coherent(Instantiate(w, st, name, m, md, replay).st)
    ensures Extends(st, Instantiate(w, st, name, m, md, replay).st)
  {
    hide Coherent, Link;
    var st1 := if md.memorySize > 0 && replay.None? then st.(allocations := st.allocations + 1) else st;
    LoadedIrrelevant(st, st.loaded, st1.allocations);
    GrowKeeps(st1, md.tableSize);
    var st2 := st1.(table := st1.table + Nulls(md.tableSize));
    var tableBase := if md.tableSize > 0 then |st1.table| else 0;
    var answer := w.alloc(st.allocations);
    if md.memorySize == 0 {
      LinkKeeps(st2, name, m, md, 0, tableBase, replay.Some?, |st.table|);
    } else if replay.Some? {
      LinkKeeps(st2, name, m, md, replay.value, tableBase, true, |st.table|);
    } else if answer.Some? {
      LinkKeeps(st2, name, m, md, answer.value, tableBase, false, |st.table|);
    }
  }

  /** A load, with every library it pulls in, keeps the GOT coherent and every old slot as it was, failed or not. */
  lemma {:induction false} LoadKeeps(w: World, st: St, name: String, m: Mod, replay: Option<int>, depth: nat)
    requires Coherent(st)
    ensures Coherent(Load(w, st, name, m, replay, depth).st) && Extends(st, Load(w, st, name, m, replay, depth).st)
    decreases depth, 1, 0
  {
    hide Coherent, Instantiate;
    if name !in st.loaded && m.metadata.Some? && depth > 0 {
      var md := m.metadata.value;
      LoadDepsKeeps(w, st, md.neededDynlibs, depth);
      var r := LoadDeps(w, st, md.neededDynlibs, depth);
      InstantiateKeeps(w, r.st, name, m, md, replay);
    }
  }

  lemma {:induction false} LoadDepsKeeps(w: World, st: St, deps: seq<String>, depth: nat)
    requires Coherent(st) && depth > 0
    ensures Coherent(LoadDeps(w, st, deps, depth).st) && Extends(st, LoadDeps(w, st, deps, depth).st)
    decreases depth, 0, |deps|
  {
    hide Coherent;
    if deps != [] {
      if deps[0] in st.loaded {
        LoadDepsKeeps(w, st, deps[1..], depth);
      } else if deps[0] in w.libraries {
        LoadKeeps(w, st, deps[0], w.libraries[deps[0]], None, depth - 1);
        var r := Load(w, st, deps[0], w.libraries[deps[0]], None, depth - 1);
        if r.Ok? { LoadDepsKeeps(w, r.st, deps[1..], depth); }
      }
    }
  }

  // ---- every run of loads ----

  /** A `dlopen` or the table side of a `dlsym`. */
  datatype Call = Open(name: String, m: Mod, replay: Option<int>, depth: nat) | Look(f: Fn)

  function Apply(w: World, st: St, c: Call): St {
    match c
    case Open(name, m, replay, depth) => Load(w, st, name, m, replay, depth).st
    case Look(f) => st.(table := WithSlot(st.table, f))
  }

  function ApplyAll(w: World, st: St, cs: seq<Call>): St
    decreases |cs|
  {
    if cs == [] then st else ApplyAll(w, Apply(w, st, cs[0]), cs[1..])
  }

  lemma LookKeeps(st: St, f: Fn)
    requires Coherent(st)
    ensures Coherent(st.(table := WithSlot(st.table, f)))
  {
    var t := st.(table := WithSlot(st.table, f));
    forall sym | sym !in t.misbound
      ensures Binds(t, sym)
    {
      assert Binds(st, sym);
    }
  }

  lemma {:induction false} RunKeeps(w: World, st: St, cs: seq<Call>)
    requires Coherent(st)
    ensures Coherent(ApplyAll(w, st, cs)) && Extends(st, ApplyAll(w, st, cs))
    decreases |cs|
  {
    hide Coherent, Load;
    if cs != [] {
      match cs[0] {
        case Open(name, m, replay, depth) => LoadKeeps(w, st, name, m, replay, depth);
        case Look(f) => LookKeeps(st, f);
      }
      RunKeeps(w, Apply(w, st, cs[0]), cs[1..]);
    }
  }

  /** An entry that was left at 0 is right when the function is in slot 0, or the data is at address 0. */
  predicate ZeroIsRight(st: St, sym: String)
    requires sym in st.symbols
  {
    match st.symbols[sym]
    case Func(f) => |st.table| > 0 && st.table[0] == Some(f)
    case Data(value) => value == 0
  }

  /**
   * After any calls from a state without GOT entries: no old slot has changed, and a symbol's GOT
   * entry is right, exactly unless the entry was made as the wrong kind (then it is 0).
   */
  lemma RecordedCoherence(w: World, st: St, cs: seq<Call>, sym: String)
    requires st.got == map[] && st.misbound == {}
    ensures var t := ApplyAll(w, st, cs);
            && st.table <= t.table
            && (sym in t.got && sym in t.symbols ==>
                  (Binds(t, sym) <==> sym !in t.misbound || ZeroIsRight(t, sym)))
  {
    RunKeeps(w, st, cs);
    var t := ApplyAll(w, st, cs);
    assert sym !in t.misbound ==> Binds(t, sym);
  }

  /** A library asks for `sym`, a function of the main program, as data: its GOT entry is 0 and slot 0 is empty. */
  lemma DataEntryOfFunction(w: World, sym: String)
    ensures var md := Metadata(0, 0, 0, 0, [], {}, {});
            var m := Mod(Some(md), [GotMem(sym)], (_, _) => Some(Instance([], [])), true, true);
            var st := St([None], map[], map[sym := Func(7)], map[], 0, {});
            var t := ApplyAll(w, st, [Open([], m, None, 1)]);
            sym in t.got && sym in t.symbols && t.symbols[sym] == Func(7) && !Binds(t, sym)
  {
    var md := Metadata(0, 0, 0, 0, [], {}, {});
    var m := Mod(Some(md), [GotMem(sym)], (_, _) => Some(Instance([], [])), true, true);
    var st := St([None], map[], map[sym := Func(7)], map[], 0, {});
    var open := Open([], m, None, 1);
    assert m.imports[1..] == [] && [open][1..] == [];
    var r := GotEntry(st, sym, true);
    assert st.table + Nulls(0) == st.table && Fill(st.table, 0, []) == st.table;
    assert Resolve(st, m.imports) == Resolved(r, true);
    assert Publish(r, RelocateAll([], 0)) == r;
    assert Apply(w, st, open).got == r.got && Apply(w, st, open).table == r.table
        && Apply(w, st, open).symbols == r.symbols;
  }

  /** A library asks for `sym`, data of the main program at 4096, as a function: its GOT entry is 0. */
  lemma FunctionEntryOfData(w: World, sym: String)
    ensures var md := Metadata(0, 0, 0, 0, [], {}, {});
            var m := Mod(Some(md), [GotFunc(sym)], (_, _) => Some(Instance([], [])), true, true);
            var st := St([None], map[], map[sym := Data(4096)], map[], 0, {});
            var t := ApplyAll(w, st, [Open([], m, None, 1)]);
            sym in t.got && sym in t.symbols && t.symbols[sym] == Data(4096) && !Binds(t, sym)
  {
    var md := Metadata(0, 0, 0, 0, [], {}, {});
    var m := Mod(Some(md), [GotFunc(sym)], (_, _) => Some(Instance([], [])), true, true);
    var st := St([None], map[], map[sym := Data(4096)], map[], 0, {});
    var open := Open([], m, None, 1);
    assert m.imports[1..] == [] && [open][1..] == [];
    var r := GotEntry(st, sym, false);
    assert st.table + Nulls(0) == st.table && Fill(st.table, 0, []) == st.table;
    assert Resolve(st, m.imports) == Resolved(r, true);
    assert Publish(r, RelocateAll([], 0)) == r;
    assert Apply(w, st, open).got == r.got && Apply(w, st, open).table == r.table
        && Apply(w, st, open).symbols == r.symbols;
  }
}
