/** The linker object of host/src/dylink.ts and its loops, against `Linking`. */
module Linker {
  import opened DylinkSection
  import opened Linking
  import opened LoadResult
  import opened Wrappers

  /** What `dlsym` hands out: a table index or an address, a bare function object, or nothing. */
  datatype Symbol = Index(i: nat) | Address(a: int) | Object(f: Fn) | NoSymbol

  datatype Handle = Handle(id: int, lib: Lib)

  function ExportNamed(es: seq<NamedExport>, name: String): (r: Option<Exported>)
    ensures r.Some? ==> NamedExport(name, r.value) in es
    ensures r.None? <==> forall e :: e in es ==> e.name != name
  {
    if es == [] then None
    else
      assert es == [es[0]] + es[1..];
      if es[0].name == name then Some(es[0].value) else ExportNamed(es[1..], name)
  }

  function LibOf(hs: seq<Handle>, id: int): (r: Option<Lib>)
    ensures r.Some? ==> Handle(id, r.value) in hs
    ensures r.None? <==> forall h :: h in hs ==> h.id != id
  {
    if hs == [] then None
    else
      assert hs == [hs[0]] + hs[1..];
      if hs[0].id == id then Some(hs[0].lib) else LibOf(hs[1..], id)
  }

  /** The first handle of a library, in order of insertion. */
  function IdOf(hs: seq<Handle>, lib: Lib): (r: Option<int>)
    ensures r.Some? ==> Handle(r.value, lib) in hs
    ensures r.None? <==> forall h :: h in hs ==> h.lib != lib
  {
    if hs == [] then None
    else
      assert hs == [hs[0]] + hs[1..];
      if hs[0].lib == lib then Some(hs[0].id) else IdOf(hs[1..], lib)
  }

  class DynamicLinker {
    const world: World
    var table: seq<Option<Fn>>
    var got: map<String, int>
    var globalSymbols: map<String, Sym>
    var loadedLibraries: map<String, Lib>
    var allocations: nat
    ghost var misbound: set<String>
    var handleCounter: int
    var handleMap: seq<Handle>
    var failed: bool

    ghost function Contents(): St
      reads this
    {
      St(table, got, globalSymbols, loadedLibraries, allocations, misbound)
    }

    /** Handles are positive, distinct, and below the counter; no library has two. */
    ghost predicate Valid()
      reads this
    {
      && handleCounter >= 1
      && (forall i :: 0 <= i < |handleMap| ==> 0 < handleMap[i].id < handleCounter)
      && (forall i, j :: 0 <= i < j < |handleMap| ==>
            handleMap[i].id != handleMap[j].id && handleMap[i].lib != handleMap[j].lib)
    }

    constructor (world: World, table: seq<Option<Fn>>, symbols: map<String, Sym>)
      ensures Valid() && this.world == world && Contents() == St(table, map[], symbols, map[], 0, {}) && handleMap == []
      ensures Coherent(Contents())
    {
      this.world, this.table, got, globalSymbols, loadedLibraries := world, table, map[], symbols, map[];
      allocations, misbound, handleCounter, handleMap, failed := 0, {}, 1, [], false;
    }

    /** Looks a function up in the table and appends it if it has no slot. */
    method TableIndexFor(f: Fn) returns (index: nat)
      modifies this`table
      ensures table == WithSlot(old(table), f) && index == SlotIn(old(table), f)
      ensures old(table) <= table && index < |table| && table[index] == Some(f)
    {
      var i := 0;
      while i < |table|
        invariant 0 <= i <= |table| && table == old(table)
        invariant SlotOf(table, f, i) == SlotOf(table, f, 0)
      {
        if table[i] == Some(f) { return i; }
        i := i + 1;
      }
      index := |table|;
      table := table + [Some(f)];
    }

    method GetOrCreateGotEntry(sym: String, mem: bool)
      modifies this`table, this`got, this`misbound
      ensures Contents() == GotEntry(old(Contents()), sym, mem)
    {
      if sym !in got {
        var initial := 0;
        if mem && sym in globalSymbols && globalSymbols[sym].Data? {
          initial := globalSymbols[sym].value;
        } else if !mem && sym in globalSymbols && globalSymbols[sym].Func? {
          initial := TableIndexFor(globalSymbols[sym].f);
        } else if sym in globalSymbols {
          misbound := misbound + {sym};
        }
        got := got[sym := initial];
      }
    }

    /** The engine reads the imports of the module one by one. */
    method ResolveImports(imports: seq<Want>) returns (ok: bool)
      modifies this`table, this`got, this`misbound
      ensures Resolved(Contents(), ok) == Resolve(old(Contents()), imports)
    {
      hide GotEntry;
      assert imports[0..] == imports;
      for i := 0 to |imports|
        invariant Resolve(Contents(), imports[i..]) == Resolve(old(Contents()), imports)
      {
        assert imports[i..][0] == imports[i] && imports[i..][1..] == imports[i + 1..];
        match imports[i] {
          case GotMem(sym) => GetOrCreateGotEntry(sym, true);
          case GotFunc(sym) => GetOrCreateGotEntry(sym, false);
          case Env(sym) =>
            if sym !in BUILTINS && sym !in globalSymbols { return false; }
        }
      }
      return true;
    }

    /** Gives every exported function a new slot and points GOT entries and symbols at the exports. */
    method PublishExports(exports: seq<NamedExport>)
      modifies this`table, this`got, this`globalSymbols, this`misbound
      ensures Contents() == Publish(old(Contents()), exports)
    {
      assert exports[0..] == exports;
      for i := 0 to |exports|
        invariant Publish(Contents(), exports[i..]) == Publish(old(Contents()), exports)
      {
        var e := exports[i];
        assert exports[i..][0] == e && exports[i..][1..] == exports[i + 1..];
        if !(UNDERSCORES <= e.name) {
          match e.value {
            case ExFunc(f) =>
              var tableIdx := |table|;
              table := table + [Some(f)];
              if e.name in got { got := got[e.name := tableIdx]; }
              globalSymbols := globalSymbols[e.name := Func(f)];
              misbound := misbound - {e.name};
            case ExGlobal(addr, _) =>
              if e.name in got { got := got[e.name := addr]; }
              globalSymbols := globalSymbols[e.name := Data(addr)];
              misbound := misbound - {e.name};
            case ExOther =>
          }
        }
      }
    }

    /** Imports, instantiation, exports and startup, once memory and table slots are reserved. */
    method LinkModule(name: String, m: Mod, md: Metadata, memoryBase: int, tableBase: nat, replay: bool)
        returns (r: Option<Lib>)
      modifies this`table, this`got, this`globalSymbols, this`loadedLibraries, this`misbound
      ensures Result(Contents(), r) == Link(old(Contents()), name, m, md, memoryBase, tableBase, replay)
    {
      hide Resolve, Publish, RelocateAll;
      var ok := ResolveImports(m.imports);
      var inst := m.instance(memoryBase, tableBase);
      if !ok || inst.None? || |inst.value.elements| > md.tableSize || tableBase + md.tableSize > |table| {
        return None;
      }
      table := Fill(table, tableBase, inst.value.elements);
      var exports := RelocateAll(inst.value.exports, memoryBase);
      PublishExports(exports);
      if !m.relocates || (!replay && !m.constructs) { return None; }
      var lib := Lib(name, memoryBase, tableBase, exports);
      loadedLibraries := loadedLibraries[name := lib];
      return Some(lib);
    }

    method InstantiateSharedLibrary(name: String, m: Mod, md: Metadata, replay: Option<int>) returns (r: Option<Lib>)
      modifies this`table, this`got, this`globalSymbols, this`loadedLibraries, this`allocations, this`misbound
      ensures Result(Contents(), r) == Instantiate(world, old(Contents()), name, m, md, replay)
      ensures r.Some? ==>
                && Placed(world, old(Contents()), md, replay, Contents(), r.value)
                && Installed(m, md, Contents(), r.value) && Published(old(Contents()), m, Contents(), r.value)
                && loadedLibraries == old(loadedLibraries)[name := r.value]
    {
      hide Link, Placed, Installed, Published;
      ghost var was := Contents();
      var memoryBase := 0;
      if md.memorySize > 0 {
        if replay.Some? {
          memoryBase := replay.value;
        } else {
          var answer := world.alloc(allocations);
          allocations := allocations + 1;
          if answer.None? { return None; }
          memoryBase := answer.value;
        }
      }
      var tableBase := 0;
      if md.tableSize > 0 {
        tableBase := |table|;
      }
      table := table + Nulls(md.tableSize);
      r := LinkModule(name, m, md, memoryBase, tableBase, replay.Some?);
      if r.Some? { InstalledAs(world, was, name, m, md, replay, Contents(), r.value); }
    }

    method LoadSharedLibrarySync(name: String, m: Mod, replay: Option<int>, depth: nat) returns (r: Option<Lib>)
      modifies this`table, this`got, this`globalSymbols, this`loadedLibraries, this`allocations, this`misbound
      ensures Result(Contents(), r) == Load(world, old(Contents()), name, m, replay, depth)
      ensures LoadedKept(old(Contents()), Contents())
      ensures r.Some? ==> name in loadedLibraries && loadedLibraries[name] == r.value
      ensures r.Some? && name !in old(loadedLibraries) && m.metadata.Some? ==>
                forall d :: d in m.metadata.value.neededDynlibs ==> d in loadedLibraries
      decreases depth
    {
      hide Instantiate, LoadedKept, Placed, Installed, Published;
      ghost var was := Contents();
      LoadLists(world, was, name, m, replay, depth);
      if Load(world, was, name, m, replay, depth).Ok? {
        var _ := LoadLeaves(world, was, name, m, replay, depth);
      }
      if name in loadedLibraries { return Some(loadedLibraries[name]); }
      if m.metadata.None? || depth == 0 { return None; }
      var md := m.metadata.value;
      if replay.Some? && md.neededDynlibs != [] { return None; }
      var deps := md.neededDynlibs;
      assert deps[0..] == deps;
      for i := 0 to |deps|
        invariant LoadDeps(world, Contents(), deps[i..], depth) == LoadDeps(world, old(Contents()), deps, depth)
      {
        var dep := deps[i];
        assert deps[i..][0] == dep && deps[i..][1..] == deps[i + 1..];
        if dep !in loadedLibraries {
          if dep !in world.libraries { return None; }
          var lib := LoadSharedLibrarySync(dep, world.libraries[dep], None, depth - 1);
          if lib.None? { return None; }
        }
      }
      r := InstantiateSharedLibrary(name, m, md, replay);
    }

    /** The handle a library already has, or a new one. */
    method HandleFor(lib: Lib) returns (handle: int)
      requires Valid()
      modifies this`handleCounter, this`handleMap, this`failed
      ensures Valid() && 0 < handle && Handle(handle, lib) in handleMap && old(handleMap) <= handleMap
      ensures (exists h :: h in old(handleMap) && h.lib == lib) ==> handleMap == old(handleMap) && failed == old(failed)
      ensures (forall h :: h in old(handleMap) ==> h.lib != lib) ==>
                handleMap == old(handleMap) + [Handle(handle, lib)] && handle == old(handleCounter) && !failed
    {
      assert handleMap[0..] == handleMap;
      for i := 0 to |handleMap|
        invariant unchanged(this) && IdOf(handleMap, lib) == IdOf(handleMap[i..], lib)
      {
        if handleMap[i].lib == lib { return handleMap[i].id; }
        assert handleMap[i..][1..] == handleMap[i + 1..];
      }
      handle := handleCounter;
      handleCounter := handleCounter + 1;
      handleMap := handleMap + [Handle(handle, lib)];
      failed := false;
    }

    /** Returns a handle, or 0 when the library cannot be loaded; whatever was done before a failure stays done. */
    method DlopenSync(name: String, m: Mod, replay: Option<int>, depth: nat) returns (handle: int)
      requires Valid()
      modifies this
      ensures Valid() && old(handleMap) <= handleMap
      ensures Contents() == Load(world, old(Contents()), name, m, replay, depth).st
      ensures handle == 0 <==> Load(world, old(Contents()), name, m, replay, depth).Fail?
      ensures handle == 0 ==> failed && handleMap == old(handleMap)
      ensures handle != 0 ==> Handle(handle, Load(world, old(Contents()), name, m, replay, depth).lib) in handleMap
      ensures old(Coherent(Contents())) ==> Coherent(Contents()) && old(table) <= table
    {
      if Coherent(Contents()) { LoadKeeps(world, Contents(), name, m, replay, depth); }
      hide Load, Coherent;
      var lib := LoadSharedLibrarySync(name, m, replay, depth);
      if lib.None? {
        failed := true;
        return 0;
      }
      handle := HandleFor(lib.value);
    }

    /**
     * An exported function comes back as the index of a slot that holds it, appended if it had
     * none; a function known only as a global symbol comes back as the object itself.
     */
    method Dlsym(handle: int, symbolName: String) returns (r: Symbol)
      modifies this`table, this`failed
      ensures r.Index? <==> Sought(handleMap, handle, symbolName).ExFunc?
      ensures r.Index? ==> var f := Sought(handleMap, handle, symbolName).f;
                table == WithSlot(old(table), f) && r.i < |table| && table[r.i] == Some(f)
      ensures !r.Index? ==> table == old(table)
      ensures r.Address? <==> Sought(handleMap, handle, symbolName).ExGlobal? ||
                              (OnlyGlobal(handleMap, handle, symbolName, globalSymbols) &&
                               globalSymbols[symbolName].Data?)
      ensures r.Address? && Sought(handleMap, handle, symbolName).ExGlobal? ==>
                r.a == Sought(handleMap, handle, symbolName).value
      ensures r.Address? && !Sought(handleMap, handle, symbolName).ExGlobal? ==> globalSymbols[symbolName] == Data(r.a)
      ensures r.Object? <==> OnlyGlobal(handleMap, handle, symbolName, globalSymbols) && globalSymbols[symbolName].Func?
      ensures r.Object? ==> globalSymbols[symbolName] == Func(r.f)
      ensures r.NoSymbol? <==> Sought(handleMap, handle, symbolName).ExOther? &&
                               !OnlyGlobal(handleMap, handle, symbolName, globalSymbols)
      ensures failed <==> r.NoSymbol?
    {
      var lib := LibOf(handleMap, handle);
      if lib.None? {
        failed := true;
        return NoSymbol;
      }
      var exp := ExportNamed(lib.value.exports, symbolName);
      if exp.None? {
        if symbolName !in globalSymbols {
          failed := true;
          return NoSymbol;
        }
        failed := false;
        match globalSymbols[symbolName] {
          case Func(f) => return Object(f);
          case Data(value) => return Address(value);
        }
      }
      match exp.value {
        case ExFunc(f) =>
          var i := TableIndexFor(f);
          failed := false;
          return Index(i);
        case ExGlobal(value, _) =>
          failed := false;
          return Address(value);
        case ExOther =>
          failed := true;
          return NoSymbol;
      }
    }
  }

  /** The export a lookup is about; `ExOther` when the handle or the library does not have it. */
  function Sought(hs: seq<Handle>, handle: int, name: String): Exported {
    var lib := LibOf(hs, handle);
    var exp := if lib.Some? then ExportNamed(lib.value.exports, name) else None;
    if exp.Some? then exp.value else ExOther
  }

  /** The handle is valid, its library does not export the name, and the global symbol table has it. */
  predicate OnlyGlobal(hs: seq<Handle>, handle: int, name: String, symbols: map<String, Sym>) {
    var lib := LibOf(hs, handle);
    lib.Some? && ExportNamed(lib.value.exports, name).None? && name in symbols
  }

  lemma InstalledAs(w: World, st: St, name: String, m: Mod, md: Metadata, replay: Option<int>, t: St, lib: Lib)
    requires Instantiate(w, st, name, m, md, replay) == Ok(t, lib)
    ensures Placed(w, st, md, replay, t, lib) && Installed(m, md, t, lib) && Published(st, m, t, lib)
    ensures t.loaded == st.loaded[name := lib]
  {
    hide Instantiate, Placed, Installed, Published;
    InstantiateLeaves(w, st, name, m, md, replay);
  }

  function Result(st: St, r: Option<Lib>): Loaded { if r.Some? then Ok(st, r.value) else Fail(st) }
}
