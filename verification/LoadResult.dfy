/**
 * What one load of a library leaves behind, export by export and slot by slot: the result of
 * `instantiateSharedLibrary` in host/src/dylink.ts.
 */
module LoadResult {
  import opened DylinkSection
  import opened Int32
  import opened Linking
  import opened Wrappers

  // ---- exports ----

  /** An export that defines its name: a function or a global, not one of the `__` names. */
  predicate Defines(e: NamedExport) { !(Ascii("__") <= e.name) && (e.value.ExFunc? || e.value.ExGlobal?) }

  /** The last export that defines its name. */
  predicate Last(es: seq<NamedExport>, i: nat)
    requires i < |es|
  {
    Defines(es[i]) && forall j :: i < j < |es| ==> !(Defines(es[j]) && es[j].name == es[i].name)
  }

  predicate Undefined(es: seq<NamedExport>, sym: String) {
    forall i :: 0 <= i < |es| ==> !(Defines(es[i]) && es[i].name == sym)
  }

  /** A name that no export defines keeps its symbol and its GOT entry. */
  lemma {:induction false} OthersStay(st: St, es: seq<NamedExport>, sym: String)
    requires Undefined(es, sym)
    ensures var t := Publish(st, es);
            && st.table <= t.table && t.loaded == st.loaded && t.allocations == st.allocations
            && (sym in t.symbols <==> sym in st.symbols) && (sym in st.symbols ==> t.symbols[sym] == st.symbols[sym])
            && (sym in t.got <==> sym in st.got) && (sym in st.got ==> t.got[sym] == st.got[sym])
    decreases |es|
  {
    if es != [] {
      assert !(Defines(es[0]) && es[0].name == sym);
      forall i | 0 <= i < |es| - 1
        ensures !(Defines(es[1..][i]) && es[1..][i].name == sym)
      {
        assert es[1..][i] == es[i + 1];
      }
      OthersStay(PublishOne(st, es[0]), es[1..], sym);
    }
  }

  lemma {:induction false} TableGrows(st: St, es: seq<NamedExport>)
    ensures var t := Publish(st, es);
            && st.table <= t.table && t.loaded == st.loaded && t.allocations == st.allocations
            && t.got.Keys == st.got.Keys
    decreases |es|
  {
    if es != [] {
      assert PublishOne(st, es[0]).got.Keys == st.got.Keys;
      TableGrows(PublishOne(st, es[0]), es[1..]);
    }
  }

  /** What the last export of a name leaves: the symbol, and in the GOT entry, if there is one, a new
      slot with the function or the address. */
  ghost predicate PublishedAs(st: St, t: St, name: String, value: Exported) {
    match value
    case ExFunc(f) =>
      && name in t.symbols && t.symbols[name] == Func(f)
      && (name in t.got ==> |st.table| <= t.got[name] < |t.table| && t.table[t.got[name]] == Some(f))
    case ExGlobal(a, _) =>
      && name in t.symbols && t.symbols[name] == Data(a)
      && (name in t.got ==> t.got[name] == a)
    case ExOther => true
  }

  lemma {:induction false} ExportPublished(st: St, es: seq<NamedExport>, i: nat)
    requires i < |es| && Last(es, i)
    ensures PublishedAs(st, Publish(st, es), es[i].name, es[i].value)
    decreases |es|
  {
    var mid := PublishOne(st, es[0]);
    if i == 0 {
      forall j | 0 <= j < |es| - 1
        ensures !(Defines(es[1..][j]) && es[1..][j].name == es[0].name)
      {
        assert es[1..][j] == es[j + 1];
      }
      OthersStay(mid, es[1..], es[0].name);
    } else {
      assert es[1..][i - 1] == es[i];
      forall j | i - 1 < j < |es| - 1
        ensures !(Defines(es[1..][j]) && es[1..][j].name == es[i].name)
      {
        assert es[1..][j] == es[j + 1];
      }
      assert mid.got.Keys == st.got.Keys;
      ExportPublished(mid, es[1..], i - 1);
    }
  }

  // ---- imports ----

  predicate Supplied(st: St, sym: String) {
    || sym in st.symbols || sym == Ascii("memory") || sym == Ascii("__indirect_function_table")
    || sym == Ascii("__memory_base") || sym == Ascii("__table_base")
    || sym == Ascii("__stack_pointer") || sym == Ascii("__c_longjmp")
  }

  lemma SuppliedOrKnown(st: St, sym: String)
    ensures ResolveOne(st, Env(sym)).ok <==> Supplied(st, sym)
  {
    hide Ascii;
  }

  /** Every import is looked up unless one cannot be supplied; GOT entries that exist are not touched. */
  lemma {:induction false} ImportsResolved(st: St, ws: seq<Want>)
    ensures var r := Resolve(st, ws);
            && (r.ok <==> forall sym :: Env(sym) in ws ==> Supplied(st, sym))
            && st.table <= r.st.table && r.st.symbols == st.symbols
            && r.st.loaded == st.loaded && r.st.allocations == st.allocations
            && (forall sym :: sym in st.got ==> sym in r.st.got && r.st.got[sym] == st.got[sym])
            && (r.ok ==> forall sym :: GotMem(sym) in ws || GotFunc(sym) in ws ==> sym in r.st.got)
    decreases |ws|
  {
    hide Supplied, WithSlot, SlotIn, Ascii;
    if ws != [] {
      var r := ResolveOne(st, ws[0]);
      if ws[0].Env? {
        SuppliedOrKnown(st, ws[0].sym);
      } else {
        EntryMade(st, ws[0].sym, ws[0].GotMem?);
      }
      assert ws == [ws[0]] + ws[1..];
      if r.ok {
        ImportsResolved(r.st, ws[1..]);
        forall sym | Env(sym) in ws
          ensures Supplied(r.st, sym) <==> Supplied(st, sym)
        {
          SameSupply(st, r.st, sym);
        }
      }
    }
  }

  lemma SameSupply(st: St, t: St, sym: String)
    requires t.symbols == st.symbols
    ensures Supplied(t, sym) <==> Supplied(st, sym)
  {
  }

  lemma EntryMade(st: St, sym: String, mem: bool)
    ensures var t := GotEntry(st, sym, mem);
            && sym in t.got && st.table <= t.table && t.symbols == st.symbols
            && t.loaded == st.loaded && t.allocations == st.allocations
            && (forall s :: s in st.got ==> s in t.got && t.got[s] == st.got[s])
  {
  }

  // ---- the load ----

  /** The exports of a library at its memory base: the address of an immutable global is moved by the base. */
  ghost predicate Moved(raw: NamedExport, e: NamedExport, memoryBase: int) {
    && e.name == raw.name
    && if raw.value.ExGlobal? && !raw.value.mutable then
         e.value.ExGlobal? && !e.value.mutable && -0x8000_0000 <= e.value.value < 0x8000_0000
         && (e.value.value - raw.value.value - memoryBase) % 0x1_0000_0000 == 0
       else e.value == raw.value
  }

  /** Memory at the allocator's answer, or where the replayed parent had it; table slots at the old end
      of the table. */
  ghost predicate Placed(w: World, st: St, md: Metadata, replay: Option<int>, t: St, lib: Lib) {
    && (md.memorySize == 0 ==> lib.memoryBase == 0 && t.allocations == st.allocations)
    && (md.memorySize > 0 && replay.Some? ==> lib.memoryBase == replay.value && t.allocations == st.allocations)
    && (md.memorySize > 0 && replay.None? ==>
          w.alloc(st.allocations) == Some(lib.memoryBase) && t.allocations == st.allocations + 1)
    && lib.tableBase == (if md.tableSize > 0 then |st.table| else 0)
    && |st.table| + md.tableSize <= |t.table| && st.table == t.table[..|st.table|]
  }

  /** The module's elements are in its table slots, and its exports are moved to the memory base. */
  ghost predicate Installed(m: Mod, md: Metadata, t: St, lib: Lib) {
    var inst := m.instance(lib.memoryBase, lib.tableBase);
    && inst.Some? && |inst.value.elements| <= md.tableSize && 0 <= lib.tableBase
    && (forall i :: 0 <= i < |inst.value.elements| ==>
          lib.tableBase + i < |t.table| && t.table[lib.tableBase + i] == inst.value.elements[i])
    && |lib.exports| == |inst.value.exports|
    && (forall i :: 0 <= i < |lib.exports| ==> Moved(inst.value.exports[i], lib.exports[i], lib.memoryBase))
  }

  /** Every name the library defines is published, every other is as it was, and the GOT has what was asked for. */
  ghost predicate Published(st: St, m: Mod, t: St, lib: Lib) {
    && (forall i: nat :: i < |lib.exports| && Last(lib.exports, i) ==>
          PublishedAs(st, t, lib.exports[i].name, lib.exports[i].value))
    && (forall sym :: Undefined(lib.exports, sym) ==>
          && (sym in t.symbols <==> sym in st.symbols) && (sym in st.symbols ==> t.symbols[sym] == st.symbols[sym])
          && (sym in st.got ==> sym in t.got && t.got[sym] == st.got[sym]))
    && (forall sym :: GotMem(sym) in m.imports || GotFunc(sym) in m.imports ==> sym in t.got)
  }

  lemma MovedAll(raw: seq<NamedExport>, memoryBase: int)
    ensures var es := RelocateAll(raw, memoryBase);
            |es| == |raw| && forall i :: 0 <= i < |es| ==> Moved(raw[i], es[i], memoryBase)
  {
    var es := RelocateAll(raw, memoryBase);
    forall i | 0 <= i < |es|
      ensures Moved(raw[i], es[i], memoryBase)
    {
      assert es[i] == Relocate(raw[i], memoryBase);
    }
  }

  lemma FilledIn(table: seq<Option<Fn>>, base: nat, elements: seq<Option<Fn>>, i: nat)
    requires base + |elements| <= |table| && i < |elements|
    ensures Fill(table, base, elements)[base + i] == elements[i]
  {
  }

  /** The part of a load after memory and table slots are reserved. */
  lemma LinkLeaves(st: St, name: String, m: Mod, md: Metadata, memoryBase: int, tableBase: nat, replay: bool,
                   below: nat)
    requires Link(st, name, m, md, memoryBase, tableBase, replay).Ok? && |st.table| == below + md.tableSize
    requires tableBase == if md.tableSize > 0 then below else 0
    ensures var Ok(t, lib) := Link(st, name, m, md, memoryBase, tableBase, replay);
            && lib.name == name && lib.memoryBase == memoryBase && lib.tableBase == tableBase
            && t.loaded == st.loaded[name := lib] && t.allocations == st.allocations
            && |st.table| <= |t.table| && t.table[..below] == st.table[..below]
            && Installed(m, md, t, lib)
  {
    hide Resolve, Publish, RelocateAll, Moved, Supplied;
    var Ok(t, lib) := Link(st, name, m, md, memoryBase, tableBase, replay);
    var r := Resolve(st, m.imports);
    ImportsResolved(st, m.imports);
    var inst := m.instance(memoryBase, tableBase).value;
    var filled := r.st.(table := Fill(r.st.table, tableBase, inst.elements));
    TableGrows(filled, lib.exports);
    MovedAll(inst.exports, memoryBase);
    forall i | 0 <= i < |inst.elements|
      ensures t.table[tableBase + i] == inst.elements[i]
    {
      FilledIn(r.st.table, tableBase, inst.elements, i);
    }
  }

  lemma LinkPublishes(st: St, name: String, m: Mod, md: Metadata, memoryBase: int, tableBase: nat, replay: bool)
    requires Link(st, name, m, md, memoryBase, tableBase, replay).Ok?
    ensures var Ok(t, lib) := Link(st, name, m, md, memoryBase, tableBase, replay);
            Published(st, m, t, lib)
  {
    hide Resolve, Publish, RelocateAll, Supplied, Last, Undefined;
    var Ok(t, lib) := Link(st, name, m, md, memoryBase, tableBase, replay);
    var r := Resolve(st, m.imports);
    ImportsResolved(st, m.imports);
    var inst := m.instance(memoryBase, tableBase).value;
    var filled := r.st.(table := Fill(r.st.table, tableBase, inst.elements));
    TableGrows(filled, lib.exports);
    forall i: nat | i < |lib.exports| && Last(lib.exports, i)
      ensures PublishedAs(st, t, lib.exports[i].name, lib.exports[i].value)
    {
      ExportPublished(filled, lib.exports, i);
    }
    forall sym | Undefined(lib.exports, sym)
      ensures && (sym in t.symbols <==> sym in st.symbols) && (sym in st.symbols ==> t.symbols[sym] == st.symbols[sym])
              && (sym in st.got ==> sym in t.got && t.got[sym] == st.got[sym])
    {
      OthersStay(filled, lib.exports, sym);
    }
  }

  /**
   * What a successful load comes to: where the library lies, what is in its table slots, that its
   * exports are moved to its memory base, and that each name it defines is published.
   */
  lemma InstantiateLeaves(w: World, st: St, name: String, m: Mod, md: Metadata, replay: Option<int>)
    requires Instantiate(w, st, name, m, md, replay).Ok?
    ensures var Ok(t, lib) := Instantiate(w, st, name, m, md, replay);
            && t.loaded == st.loaded[name := lib] && lib.name == name
            && Placed(w, st, md, replay, t, lib) && Installed(m, md, t, lib) && Published(st, m, t, lib)
  {
    hide Link, Installed, Published;
    var asks := md.memorySize > 0 && replay.None?;
    var answer := w.alloc(st.allocations);
    var st1 := if asks then st.(allocations := st.allocations + 1) else st;
    var memoryBase := if md.memorySize == 0 then 0 else if asks then answer.value else replay.value;
    var tableBase := if md.tableSize > 0 then |st1.table| else 0;
    var st2 := st1.(table := st1.table + Nulls(md.tableSize));
    LinkLeaves(st2, name, m, md, memoryBase, tableBase, replay.Some?, |st.table|);
    LinkPublishes(st2, name, m, md, memoryBase, tableBase, replay.Some?);
    var Ok(t, lib) := Instantiate(w, st, name, m, md, replay);
    Earlier(st, st2, m, t, lib);
  }

  /** Reserving memory and table slots changes neither symbols nor GOT. */
  lemma Earlier(st: St, st2: St, m: Mod, t: St, lib: Lib)
    requires Published(st2, m, t, lib)
    requires st2.symbols == st.symbols && st2.got == st.got && |st.table| <= |st2.table|
    ensures Published(st, m, t, lib)
  {
    hide Last, Undefined;
    forall i: nat | i < |lib.exports| && Last(lib.exports, i)
      ensures PublishedAs(st, t, lib.exports[i].name, lib.exports[i].value)
    {
      assert PublishedAs(st2, t, lib.exports[i].name, lib.exports[i].value);
    }
  }

  /** A load fails for want of memory, of a symbol, of a module that instantiates and fits its table slots,
      or when startup code throws; a replay does not construct. Nothing else makes it fail. */
  lemma FailsExactly(w: World, st: St, name: String, m: Mod, md: Metadata, replay: Option<int>)
    ensures var answer := w.alloc(st.allocations);
            var memoryBase := if md.memorySize == 0 then 0 else if replay.Some? then replay.value
                              else if answer.Some? then answer.value else 0;
            var inst := m.instance(memoryBase, if md.tableSize > 0 then |st.table| else 0);
            Instantiate(w, st, name, m, md, replay).Fail? <==>
              || (md.memorySize > 0 && replay.None? && answer.None?)
              || (exists sym :: Env(sym) in m.imports && !Supplied(st, sym))
              || inst.None? || |inst.value.elements| > md.tableSize
              || !m.relocates || (replay.None? && !m.constructs)
  {
    hide Resolve, Publish, RelocateAll, Supplied;
    var asks := md.memorySize > 0 && replay.None?;
    var st1 := if asks then st.(allocations := st.allocations + 1) else st;
    var st2 := st1.(table := st1.table + Nulls(md.tableSize));
    ImportsResolved(st2, m.imports);
    forall sym ensures Supplied(st2, sym) <==> Supplied(st, sym) { SameSupply(st, st2, sym); }
  }

  // ---- a library and its dependencies ----

  /** Libraries stay loaded, as they were. */
  ghost predicate LoadedKept(st: St, t: St) {
    forall n :: n in st.loaded ==> n in t.loaded && t.loaded[n] == st.loaded[n]
  }

  lemma FailedUnlisted(w: World, st: St, name: String, m: Mod, md: Metadata, replay: Option<int>)
    ensures var r := Instantiate(w, st, name, m, md, replay);
            && (r.Fail? ==> r.st.loaded == st.loaded) && (r.Ok? ==> r.st.loaded == st.loaded[name := r.lib])
  {
    hide Resolve, Publish, RelocateAll, Supplied;
    forall s: St ensures Resolve(s, m.imports).st.loaded == s.loaded { ImportsResolved(s, m.imports); }
    forall s: St, es: seq<NamedExport> ensures Publish(s, es).loaded == s.loaded { TableGrows(s, es); }
  }

  lemma {:induction false} LoadLists(w: World, st: St, name: String, m: Mod, replay: Option<int>, depth: nat)
    ensures var r := Load(w, st, name, m, replay, depth);
            LoadedKept(st, r.st) && (r.Ok? ==> name in r.st.loaded && r.st.loaded[name] == r.lib)
    decreases depth, 1, 0
  {
    hide Instantiate;
    if name !in st.loaded && m.metadata.Some? && depth > 0 {
      var md := m.metadata.value;
      DepsListed(w, st, md.neededDynlibs, depth);
      FailedUnlisted(w, LoadDeps(w, st, md.neededDynlibs, depth).st, name, m, md, replay);
    }
  }

  lemma {:induction false} DepsListed(w: World, st: St, deps: seq<String>, depth: nat)
    requires depth > 0
    ensures var r := LoadDeps(w, st, deps, depth);
            LoadedKept(st, r.st) && (r.ok ==> forall d :: d in deps ==> d in r.st.loaded)
    decreases depth, 0, |deps|
  {
    hide Load;
    if deps != [] {
      assert deps == [deps[0]] + deps[1..];
      if deps[0] in st.loaded {
        DepsListed(w, st, deps[1..], depth);
      } else if deps[0] in w.libraries {
        var m := w.libraries[deps[0]];
        LoadLists(w, st, deps[0], m, None, depth - 1);
        var r := Load(w, st, deps[0], m, None, depth - 1);
        if r.Ok? { DepsListed(w, r.st, deps[1..], depth); }
      }
    }
  }

  /**
   * A successful load. A library already loaded is given back as it is; otherwise all that it needs
   * is loaded first, as far as the state `mid`, and the library is installed and published on top.
   */
  lemma LoadLeaves(w: World, st: St, name: String, m: Mod, replay: Option<int>, depth: nat) returns (mid: St)
    requires Load(w, st, name, m, replay, depth).Ok?
    ensures var Ok(t, lib) := Load(w, st, name, m, replay, depth);
            && LoadedKept(st, t) && name in t.loaded && t.loaded[name] == lib
            && (name in st.loaded ==> t == st)
            && (name !in st.loaded ==>
                  && m.metadata.Some? && depth > 0
                  && var md := m.metadata.value;
                     && (forall d :: d in md.neededDynlibs ==> d in mid.loaded && d in t.loaded)
                     && Resolved(mid, true) == LoadDeps(w, st, md.neededDynlibs, depth)
                     && Placed(w, mid, md, replay, t, lib) && Installed(m, md, t, lib) && Published(mid, m, t, lib))
  {
    hide Instantiate, Placed, Installed, Published, LoadDeps;
    mid := st;
    LoadLists(w, st, name, m, replay, depth);
    if name !in st.loaded {
      var md := m.metadata.value;
      mid := LoadDeps(w, st, md.neededDynlibs, depth).st;
      DepsListed(w, st, md.neededDynlibs, depth);
      InstantiateLeaves(w, mid, name, m, md, replay);
    }
  }
}
