/**
 * Fork replay: a child process whose function objects are its own (renamed by `rho`) repeats
 * the parent's dlopens with the parent's memory bases, as host/src/dylink.ts prescribes.
 */
module ForkReplay {
  import opened DylinkSection
  import opened Linking
  import opened Wrappers

  type Renaming = Fn -> Fn

  ghost predicate Injective(rho: Renaming) { forall x, y :: rho(x) == rho(y) ==> x == y }

  function RenameSlot(rho: Renaming, s: Option<Fn>): Option<Fn> { if s.Some? then Some(rho(s.value)) else None }

  function RenameSlots(rho: Renaming, t: seq<Option<Fn>>): (r: seq<Option<Fn>>)
    ensures |r| == |t| && forall i :: 0 <= i < |t| ==> r[i] == RenameSlot(rho, t[i])
  {
    seq(|t|, i requires 0 <= i < |t| => RenameSlot(rho, t[i]))
  }

  function RenameSym(rho: Renaming, s: Sym): Sym { match s case Func(f) => Func(rho(f)) case Data(_) => s }

  function RenameSyms(rho: Renaming, m: map<String, Sym>): map<String, Sym> { map k | k in m :: RenameSym(rho, m[k]) }

  function RenameExport(rho: Renaming, e: NamedExport): NamedExport {
    match e.value
    case ExFunc(f) => e.(value := ExFunc(rho(f)))
    case _ => e
  }

  function RenameExports(rho: Renaming, es: seq<NamedExport>): (r: seq<NamedExport>)
    ensures |r| == |es| && forall i :: 0 <= i < |es| ==> r[i] == RenameExport(rho, es[i])
  {
    seq(|es|, i requires 0 <= i < |es| => RenameExport(rho, es[i]))
  }

  function RenameLib(rho: Renaming, l: Lib): Lib { l.(exports := RenameExports(rho, l.exports)) }

  function RenameLibs(rho: Renaming, m: map<String, Lib>): map<String, Lib> { map k | k in m :: RenameLib(rho, m[k]) }

  /** The parent's state as the child has it: the same layout over the child's own functions, and `a` allocations. */
  function Rename(rho: Renaming, st: St, a: nat): St {
    St(RenameSlots(rho, st.table), st.got, RenameSyms(rho, st.symbols), RenameLibs(rho, st.loaded), a, st.misbound)
  }

  function RenameInstance(rho: Renaming, i: Instance): Instance {
    Instance(RenameSlots(rho, i.elements), RenameExports(rho, i.exports))
  }

  /** The same side module, compiled afresh in the child. */
  ghost predicate Twin(rho: Renaming, m: Mod, c: Mod) {
    && c.metadata == m.metadata && c.imports == m.imports && c.relocates == m.relocates
    && forall mb, tb :: c.instance(mb, tb) ==
         match m.instance(mb, tb) case None => None case Some(i) => Some(RenameInstance(rho, i))
  }

  // ---- each part of a load commutes with the renaming ----

  lemma {:induction false} SlotOfRenamed(rho: Renaming, table: seq<Option<Fn>>, f: Fn, i: nat)
    requires Injective(rho) && i <= |table|
    ensures SlotOf(RenameSlots(rho, table), rho(f), i) == SlotOf(table, f, i)
    decreases |table| - i
  {
    if i < |table| { SlotOfRenamed(rho, table, f, i + 1); }
  }

  lemma WithSlotRenamed(rho: Renaming, table: seq<Option<Fn>>, f: Fn)
    requires Injective(rho)
    ensures RenameSlots(rho, WithSlot(table, f)) == WithSlot(RenameSlots(rho, table), rho(f))
    ensures SlotIn(RenameSlots(rho, table), rho(f)) == SlotIn(table, f)
  {
    SlotOfRenamed(rho, table, f, 0);
  }

  lemma GotEntryRenamed(rho: Renaming, a: nat, st: St, sym: String, mem: bool)
    requires Injective(rho)
    ensures GotEntry(Rename(rho, st, a), sym, mem) == Rename(rho, GotEntry(st, sym, mem), a)
  {
    hide WithSlot, SlotIn, RenameSlots, RenameLibs;
    if sym in st.symbols && st.symbols[sym].Func? {
      WithSlotRenamed(rho, st.table, st.symbols[sym].f);
    }
  }

  lemma {:induction false} ResolveRenamed(rho: Renaming, a: nat, st: St, ws: seq<Want>)
    requires Injective(rho)
    ensures Resolve(Rename(rho, st, a), ws) == Resolved(Rename(rho, Resolve(st, ws).st, a), Resolve(st, ws).ok)
    decreases |ws|
  {
    hide GotEntry, RenameSlots, RenameLibs;
    if ws != [] {
      match ws[0] {
        case GotMem(sym) => GotEntryRenamed(rho, a, st, sym, true);
        case GotFunc(sym) => GotEntryRenamed(rho, a, st, sym, false);
        case Env(_) =>
      }
      if ResolveOne(st, ws[0]).ok { ResolveRenamed(rho, a, ResolveOne(st, ws[0]).st, ws[1..]); }
    }
  }

  lemma PublishOneRenamed(rho: Renaming, a: nat, st: St, e: NamedExport)
    ensures PublishOne(Rename(rho, st, a), RenameExport(rho, e)) == Rename(rho, PublishOne(st, e), a)
  {
    hide RenameSlots, RenameSyms, RenameLibs;
    match e.value
    case ExFunc(f) =>
      AppendRenamed(rho, st.table, f);
      DefineRenamed(rho, st.symbols, e.name, Func(f));
    case ExGlobal(value, _) =>
      DefineRenamed(rho, st.symbols, e.name, Data(value));
    case ExOther =>
  }

  lemma AppendRenamed(rho: Renaming, table: seq<Option<Fn>>, f: Fn)
    ensures RenameSlots(rho, table + [Some(f)]) == RenameSlots(rho, table) + [Some(rho(f))]
    ensures |RenameSlots(rho, table)| == |table|
  {
  }

  lemma DefineRenamed(rho: Renaming, m: map<String, Sym>, k: String, s: Sym)
    ensures RenameSyms(rho, m[k := s]) == RenameSyms(rho, m)[k := RenameSym(rho, s)]
  {
  }

  lemma {:induction false} PublishRenamed(rho: Renaming, a: nat, st: St, es: seq<NamedExport>)
    ensures Publish(Rename(rho, st, a), RenameExports(rho, es)) == Rename(rho, Publish(st, es), a)
    decreases |es|
  {
    hide PublishOne, Rename;
    if es != [] {
      PublishOneRenamed(rho, a, st, es[0]);
      PublishRenamed(rho, a, PublishOne(st, es[0]), es[1..]);
      assert RenameExports(rho, es)[1..] == RenameExports(rho, es[1..]);
    }
  }

  lemma RelocateRenamed(rho: Renaming, es: seq<NamedExport>, base: int)
    ensures RelocateAll(RenameExports(rho, es), base) == RenameExports(rho, RelocateAll(es, base))
  {
  }

  lemma FillRenamed(rho: Renaming, a: nat, st: St, base: nat, elements: seq<Option<Fn>>)
    requires base + |elements| <= |st.table|
    ensures Rename(rho, st, a).(table := Fill(Rename(rho, st, a).table, base, RenameSlots(rho, elements)))
         == Rename(rho, st.(table := Fill(st.table, base, elements)), a)
  {
    assert Fill(RenameSlots(rho, st.table), base, RenameSlots(rho, elements))
        == RenameSlots(rho, Fill(st.table, base, elements));
  }

  lemma AddLibRenamed(rho: Renaming, a: nat, st: St, name: String, lib: Lib)
    ensures Rename(rho, st, a).(loaded := Rename(rho, st, a).loaded[name := RenameLib(rho, lib)])
         == Rename(rho, st.(loaded := st.loaded[name := lib]), a)
  {
    hide RenameSlots, RenameSyms, RenameExports;
    assert RenameLibs(rho, st.loaded)[name := RenameLib(rho, lib)] == RenameLibs(rho, st.loaded[name := lib]);
  }

  lemma LinkRenamed(rho: Renaming, a: nat, st: St, name: String, m: Mod, c: Mod, md: Metadata, memoryBase: int,
                    tableBase: nat)
    requires Injective(rho) && Twin(rho, m, c) && Link(st, name, m, md, memoryBase, tableBase, false).Ok?
    ensures var r := Link(st, name, m, md, memoryBase, tableBase, false);
            Link(Rename(rho, st, a), name, c, md, memoryBase, tableBase, true) ==
              Ok(Rename(rho, r.st, a), RenameLib(rho, r.lib))
  {
    var was := Resolve(st, m.imports).st;
    var inst := m.instance(memoryBase, tableBase).value;
    assert c.instance(memoryBase, tableBase) == Some(RenameInstance(rho, inst));
    hide Resolve, Publish, RelocateAll, RenameExports, RenameSlots, Rename, Twin, Injective, Fill;
    ResolveRenamed(rho, a, st, m.imports);
    TableLength(rho, a, was);
    FillRenamed(rho, a, was, tableBase, inst.elements);
    RelocateRenamed(rho, inst.exports, memoryBase);
    var filled := was.(table := Fill(was.table, tableBase, inst.elements));
    PublishRenamed(rho, a, filled, RelocateAll(inst.exports, memoryBase));
    var r := Link(st, name, m, md, memoryBase, tableBase, false);
    AddLibRenamed(rho, a, Publish(filled, RelocateAll(inst.exports, memoryBase)), name, r.lib);
  }

  lemma TableLength(rho: Renaming, a: nat, st: St)
    ensures |Rename(rho, st, a).table| == |st.table|
  {
  }

  // ---- replayed dlopens ----

  lemma GrowRenamed(rho: Renaming, a: nat, st: St, n: nat)
    ensures Rename(rho, st, a).(table := Rename(rho, st, a).table + Nulls(n))
         == Rename(rho, st.(table := st.table + Nulls(n)), a)
  {
    assert RenameSlots(rho, st.table) + Nulls(n) == RenameSlots(rho, st.table + Nulls(n));
  }

  lemma AllocationsRenamed(rho: Renaming, a: nat, st: St, n: nat)
    ensures Rename(rho, st.(allocations := n), a) == Rename(rho, st, a)
  {
  }

  lemma InstantiateRenamed(rho: Renaming, a: nat, w: World, v: World, st: St, name: String, m: Mod, c: Mod,
                           md: Metadata)
    requires Injective(rho) && Twin(rho, m, c) && Instantiate(w, st, name, m, md, None).Ok?
    ensures var r := Instantiate(w, st, name, m, md, None);
            Instantiate(v, Rename(rho, st, a), name, c, md, Some(r.lib.memoryBase)) ==
              Ok(Rename(rho, r.st, a), RenameLib(rho, r.lib))
  {
    hide Link, Rename, Twin, Injective;
    var st1 := if md.memorySize > 0 then st.(allocations := st.allocations + 1) else st;
    var st2 := st1.(table := st1.table + Nulls(md.tableSize));
    var tableBase := if md.tableSize > 0 then |st1.table| else 0;
    var memoryBase := if md.memorySize == 0 then 0 else w.alloc(st.allocations).value;
    LinkBases(st2, name, m, md, memoryBase, tableBase);
    AllocationsRenamed(rho, a, st, st.allocations + 1);
    GrowRenamed(rho, a, st1, md.tableSize);
    TableLength(rho, a, st1);
    LinkRenamed(rho, a, st2, name, m, c, md, memoryBase, tableBase);
  }

  lemma LinkBases(st: St, name: String, m: Mod, md: Metadata, memoryBase: int, tableBase: nat)
    requires Link(st, name, m, md, memoryBase, tableBase, false).Ok?
    ensures Link(st, name, m, md, memoryBase, tableBase, false).lib.memoryBase == memoryBase
  {
  }

  lemma LoadedRenamed(rho: Renaming, a: nat, st: St, name: String)
    ensures name in Rename(rho, st, a).loaded <==> name in st.loaded
    ensures name in st.loaded ==> Rename(rho, st, a).loaded[name] == RenameLib(rho, st.loaded[name])
  {
  }

  lemma LoadRenamed(rho: Renaming, a: nat, w: World, v: World, st: St, name: String, m: Mod, c: Mod, depth: nat,
                    childDepth: nat)
    requires Injective(rho) && Twin(rho, m, c) && childDepth > 0
    requires m.metadata.Some? && m.metadata.value.neededDynlibs == [] && Load(w, st, name, m, None, depth).Ok?
    ensures var r := Load(w, st, name, m, None, depth);
            Load(v, Rename(rho, st, a), name, c, Some(r.lib.memoryBase), childDepth) ==
              Ok(Rename(rho, r.st, a), RenameLib(rho, r.lib))
  {
    hide Instantiate, Rename, Injective;
    LoadedRenamed(rho, a, st, name);
    if name !in st.loaded {
      InstantiateRenamed(rho, a, w, v, st, name, m, c, m.metadata.value);
    }
  }

  /** A dlopen of the parent, and the same module as the child compiles it. */
  datatype Opened = Opened(name: String, parent: Mod, child: Mod)

  datatype Outcome = Failed | Done(st: St, libs: seq<Lib>)

  function ParentRun(w: World, st: St, ops: seq<Opened>, depth: nat): (r: Outcome)
    ensures r.Done? ==> |r.libs| == |ops|
    decreases |ops|
  {
    if ops == [] then Done(st, [])
    else
      var r := Load(w, st, ops[0].name, ops[0].parent, None, depth);
      if r.Fail? then Failed
      else
        var more := ParentRun(w, r.st, ops[1..], depth);
        if more.Failed? then Failed else Done(more.st, [r.lib] + more.libs)
  }

  /** The child repeats the dlopens in order, each with the memory base the parent's library got. */
  function ChildRun(w: World, st: St, ops: seq<Opened>, saved: seq<Lib>, depth: nat): Outcome
    requires |saved| == |ops|
    decreases |ops|
  {
    if ops == [] then Done(st, [])
    else
      var r := Load(w, st, ops[0].name, ops[0].child, Some(saved[0].memoryBase), depth);
      if r.Fail? then Failed
      else
        var more := ChildRun(w, r.st, ops[1..], saved[1..], depth);
        if more.Failed? then Failed else Done(more.st, [r.lib] + more.libs)
  }

  function RenameEach(rho: Renaming, libs: seq<Lib>): (r: seq<Lib>)
    ensures |r| == |libs|
  {
    seq(|libs|, i requires 0 <= i < |libs| => RenameLib(rho, libs[i]))
  }

  lemma RenameNone(rho: Renaming)
    ensures RenameEach(rho, []) == []
  {
  }

  lemma RenameMore(rho: Renaming, l: Lib, ls: seq<Lib>)
    ensures RenameEach(rho, [l] + ls) == [RenameLib(rho, l)] + RenameEach(rho, ls)
  {
    hide RenameLib;
  }

  ghost predicate Replayable(rho: Renaming, ops: seq<Opened>) {
    forall o :: o in ops ==>
      Twin(rho, o.parent, o.child) && o.parent.metadata.Some? && o.parent.metadata.value.neededDynlibs == []
  }

  /**
   * Replay is faithful: from the same initial layout, the parent's successful dlopens of
   * libraries without dependencies succeed in the child, and give it the same table layout over
   * its own functions, the same GOT, and the same table and memory bases.
   */
  lemma {:induction false} ReplayFaithful(rho: Renaming, a: nat, w: World, v: World, st: St, ops: seq<Opened>,
                                          depth: nat, childDepth: nat)
    requires Injective(rho) && Replayable(rho, ops) && childDepth > 0 && ParentRun(w, st, ops, depth).Done?
    ensures var p := ParentRun(w, st, ops, depth);
            ChildRun(v, Rename(rho, st, a), ops, p.libs, childDepth) ==
              Done(Rename(rho, p.st, a), RenameEach(rho, p.libs))
    decreases |ops|
  {
    hide Load, Rename, RenameLib, RenameEach, Injective, Twin;
    if ops == [] {
      RenameNone(rho);
    } else {
      var r := Load(w, st, ops[0].name, ops[0].parent, None, depth);
      assert ops[0] in ops;
      LoadRenamed(rho, a, w, v, st, ops[0].name, ops[0].parent, ops[0].child, depth, childDepth);
      ReplayFaithful(rho, a, w, v, r.st, ops[1..], depth, childDepth);
      var more := ParentRun(w, r.st, ops[1..], depth);
      assert ([r.lib] + more.libs)[1..] == more.libs;
      RenameMore(rho, r.lib, more.libs);
    }
  }

  /** The same GOT values and bases, and slot by slot the same function. */
  ghost predicate SameLayout(rho: Renaming, p: Outcome, c: Outcome)
    requires p.Done?
  {
    && c.Done? && c.st.got == p.st.got && |c.st.table| == |p.st.table| && |c.libs| == |p.libs|
    && (forall i :: 0 <= i < |p.libs| ==>
          c.libs[i].tableBase == p.libs[i].tableBase && c.libs[i].memoryBase == p.libs[i].memoryBase)
    && (forall k: nat, f: Fn :: k < |p.st.table| ==> (p.st.table[k] == Some(f) <==> c.st.table[k] == Some(rho(f))))
  }

  lemma RenamedLayout(rho: Renaming, a: nat, st: St, libs: seq<Lib>)
    requires Injective(rho)
    ensures SameLayout(rho, Done(st, libs), Done(Rename(rho, st, a), RenameEach(rho, libs)))
  {
    hide RenameSyms, RenameLibs, RenameExports;
  }

  lemma ReplayLayout(rho: Renaming, a: nat, w: World, v: World, st: St, ops: seq<Opened>, depth: nat, childDepth: nat)
    requires Injective(rho) && Replayable(rho, ops) && childDepth > 0 && ParentRun(w, st, ops, depth).Done?
    ensures var p := ParentRun(w, st, ops, depth);
            SameLayout(rho, p, ChildRun(v, Rename(rho, st, a), ops, p.libs, childDepth))
  {
    hide ParentRun, ChildRun, SameLayout, Rename, RenameEach, Replayable;
    ReplayFaithful(rho, a, w, v, st, ops, depth, childDepth);
    var p := ParentRun(w, st, ops, depth);
    RenamedLayout(rho, a, p.st, p.libs);
  }

  // ---- why nothing else may grow the table ----

  lemma BaseIsLength(w: World, st: St, name: String, m: Mod, replay: Option<int>, depth: nat)
    requires m.metadata.Some? && m.metadata.value.neededDynlibs == [] && m.metadata.value.tableSize > 0
    requires name !in st.loaded && Load(w, st, name, m, replay, depth).Ok?
    ensures Load(w, st, name, m, replay, depth).lib.tableBase == |st.table|
  {
    hide Resolve, Publish;
  }

  /**
   * A library opened after a `dlsym` of function `f` gets the table base of a replay without that
   * `dlsym` exactly when `f` already had a slot.
   */
  lemma LookupShifts(w: World, v: World, st: St, f: Fn, name: String, m: Mod, base: int, depth: nat)
    requires m.metadata.Some? && m.metadata.value.neededDynlibs == [] && m.metadata.value.tableSize > 0
    requires name !in st.loaded
    requires Load(w, Apply(w, st, Look(f)), name, m, None, depth).Ok? && Load(v, st, name, m, Some(base), depth).Ok?
    ensures SlotOf(st.table, f, 0).Some? <==>
              Load(w, Apply(w, st, Look(f)), name, m, None, depth).lib.tableBase ==
              Load(v, st, name, m, Some(base), depth).lib.tableBase
  {
    hide Load;
    BaseIsLength(w, Apply(w, st, Look(f)), name, m, None, depth);
    BaseIsLength(v, st, name, m, Some(base), depth);
  }

  /** A dlopen that fails has grown the table by at least its own slots, unless it failed before they were made. */
  lemma FailureGrows(w: World, st: St, name: String, m: Mod, depth: nat)
    requires Load(w, st, name, m, None, depth).Fail? && m.metadata.Some? && m.metadata.value.neededDynlibs == []
    ensures var md, t := m.metadata.value, Load(w, st, name, m, None, depth).st;
            if depth == 0 || (md.memorySize > 0 && w.alloc(st.allocations).None?) then t.table == st.table
            else |t.table| >= |st.table| + md.tableSize
  {
    var md := m.metadata.value;
    if depth > 0 && !(md.memorySize > 0 && w.alloc(st.allocations).None?) {
      var st1 := if md.memorySize > 0 then st.(allocations := st.allocations + 1) else st;
      var memoryBase := if md.memorySize == 0 then 0 else w.alloc(st.allocations).value;
      var tableBase := if md.tableSize > 0 then |st1.table| else 0;
      LinkGrows(st1.(table := st1.table + Nulls(md.tableSize)), name, m, md, memoryBase, tableBase);
    }
  }

  lemma LinkGrows(st: St, name: String, m: Mod, md: Metadata, memoryBase: int, tableBase: nat)
    ensures |Link(st, name, m, md, memoryBase, tableBase, false).st.table| >= |st.table|
  {
    hide Resolve, Publish, RelocateAll;
    ResolveLength(st, m.imports);
    var r, inst := Resolve(st, m.imports).st, m.instance(memoryBase, tableBase);
    if inst.Some? && tableBase + |inst.value.elements| <= |r.table| {
      PublishLength(r.(table := Fill(r.table, tableBase, inst.value.elements)),
                    RelocateAll(inst.value.exports, memoryBase));
    }
  }

  lemma {:induction false} ResolveLength(st: St, ws: seq<Want>)
    ensures |Resolve(st, ws).st.table| >= |st.table|
    decreases |ws|
  {
    if ws != [] && ResolveOne(st, ws[0]).ok { ResolveLength(ResolveOne(st, ws[0]).st, ws[1..]); }
  }

  lemma {:induction false} PublishLength(st: St, es: seq<NamedExport>)
    ensures |Publish(st, es).table| >= |st.table|
    decreases |es|
  {
    if es != [] { PublishLength(PublishOne(st, es[0]), es[1..]); }
  }

  /**
   * A library opened after a dlopen that failed gets the table base of a replay of the successes
   * alone exactly when the failure left the table as long as it was.
   */
  lemma FailureShifts(w: World, v: World, st: St, failed: Call, name: String, m: Mod, base: int, depth: nat)
    requires failed.Open? && Load(w, st, failed.name, failed.m, failed.replay, failed.depth).Fail?
    requires m.metadata.Some? && m.metadata.value.neededDynlibs == [] && m.metadata.value.tableSize > 0
    requires name !in st.loaded && name !in Apply(w, st, failed).loaded
    requires Load(w, Apply(w, st, failed), name, m, None, depth).Ok? && Load(v, st, name, m, Some(base), depth).Ok?
    ensures |Apply(w, st, failed).table| == |st.table| <==>
              Load(w, Apply(w, st, failed), name, m, None, depth).lib.tableBase ==
              Load(v, st, name, m, Some(base), depth).lib.tableBase
  {
    hide Load;
    BaseIsLength(w, Apply(w, st, failed), name, m, None, depth);
    BaseIsLength(v, st, name, m, Some(base), depth);
  }
}
