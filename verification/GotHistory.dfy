/**
 * The requests for GOT entries and the definitions of symbols that the calls of host/src/dylink.ts
 * make, in order, and what they decide about the GOT.
 */
module GotHistory {
  import opened DylinkSection
  import opened Linking
  import opened Wrappers

  /** A library asks for a GOT entry, as data or as a function, or defines a symbol. */
  datatype Act = Asked(sym: String, mem: bool) | Defined(sym: String, as_: Sym)

  // ---- what the calls do, in order ----

  function WantActs(w: Want): seq<Act> {
    match w
    case GotMem(sym) => [Asked(sym, true)]
    case GotFunc(sym) => [Asked(sym, false)]
    case Env(_) => []
  }

  function ResolveActs(st: St, ws: seq<Want>): seq<Act>
    decreases |ws|
  {
    if ws == [] then []
    else
      var r := ResolveOne(st, ws[0]);
      WantActs(ws[0]) + if r.ok then ResolveActs(r.st, ws[1..]) else []
  }

  function ExportActs(e: NamedExport): seq<Act> {
    if UNDERSCORES <= e.name then []
    else
      match e.value
      case ExFunc(f) => [Defined(e.name, Func(f))]
      case ExGlobal(value, _) => [Defined(e.name, Data(value))]
      case ExOther => []
  }

  function PublishActs(es: seq<NamedExport>): seq<Act>
    decreases |es|
  {
    if es == [] then [] else ExportActs(es[0]) + PublishActs(es[1..])
  }

  function LinkActs(st: St, m: Mod, md: Metadata, memoryBase: int, tableBase: nat): seq<Act> {
    var r := Resolve(st, m.imports);
    var inst := m.instance(memoryBase, tableBase);
    ResolveActs(st, m.imports) +
    if !r.ok || inst.None? || |inst.value.elements| > md.tableSize || tableBase + md.tableSize > |r.st.table| then []
    else PublishActs(RelocateAll(inst.value.exports, memoryBase))
  }

  function InstantiateActs(w: World, st: St, m: Mod, md: Metadata, replay: Option<int>): seq<Act> {
    var asks := md.memorySize > 0 && replay.None?;
    var answer := w.alloc(st.allocations);
    var st1 := if asks then st.(allocations := st.allocations + 1) else st;
    if asks && answer.None? then []
    else
      var memoryBase := if md.memorySize == 0 then 0 else if asks then answer.value else replay.value;
      var tableBase := if md.tableSize > 0 then |st1.table| else 0;
      LinkActs(st1.(table := st1.table + Nulls(md.tableSize)), m, md, memoryBase, tableBase)
  }

  function LoadActs(w: World, st: St, name: String, m: Mod, replay: Option<int>, depth: nat): seq<Act>
    decreases depth, 1, 0
  {
    if name in st.loaded || m.metadata.None? || depth == 0 then []
    else
      var md := m.metadata.value;
      if replay.Some? && md.neededDynlibs != [] then []
      else
        var r := LoadDeps(w, st, md.neededDynlibs, depth);
        DepsActs(w, st, md.neededDynlibs, depth) + if r.ok then InstantiateActs(w, r.st, m, md, replay) else []
  }

  function DepsActs(w: World, st: St, deps: seq<String>, depth: nat): seq<Act>
    requires depth > 0
    decreases depth, 0, |deps|
  {
    if deps == [] then []
    else if deps[0] in st.loaded then DepsActs(w, st, deps[1..], depth)
    else if deps[0] !in w.libraries then []
    else
      var r := Load(w, st, deps[0], w.libraries[deps[0]], None, depth - 1);
      LoadActs(w, st, deps[0], w.libraries[deps[0]], None, depth - 1) +
      if r.Fail? then [] else DepsActs(w, r.st, deps[1..], depth)
  }

  function CallActs(w: World, st: St, c: Call): seq<Act> {
    match c
    case Open(name, m, replay, depth) => LoadActs(w, st, name, m, replay, depth)
    case Look(_) => []
  }

  function RunActs(w: World, st: St, cs: seq<Call>): seq<Act>
    decreases |cs|
  {
    if cs == [] then [] else CallActs(w, st, cs[0]) + RunActs(w, Apply(w, st, cs[0]), cs[1..])
  }

  // ---- what of the state they decide ----

  /** Which GOT entries exist, what the symbols stand for, and which entries are misbound. */
  datatype View = View(asked: set<String>, symbols: map<String, Sym>, misbound: set<String>)

  function ViewOf(st: St): View { View(st.got.Keys, st.symbols, st.misbound) }

  /** An entry asked for as data is wrong for a function, and the other way round. */
  predicate WrongFor(symbols: map<String, Sym>, sym: String, mem: bool) {
    sym in symbols && symbols[sym].Func? == mem
  }

  function ActOn(v: View, a: Act): View {
    match a
    case Asked(sym, mem) =>
      if sym in v.asked then v
      else v.(asked := v.asked + {sym}, misbound := v.misbound + if WrongFor(v.symbols, sym, mem) then {sym} else {})
    case Defined(sym, s) => v.(symbols := v.symbols[sym := s], misbound := v.misbound - {sym})
  }

  function ActAll(v: View, acts: seq<Act>): View
    decreases |acts|
  {
    if acts == [] then v else ActOn(ActAll(v, acts[..|acts| - 1]), acts[|acts| - 1])
  }

  lemma {:induction false} ActConcat(v: View, a: seq<Act>, b: seq<Act>)
    ensures ActAll(v, a + b) == ActAll(ActAll(v, a), b)
    decreases |b|
  {
    hide ActOn;
    if b == [] {
      assert a + b == a;
    } else {
      var n := |b| - 1;
      ActConcat(v, a, b[..n]);
      assert (a + b)[..|a + b| - 1] == a + b[..n];
    }
  }

  lemma ActNone(v: View)
    ensures ActAll(v, []) == v
  {
  }

  lemma ActSingle(v: View, a: Act)
    ensures ActAll(v, [a]) == ActOn(v, a)
  {
    hide ActOn;
    assert [a][..0] == [];
    ActNone(v);
  }

  lemma WantView(st: St, w: Want)
    ensures ViewOf(ResolveOne(st, w).st) == ActAll(ViewOf(st), WantActs(w))
  {
    hide WithSlot, SlotIn;
    ActNone(ViewOf(st));
    match w
    case GotMem(sym) => ActSingle(ViewOf(st), Asked(sym, true)); GotView(st, sym, true);
    case GotFunc(sym) => ActSingle(ViewOf(st), Asked(sym, false)); GotView(st, sym, false);
    case Env(_) =>
  }

  lemma GotView(st: St, sym: String, mem: bool)
    ensures ViewOf(GotEntry(st, sym, mem)) == ActOn(ViewOf(st), Asked(sym, mem))
  {
    hide WithSlot, SlotIn;
    var a, b := ViewOf(GotEntry(st, sym, mem)), ActOn(ViewOf(st), Asked(sym, mem));
    assert a.asked == b.asked && a.misbound == b.misbound;
  }

  lemma {:induction false} ResolveView(st: St, ws: seq<Want>)
    ensures ViewOf(Resolve(st, ws).st) == ActAll(ViewOf(st), ResolveActs(st, ws))
    decreases |ws|
  {
    hide ActAll, ViewOf, ResolveOne, WantActs;
    if ws == [] {
      ActNone(ViewOf(st));
    } else {
      var r := ResolveOne(st, ws[0]);
      WantView(st, ws[0]);
      var more := if r.ok then ResolveActs(r.st, ws[1..]) else [];
      ActConcat(ViewOf(st), WantActs(ws[0]), more);
      ActNone(ViewOf(r.st));
      if r.ok { ResolveView(r.st, ws[1..]); }
    }
  }

  lemma ExportView(st: St, e: NamedExport)
    ensures ViewOf(PublishOne(st, e)) == ActAll(ViewOf(st), ExportActs(e))
  {
    ActNone(ViewOf(st));
    var t := PublishOne(st, e);
    assert t.got.Keys == st.got.Keys;
    match e.value
    case ExFunc(f) => ActSingle(ViewOf(st), Defined(e.name, Func(f)));
    case ExGlobal(value, _) => ActSingle(ViewOf(st), Defined(e.name, Data(value)));
    case ExOther =>
  }

  lemma {:induction false} PublishView(st: St, es: seq<NamedExport>)
    ensures ViewOf(Publish(st, es)) == ActAll(ViewOf(st), PublishActs(es))
    decreases |es|
  {
    hide ActAll, ViewOf, PublishOne, ExportActs;
    if es == [] {
      ActNone(ViewOf(st));
    } else {
      ExportView(st, es[0]);
      ActConcat(ViewOf(st), ExportActs(es[0]), PublishActs(es[1..]));
      PublishView(PublishOne(st, es[0]), es[1..]);
    }
  }

  lemma LinkView(st: St, name: String, m: Mod, md: Metadata, memoryBase: int, tableBase: nat, replay: bool)
    ensures ViewOf(Link(st, name, m, md, memoryBase, tableBase, replay).st)
         == ActAll(ViewOf(st), LinkActs(st, m, md, memoryBase, tableBase))
  {
    hide ActAll, Resolve, Publish, ResolveActs, PublishActs, RelocateAll;
    var r := Resolve(st, m.imports);
    var inst := m.instance(memoryBase, tableBase);
    ResolveView(st, m.imports);
    ActNone(ViewOf(r.st));
    if !r.ok || inst.None? || |inst.value.elements| > md.tableSize || tableBase + md.tableSize > |r.st.table| {
      ActConcat(ViewOf(st), ResolveActs(st, m.imports), []);
    } else {
      var exports := RelocateAll(inst.value.exports, memoryBase);
      ActConcat(ViewOf(st), ResolveActs(st, m.imports), PublishActs(exports));
      PublishView(r.st.(table := Fill(r.st.table, tableBase, inst.value.elements)), exports);
    }
  }

  lemma InstantiateView(w: World, st: St, name: String, m: Mod, md: Metadata, replay: Option<int>)
    ensures ViewOf(Instantiate(w, st, name, m, md, replay).st)
         == ActAll(ViewOf(st), InstantiateActs(w, st, m, md, replay))
  {
    hide ActAll, Link, LinkActs;
    ActNone(ViewOf(st));
    var asks := md.memorySize > 0 && replay.None?;
    var answer := w.alloc(st.allocations);
    var st1 := if asks then st.(allocations := st.allocations + 1) else st;
    if !asks || answer.Some? {
      var memoryBase := if md.memorySize == 0 then 0 else if asks then answer.value else replay.value;
      var tableBase := if md.tableSize > 0 then |st1.table| else 0;
      LinkView(st1.(table := st1.table + Nulls(md.tableSize)), name, m, md, memoryBase, tableBase, replay.Some?);
    }
  }

  lemma {:induction false} LoadView(w: World, st: St, name: String, m: Mod, replay: Option<int>, depth: nat)
    ensures ViewOf(Load(w, st, name, m, replay, depth).st)
         == ActAll(ViewOf(st), LoadActs(w, st, name, m, replay, depth))
    decreases depth, 1, 0
  {
    hide ActAll, ViewOf, Instantiate, InstantiateActs;
    ActNone(ViewOf(st));
    if name !in st.loaded && m.metadata.Some? && depth > 0 {
      var md := m.metadata.value;
      if replay.None? || md.neededDynlibs == [] {
        var r := LoadDeps(w, st, md.neededDynlibs, depth);
        DepsView(w, st, md.neededDynlibs, depth);
        ActNone(ViewOf(r.st));
        var more := if r.ok then InstantiateActs(w, r.st, m, md, replay) else [];
        ActConcat(ViewOf(st), DepsActs(w, st, md.neededDynlibs, depth), more);
        if r.ok { InstantiateView(w, r.st, name, m, md, replay); }
      }
    }
  }

  lemma {:induction false} DepsView(w: World, st: St, deps: seq<String>, depth: nat)
    requires depth > 0
    ensures ViewOf(LoadDeps(w, st, deps, depth).st) == ActAll(ViewOf(st), DepsActs(w, st, deps, depth))
    decreases depth, 0, |deps|
  {
    hide ActAll, ViewOf, Load, LoadActs;
    ActNone(ViewOf(st));
    if deps != [] {
      if deps[0] in st.loaded {
        DepsView(w, st, deps[1..], depth);
      } else if deps[0] in w.libraries {
        var m := w.libraries[deps[0]];
        var r := Load(w, st, deps[0], m, None, depth - 1);
        LoadView(w, st, deps[0], m, None, depth - 1);
        ActNone(ViewOf(r.st));
        var more := if r.Fail? then [] else DepsActs(w, r.st, deps[1..], depth);
        ActConcat(ViewOf(st), LoadActs(w, st, deps[0], m, None, depth - 1), more);
        if r.Ok? { DepsView(w, r.st, deps[1..], depth); }
      }
    }
  }

  /** The calls decide the view exactly as their acts do. */
  lemma {:induction false} RunView(w: World, st: St, cs: seq<Call>)
    ensures ViewOf(ApplyAll(w, st, cs)) == ActAll(ViewOf(st), RunActs(w, st, cs))
    decreases |cs|
  {
    hide ActAll, Load, LoadActs;
    ActNone(ViewOf(st));
    if cs != [] {
      if cs[0].Open? { LoadView(w, st, cs[0].name, cs[0].m, cs[0].replay, cs[0].depth); }
      ActConcat(ViewOf(st), CallActs(w, st, cs[0]), RunActs(w, Apply(w, st, cs[0]), cs[1..]));
      RunView(w, Apply(w, st, cs[0]), cs[1..]);
    }
  }

  // ---- misbound entries, read off the acts ----

  /** The symbol table after these definitions. */
  function SymbolsAfter(symbols: map<String, Sym>, acts: seq<Act>): map<String, Sym>
    decreases |acts|
  {
    if acts == [] then symbols
    else
      var before, a := SymbolsAfter(symbols, acts[..|acts| - 1]), acts[|acts| - 1];
      if a.Defined? then before[a.sym := a.as_] else before
  }

  /**
   * The `p`th act is the first request for the entry of `sym`, it asks for data while the symbol is
   * a function or for a function while it is data, and the symbol is not defined again.
   */
  ghost predicate WrongKindAt(symbols: map<String, Sym>, acts: seq<Act>, sym: String, p: nat)
    requires p < |acts|
  {
    && acts[p].Asked? && acts[p].sym == sym && WrongFor(SymbolsAfter(symbols, acts[..p]), sym, acts[p].mem)
    && (forall q :: 0 <= q < p ==> !(acts[q].Asked? && acts[q].sym == sym))
    && (forall q :: p < q < |acts| ==> !(acts[q].Defined? && acts[q].sym == sym))
  }

  ghost predicate WrongKind(symbols: map<String, Sym>, acts: seq<Act>, sym: String) {
    exists p: nat :: p < |acts| && WrongKindAt(symbols, acts, sym, p)
  }

  lemma {:induction false} ActsMean(v: View, acts: seq<Act>, sym: String)
    requires v.asked == {} && v.misbound == {}
    ensures var r := ActAll(v, acts);
            && r.symbols == SymbolsAfter(v.symbols, acts)
            && (sym in r.asked <==> exists q :: 0 <= q < |acts| && acts[q].Asked? && acts[q].sym == sym)
            && (sym in r.misbound <==> WrongKind(v.symbols, acts, sym))
    decreases |acts|
  {
    if acts != [] {
      var n := |acts| - 1;
      ActsMean(v, acts[..n], sym);
      WrongKindLast(v, acts, sym);
    }
  }

  lemma WrongKindLast(v: View, acts: seq<Act>, sym: String)
    requires acts != []
    ensures var n, a := |acts| - 1, acts[|acts| - 1];
            WrongKind(v.symbols, acts, sym) <==>
              || (WrongKind(v.symbols, acts[..n], sym) && !(a.Defined? && a.sym == sym))
              || WrongKindAt(v.symbols, acts, sym, n)
  {
    var n, a := |acts| - 1, acts[|acts| - 1];
    var before := acts[..n];
    forall p: nat | p < n
      ensures WrongKindAt(v.symbols, acts, sym, p) <==>
                WrongKindAt(v.symbols, before, sym, p) && !(a.Defined? && a.sym == sym)
    {
      assert acts[..p] == before[..p];
      assert forall q :: 0 <= q < n ==> acts[q] == before[q];
    }
    if p: nat :| p < |before| && WrongKindAt(v.symbols, before, sym, p) {
      assert !(a.Defined? && a.sym == sym) ==> WrongKindAt(v.symbols, acts, sym, p);
    }
  }

  // ---- coherence ----

  /**
   * After any calls from a state without GOT entries: no old slot has changed. The GOT entry of a
   * function symbol names a slot that holds the function, and that of a data symbol is its address,
   * exactly unless the entry was first asked for as the other kind and the symbol was not defined
   * since. The entry is 0 then, and right only if slot 0 holds the function or the address is 0.
   */
  lemma GotCoherence(w: World, st: St, cs: seq<Call>, sym: String)
    requires st.got == map[] && st.misbound == {}
    ensures var t := ApplyAll(w, st, cs);
            && st.table <= t.table
            && (sym in t.got && sym in t.symbols ==>
                  (Binds(t, sym) <==> !WrongKind(st.symbols, RunActs(w, st, cs), sym) || ZeroIsRight(t, sym)))
  {
    hide WrongKind, ApplyAll, RunActs, ActAll;
    RecordedCoherence(w, st, cs, sym);
    RunView(w, st, cs);
    ActsMean(ViewOf(st), RunActs(w, st, cs), sym);
  }

  // ---- libraries that never ask for a symbol as the wrong kind ----

  /** A module imports the GOT entry of `sym` as data (`mem`) or as a function. */
  predicate Asks(m: Mod, sym: String, mem: bool) { (if mem then GotMem(sym) else GotFunc(sym)) in m.imports }

  ghost predicate NeverAsks(w: World, sym: String, mem: bool) {
    forall name :: name in w.libraries ==> !Asks(w.libraries[name], sym, mem)
  }

  lemma {:induction false} ResolveOmits(st: St, ws: seq<Want>, sym: String, mem: bool)
    requires (if mem then GotMem(sym) else GotFunc(sym)) !in ws
    ensures Asked(sym, mem) !in ResolveActs(st, ws)
    decreases |ws|
  {
    if ws != [] && ResolveOne(st, ws[0]).ok { ResolveOmits(ResolveOne(st, ws[0]).st, ws[1..], sym, mem); }
  }

  lemma {:induction false} PublishOmits(es: seq<NamedExport>, sym: String, mem: bool)
    ensures Asked(sym, mem) !in PublishActs(es)
    decreases |es|
  {
    if es != [] { PublishOmits(es[1..], sym, mem); }
  }

  lemma InstantiateOmits(w: World, st: St, m: Mod, md: Metadata, replay: Option<int>, sym: String, mem: bool)
    requires !Asks(m, sym, mem)
    ensures Asked(sym, mem) !in InstantiateActs(w, st, m, md, replay)
  {
    hide ResolveActs, PublishActs, Resolve, RelocateAll;
    forall t: St ensures Asked(sym, mem) !in ResolveActs(t, m.imports) { ResolveOmits(t, m.imports, sym, mem); }
    forall es: seq<NamedExport> ensures Asked(sym, mem) !in PublishActs(es) { PublishOmits(es, sym, mem); }
  }

  lemma {:induction false} LoadOmits(w: World, st: St, name: String, m: Mod, replay: Option<int>, depth: nat,
                                     sym: String, mem: bool)
    requires NeverAsks(w, sym, mem) && !Asks(m, sym, mem)
    ensures Asked(sym, mem) !in LoadActs(w, st, name, m, replay, depth)
    decreases depth, 1, 0
  {
    hide Asks, InstantiateActs;
    if name !in st.loaded && m.metadata.Some? && depth > 0 {
      var md := m.metadata.value;
      DepsOmit(w, st, md.neededDynlibs, depth, sym, mem);
      InstantiateOmits(w, LoadDeps(w, st, md.neededDynlibs, depth).st, m, md, replay, sym, mem);
    }
  }

  lemma {:induction false} DepsOmit(w: World, st: St, deps: seq<String>, depth: nat, sym: String, mem: bool)
    requires depth > 0 && NeverAsks(w, sym, mem)
    ensures Asked(sym, mem) !in DepsActs(w, st, deps, depth)
    decreases depth, 0, |deps|
  {
    hide Asks, Load, LoadActs;
    if deps != [] {
      if deps[0] in st.loaded {
        DepsOmit(w, st, deps[1..], depth, sym, mem);
      } else if deps[0] in w.libraries {
        var m := w.libraries[deps[0]];
        LoadOmits(w, st, deps[0], m, None, depth - 1, sym, mem);
        var r := Load(w, st, deps[0], m, None, depth - 1);
        if r.Ok? { DepsOmit(w, r.st, deps[1..], depth, sym, mem); }
      }
    }
  }

  lemma {:induction false} RunOmits(w: World, st: St, cs: seq<Call>, sym: String, mem: bool)
    requires NeverAsks(w, sym, mem) && forall c :: c in cs && c.Open? ==> !Asks(c.m, sym, mem)
    ensures Asked(sym, mem) !in RunActs(w, st, cs)
    decreases |cs|
  {
    hide Asks, Load, LoadActs;
    if cs != [] {
      assert cs[0] in cs;
      if cs[0].Open? { LoadOmits(w, st, cs[0].name, cs[0].m, cs[0].replay, cs[0].depth, sym, mem); }
      RunOmits(w, Apply(w, st, cs[0]), cs[1..], sym, mem);
    }
  }

  /** A symbol that is not defined after the `p`th act stands for what it stood for then. */
  lemma {:induction false} SymbolKept(symbols: map<String, Sym>, acts: seq<Act>, p: nat, sym: String)
    requires p <= |acts| && forall q :: p <= q < |acts| ==> !(acts[q].Defined? && acts[q].sym == sym)
    requires sym in SymbolsAfter(symbols, acts[..p])
    ensures sym in SymbolsAfter(symbols, acts)
    ensures SymbolsAfter(symbols, acts)[sym] == SymbolsAfter(symbols, acts[..p])[sym]
    decreases |acts|
  {
    var n := |acts| - 1;
    if p == |acts| {
      assert acts[..p] == acts;
    } else {
      assert acts[..n][..p] == acts[..p];
      SymbolKept(symbols, acts[..n], p, sym);
    }
  }

  /**
   * A condition on the libraries alone: where neither an opened module nor a library that can be
   * found imports `sym` as data, the GOT entry of a function symbol always names its slot; where none
   * imports it as a function, that of a data symbol is always its address.
   */
  lemma StaysBound(w: World, st: St, cs: seq<Call>, sym: String, mem: bool)
    requires st.got == map[] && st.misbound == {}
    requires NeverAsks(w, sym, mem) && forall c :: c in cs && c.Open? ==> !Asks(c.m, sym, mem)
    ensures var t := ApplyAll(w, st, cs);
            sym in t.symbols && t.symbols[sym].Func? == mem ==> Binds(t, sym)
  {
    hide ApplyAll, RunActs, ActAll, WrongKind, SymbolsAfter;
    RunOmits(w, st, cs, sym, mem);
    GotCoherence(w, st, cs, sym);
    RunView(w, st, cs);
    ActsMean(ViewOf(st), RunActs(w, st, cs), sym);
    var t := ApplyAll(w, st, cs);
    if sym in t.symbols && t.symbols[sym].Func? == mem { RightKind(st.symbols, RunActs(w, st, cs), sym, mem); }
  }

  lemma RightKind(symbols: map<String, Sym>, acts: seq<Act>, sym: String, mem: bool)
    requires Asked(sym, mem) !in acts && WrongFor(SymbolsAfter(symbols, acts), sym, mem)
    ensures !WrongKind(symbols, acts, sym)
  {
    hide SymbolsAfter;
    if p: nat :| p < |acts| && WrongKindAt(symbols, acts, sym, p) {
      assert acts[p] in acts && acts[p].mem != mem;
      SymbolKept(symbols, acts, p, sym);
    }
  }
}
