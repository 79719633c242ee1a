/** The walk of host/src/constants.ts to the value of a module's `__heap_base`. */
module HeapBase {
  import opened Bits
  import opened Int32
  import opened Leb128
  import opened WasmModule
  import opened Wrappers

  /** What the walk comes to; the last two are loops of the original that need not end. */
  datatype Outcome = Found(value: nat) | Null | NoEnd | Backwards

  lemma ReadsSize(src: seq<Byte>, pos: int, x: Size)
    requires At(src, pos, Enc(x))
    ensures ReadU(src, pos) == (x.v, x.k) && |Enc(x)| == x.k
  {
    hide ULeb, Pow2;
    ReadsUnsigned(src, pos, x.v, x.k);
  }

  lemma SkipsLeb(src: seq<Byte>, pos: int, x: Leb)
    requires At(src, pos, Enc(x))
    ensures ReadU(src, pos).1 == x.k && |Enc(x)| == x.k
  {
    hide Pow2, Fold32;
    FoldConsumes(src, pos, 0, 0, x.v, x.k);
  }

  method SkipName(src: seq<Byte>, pos: int, ghost n: Name) returns (next: int)
    ensures OkName(n) && At(src, pos, EncName(n)) ==> next == pos + |EncName(n)|
  {
    hide Enc, At, ReadU;
    ghost var here := OkName(n) && At(src, pos, EncName(n));
    if here {
      AtSplit(src, pos, Enc(n.len), n.bytes);
      ReadsSize(src, pos, n.len);
    }
    var len, k := ReadULEB128(src, pos);
    next := pos + k + len;
  }

  method SkipLeb(src: seq<Byte>, pos: int, ghost x: Leb) returns (next: int)
    ensures At(src, pos, Enc(x)) ==> next == pos + |Enc(x)|
  {
    hide Enc, At, ReadU;
    if At(src, pos, Enc(x)) { SkipsLeb(src, pos, x); }
    var _, n := ReadULEB128(src, pos);
    next := pos + n;
  }

  method SkipLimits(src: seq<Byte>, pos: int, ghost l: Limits) returns (next: int)
    ensures At(src, pos, EncLimits(l)) ==> next == pos + |EncLimits(l)|
  {
    hide Enc, At;
    ghost var here := At(src, pos, EncLimits(l));
    if here {
      AtSplit(src, pos, [l.flag] + Enc(l.min), if l.flag % 2 == 1 then Enc(l.max) else []);
      AtFirst(src, pos, l.flag, Enc(l.min));
    }
    var flag := Get(src, pos);
    next := SkipLeb(src, pos + 1, l.min);
    if flag >= 0 && flag % 2 == 1 {
      next := SkipLeb(src, next, l.max);
    }
  }

  method SkipImportEntry(src: seq<Byte>, pos: int, funcImports: int, globalImports: int, ghost i: Import)
    returns (next: int, funcs: int, globals: int)
    ensures OkImport(i) && At(src, pos, EncImport(i)) ==>
              && next == pos + |EncImport(i)|
              && globals == globalImports + (if i.desc.GlobalImport? then 1 else 0)
              && funcs == funcImports + (if i.desc.FuncImport? then 1 else 0)
  {
    hide At, EncName, Enc, EncLimits;
    ghost var here := OkImport(i) && At(src, pos, EncImport(i));
    if here {
      AtSplit(src, pos, EncName(i.mod), EncName(i.field) + EncDesc(i.desc));
      AtSplit(src, pos + |EncName(i.mod)|, EncName(i.field), EncDesc(i.desc));
      DescKind(src, pos + |EncName(i.mod)| + |EncName(i.field)|, i.desc);
    }
    next := SkipName(src, pos, i.mod);
    next := SkipName(src, next, i.field);
    funcs, globals := funcImports, globalImports;
    var kind := Get(src, next);
    next := next + 1;
    if kind == 0 {
      funcs := funcs + 1;
      next := SkipLeb(src, next, if i.desc.FuncImport? then i.desc.index else Num(0, 1));
    } else if kind == 1 {
      next := SkipLimits(src, next + 1, if i.desc.TableImport? then i.desc.limits else Limits(0, Num(0, 1), Num(0, 1)));
    } else if kind == 2 {
      next := SkipLimits(src, next, if i.desc.MemoryImport? then i.desc.limits else Limits(0, Num(0, 1), Num(0, 1)));
    } else if kind == 3 {
      globals := globals + 1;
      next := next + 2;
    }
  }

  lemma DescKind(src: seq<Byte>, pos: int, d: ImportDesc)
    requires At(src, pos, EncDesc(d))
    ensures Get(src, pos) == (match d case FuncImport(_) => 0 case TableImport(_, _) => 1
              case MemoryImport(_) => 2 case GlobalImport(_, _) => 3)
    ensures d.FuncImport? ==> At(src, pos + 1, Enc(d.index))
    ensures d.TableImport? ==> At(src, pos + 2, EncLimits(d.limits))
    ensures d.MemoryImport? ==> At(src, pos + 1, EncLimits(d.limits))
  {
    hide At, Enc, EncLimits, Get;
    match d
    case FuncImport(index) => AtFirst(src, pos, 0, Enc(index));
    case TableImport(reftype, limits) =>
      AtFirst(src, pos, 1, [reftype] + EncLimits(limits));
      AtFirst(src, pos + 1, reftype, EncLimits(limits));
    case MemoryImport(limits) => AtFirst(src, pos, 2, EncLimits(limits));
    case GlobalImport(valtype, mut) => AtFirst(src, pos, 3, [valtype, mut]);
  }

  // ---- globals ----

  /** The position after the first `end` byte from `p` on. */
  function FirstEnd(src: seq<Byte>, p: int): (r: Option<int>)
    ensures r.Some? ==> p < r.value && Get(src, r.value - 1) == 0x0B
    ensures r.Some? ==> forall j :: p <= j < r.value - 1 ==> Get(src, j) != 0x0B
    ensures r.None? ==> forall j :: p <= j ==> Get(src, j) != 0x0B
    decreases |src| - p
  {
    if p >= |src| then None else if Get(src, p) == 0x0B then Some(p + 1) else FirstEnd(src, p + 1)
  }

  /** The position after the first `end` byte from `pos + 2` on; without one the original never stops. */
  method SkipGlobalEntry(src: seq<Byte>, pos: int) returns (r: Option<int>)
    ensures match r
            case Some(next) =>
              Get(src, next - 1) == 0x0B && pos + 2 < next
              && forall j :: pos + 2 <= j < next - 1 ==> Get(src, j) != 0x0B
            case None => forall j :: pos + 2 <= j ==> Get(src, j) != 0x0B
    ensures r == FirstEnd(src, pos + 2)
  {
    var p := pos + 2;
    while p < |src| && Get(src, p) != 0x0B
      invariant pos + 2 <= p
      invariant FirstEnd(src, pos + 2) == FirstEnd(src, p)
      invariant forall j :: pos + 2 <= j < p ==> Get(src, j) != 0x0B
    {
      p := p + 1;
    }
    return if p < |src| then Some(p + 1) else None;
  }

  /** A global is skipped exactly when its initialiser does not hold the `end` byte. */
  lemma SkipExact(src: seq<Byte>, pos: int, g: Global, next: int)
    requires At(src, pos, EncGlobal(g))
    requires Get(src, next - 1) == 0x0B && pos + 2 < next && forall j :: pos + 2 <= j < next - 1 ==> Get(src, j) != 0x0B
    ensures next == pos + |EncGlobal(g)| <==> 0x0B !in EncInit(g.init)
    ensures next <= pos + |EncGlobal(g)|
  {
    hide EncInit;
    var e := EncInit(g.init);
    assert forall j :: 0 <= j < |e| ==> Get(src, pos + 2 + j) == e[j] by { GlobalBytes(src, pos, g); }
    assert Get(src, pos + 2 + |e|) == 0x0B by { GlobalBytes(src, pos, g); }
    if 0x0B in e {
      var j :| 0 <= j < |e| && e[j] == 0x0B;
      assert Get(src, pos + 2 + j) == 0x0B;
    } else if next < pos + |EncGlobal(g)| {
      assert Get(src, pos + 2 + (next - 1 - pos - 2)) == e[next - 1 - pos - 2];
    }
  }

  lemma GlobalBytes(src: seq<Byte>, pos: int, g: Global)
    requires At(src, pos, EncGlobal(g))
    ensures var e := EncInit(g.init);
            (forall j :: 0 <= j < |e| ==> Get(src, pos + 2 + j) == e[j]) && Get(src, pos + 2 + |e|) == 0x0B
  {
    hide EncInit;
    var e := EncInit(g.init);
    var bytes := src[pos..pos + |EncGlobal(g)|];
    forall j | 0 <= j < |e|
      ensures Get(src, pos + 2 + j) == e[j]
    {
      assert bytes[2 + j] == e[j];
    }
    assert bytes[2 + |e|] == 0x0B;
  }

  /** What is read as the initial value of a global at `pos`, whatever bytes stand there. */
  function InitAt(src: seq<Byte>, pos: int): Option<nat> {
    var opcode := Get(src, pos + 2);
    if opcode == 0x41 then Some(ReadS32(src, pos + 3).0 % TWO32)
    else if opcode == 0x42 then Some(ReadS64(src, pos + 3).0 % TWO64)
    else None
  }

  method ReadGlobalInitAddr(src: seq<Byte>, pos: int, ghost g: Global) returns (r: Option<nat>)
    ensures OkInit(g.init) && At(src, pos, EncGlobal(g)) ==> r == ConstValue(g.init)
    ensures r == InitAt(src, pos)
  {
    hide At, SLeb, Fits, ReadS32, ReadS64, Pow2;
    ghost var here := OkInit(g.init) && At(src, pos, EncGlobal(g));
    if here { InitBytes(src, pos, g); }
    var opcode := Get(src, pos + 2);
    if opcode == 0x41 {
      var val, _ := ReadSLEB128I32(src, pos + 3);
      if here { ReadsI32(src, pos + 3, g.init.v, g.init.k); }
      return Some(val % TWO32);
    } else if opcode == 0x42 {
      var val, _ := ReadSLEB128I64(src, pos + 3);
      if here { ReadsI64(src, pos + 3, g.init.v64, g.init.k); }
      return Some(val % TWO64);
    }
    return None;
  }

  lemma InitBytes(src: seq<Byte>, pos: int, g: Global)
    requires OkInit(g.init) && At(src, pos, EncGlobal(g))
    ensures Get(src, pos + 2) == 0x41 <==> g.init.I32Const?
    ensures Get(src, pos + 2) == 0x42 <==> g.init.I64Const?
    ensures g.init.I32Const? ==>
              Fits(g.init.v, g.init.k) && 0 < g.init.k <= 5 && At(src, pos + 3, SLeb(g.init.v, g.init.k))
    ensures g.init.I64Const? ==> Fits(g.init.v64, g.init.k) && At(src, pos + 3, SLeb(g.init.v64, g.init.k))
  {
    assert g.init.I32Const? ==> 0 < g.init.k;
    hide At, SLeb, Fits, Get;
    var e := EncInit(g.init);
    AtSplit(src, pos, [g.valtype, g.mut], e + [0x0B]);
    match g.init
    case I32Const(v, k) =>
      AtSplit(src, pos + 2, e, [0x0B]);
      AtFirst(src, pos + 2, 0x41, SLeb(v, k));
    case I64Const(v, k) =>
      AtSplit(src, pos + 2, e, [0x0B]);
      AtFirst(src, pos + 2, 0x42, SLeb(v, k));
    case OtherInit(bytes) =>
      var all := bytes + [0x0B];
      assert all == [all[0]] + all[1..];
      AtFirst(src, pos + 2, all[0], all[1..]);
  }

  // ---- the sections ----

  /** Runs over an import section and counts what it imports. */
  method CountImports(src: seq<Byte>, content: int, funcImports: int, globalImports: int, ghost s: Section)
    returns (funcs: int, globals: int)
    ensures s.Imports? && OkSection(s) && At(src, content, Content(s)) ==>
              globals == globalImports + GlobalImportsIn(s.imports)
  {
    hide At, Enc, EncImport, OkImport;
    ghost var here := s.Imports? && OkSection(s) && At(src, content, Content(s));
    ghost var list := if here then s.imports else [];
    if here {
      AtSplit(src, content, Enc(s.importCount), EncImports(list));
      ReadsSize(src, content, s.importCount);
    }
    var count, k := ReadULEB128(src, content);
    var pos := content + k;
    funcs, globals := funcImports, globalImports;
    assert list[0..] == list;
    var i := 0;
    while i < count
      invariant 0 <= i && (here ==> i <= count == |list| && At(src, pos, EncImports(list[i..])))
      invariant here ==> globals + GlobalImportsIn(list[i..]) == globalImports + GlobalImportsIn(list)
      decreases count - i
    {
      ghost var entry := if here then list[i] else AnyImport();
      if here {
        assert list[i..][1..] == list[i + 1..];
        assert entry in s.imports;
        AtSplit(src, pos, EncImport(entry), EncImports(list[i + 1..]));
      }
      pos, funcs, globals := SkipImportEntry(src, pos, funcs, globals, entry);
      i := i + 1;
    }
  }

  function AnyImport(): Import { Import(Name(Num(0, 1), []), Name(Num(0, 1), []), GlobalImport(0, 0)) }

  /** The global index of the first export named `__heap_base`, if any. */
  method FindExport(src: seq<Byte>, content: int, ghost e: Exports, ghost after: seq<Byte>) returns (r: Option<int>)
    ensures (forall x :: x in e.entries ==> OkName(x.name)) && e.count.v == |e.entries|
              && At(src, content, Enc(e.count) + (EncExports(e.entries) + after)) ==>
              match FirstHeapBase(e.entries) case None => r == None case Some(index) => r == Some(index)
  {
    hide At, Enc, EncExport, OkName, NamesHeapBase;
    ghost var list := e.entries;
    ghost var here := (forall x :: x in list ==> OkName(x.name)) && e.count.v == |list|
                        && At(src, content, Enc(e.count) + (EncExports(list) + after));
    if here {
      AtSplit(src, content, Enc(e.count), EncExports(list) + after);
      AtSplit(src, content + |Enc(e.count)|, EncExports(list), after);
      ReadsSize(src, content, e.count);
    }
    var count, k := ReadULEB128(src, content);
    var pos := content + k;
    assert list[0..] == list;
    var i := 0;
    while i < count
      invariant 0 <= i && (here ==> i <= count == |list| && At(src, pos, EncExports(list[i..])))
      invariant here ==> FirstHeapBase(list[i..]) == FirstHeapBase(list)
      decreases count - i
    {
      ghost var entry := if here then list[i] else Export(Name(Num(0, 1), []), 0, Num(0, 1));
      if here {
        assert list[i..][1..] == list[i + 1..];
        assert entry in e.entries;
        AtSplit(src, pos, EncExport(entry), EncExports(list[i + 1..]));
      }
      var next, hit, index := ReadExport(src, pos, entry);
      if hit { return Some(index); }
      pos := next;
      i := i + 1;
    }
    return None;
  }

  method ReadExport(src: seq<Byte>, at: int, ghost e: Export) returns (next: int, hit: bool, index: int)
    ensures OkName(e.name) && At(src, at, EncExport(e)) ==>
              next == at + |EncExport(e)| && hit == IsHeapBase(e) && index == e.index.v
  {
    hide At, Enc, NamesHeapBase;
    ghost var here := OkName(e.name) && At(src, at, EncExport(e));
    if here {
      AtSplit(src, at, EncName(e.name), [e.kind] + Enc(e.index));
      AtSplit(src, at, Enc(e.name.len), e.name.bytes);
      AtFirst(src, at + |EncName(e.name)|, e.kind, Enc(e.index));
      ReadsSize(src, at, e.name.len);
      ReadsSize(src, at + |EncName(e.name)| + 1, e.index);
    }
    var len, k := ReadULEB128(src, at);
    var pos := at + k;
    var name := Slice(src, pos, pos + len);
    if here { SliceAt(src, pos, e.name.bytes); }
    pos := pos + len;
    var kind := Get(src, pos);
    pos := pos + 1;
    var idx, n := ReadULEB128(src, pos);
    return pos + n, kind == 3 && NamesHeapBase(name), idx;
  }

  /** The position after `n` skips. */
  function Skipped(src: seq<Byte>, pos: int, n: nat): Option<int>
    decreases n
  {
    if n == 0 then Some(pos)
    else
      var next := FirstEnd(src, pos + 2);
      if next.None? then None else Skipped(src, next.value, n - 1)
  }

  /** What is read of a global section, well-formed or not, for the defined global with this index. */
  function DefinedAt(src: seq<Byte>, content: int, index: nat): Outcome {
    var (count, k) := ReadU(src, content);
    if index >= count then Null
    else
      var pos := Skipped(src, content + k, index);
      if pos.None? then NoEnd else Answer(InitAt(src, pos.value))
  }

  ghost predicate Plain(list: seq<Global>, n: nat) {
    forall i :: 0 <= i < |list| && i < n ==> 0x0B !in EncInit(list[i].init)
  }

  /** Skips `n` globals; on encoded ones without an `end` byte inside it lands on the next. */
  method SkipGlobals(src: seq<Byte>, start: int, n: nat, ghost list: seq<Global>) returns (r: Option<int>)
    ensures r == Skipped(src, start, n)
    ensures n <= |list| && Plain(list, n) && At(src, start, EncGlobals(list)) ==>
              r.Some? && At(src, r.value, EncGlobals(list[n..]))
  {
    hide FirstEnd, At, EncGlobal, EncInit, Get;
    ghost var here := n <= |list| && Plain(list, n) && At(src, start, EncGlobals(list));
    assert list[0..] == list;
    var pos, i := start, 0;
    while i < n
      invariant 0 <= i <= n && Skipped(src, pos, n - i) == Skipped(src, start, n)
      invariant here ==> At(src, pos, EncGlobals(list[i..]))
    {
      if here { FirstGlobal(src, pos, list[i..]); }
      var next := SkipGlobalEntry(src, pos);
      if here { NextGlobal(src, pos, list[i..][0], next); }
      if next.None? { return None; }
      pos := next.value;
      assert here ==> list[i..][1..] == list[i + 1..];
      i := i + 1;
    }
    return Some(pos);
  }

  lemma FirstGlobal(src: seq<Byte>, pos: int, list: seq<Global>)
    requires list != [] && At(src, pos, EncGlobals(list))
    ensures At(src, pos, EncGlobal(list[0])) && At(src, pos + |EncGlobal(list[0])|, EncGlobals(list[1..]))
  {
    hide At, EncGlobal;
    AtSplit(src, pos, EncGlobal(list[0]), EncGlobals(list[1..]));
  }

  /** The initial value of the defined global with this index. */
  method ReadDefined(src: seq<Byte>, content: int, definedIndex: int, ghost s: Section) returns (r: Outcome)
    requires 0 <= definedIndex
    ensures s.Globals? && OkSection(s) && At(src, content, Content(s)) && Plain(s.globals, definedIndex) ==>
              r == Answer(if definedIndex < |s.globals| then ConstValue(s.globals[definedIndex].init) else None)
    ensures r == DefinedAt(src, content, definedIndex)
  {
    hide InitAt, ReadU, FirstEnd, Skipped, At, Enc, EncGlobals, EncGlobal, OkInit, Get, Plain, ConstValue;
    ghost var here := s.Globals? && OkSection(s) && At(src, content, Content(s)) && Plain(s.globals, definedIndex);
    ghost var list := if here then s.globals else [];
    if here {
      AtSplit(src, content, Enc(s.globalCount), EncGlobals(list));
      ReadsSize(src, content, s.globalCount);
    }
    var count, k := ReadULEB128(src, content);
    if definedIndex >= count { return Null; }
    var pos := SkipGlobals(src, content + k, definedIndex, list);
    if pos.None? { return NoEnd; }
    ghost var g := Global(0, 0, OtherInit([]));
    if here {
      FirstGlobal(src, pos.value, list[definedIndex..]);
      g := list[definedIndex..][0];
      assert g in s.globals;
    }
    var v := ReadGlobalInitAddr(src, pos.value, g);
    return Answer(v);
  }

  function Answer(v: Option<nat>): Outcome { if v.Some? then Found(v.value) else Null }

  lemma NextGlobal(src: seq<Byte>, pos: int, g: Global, r: Option<int>)
    requires At(src, pos, EncGlobal(g)) && 0x0B !in EncInit(g.init)
    requires match r
             case Some(next) =>
               Get(src, next - 1) == 0x0B && pos + 2 < next
              && forall j :: pos + 2 <= j < next - 1 ==> Get(src, j) != 0x0B
             case None => forall j :: pos + 2 <= j ==> Get(src, j) != 0x0B
    ensures r == Some(pos + |EncGlobal(g)|)
  {
    hide EncInit;
    GlobalBytes(src, pos, g);
    if r.Some? {
      SkipExact(src, pos, g, r.value);
    }
  }

  /** The globals found so far and where the content of their section starts. */
  ghost predicate GlobalsAt(src: seq<Byte>, at: Option<int>, s: Option<Section>) {
    match s
    case None => at.None?
    case Some(sec) => sec.Globals? && OkSection(sec) && at.Some? && At(src, at.value, Content(sec))
  }

  function ListOf(s: Option<Section>): Option<seq<Global>> {
    if s.Some? && s.value.Globals? then Some(s.value.globals) else None
  }

  /** The walk stands before the sections `rest`, having counted the imports and seen the globals of those before. */
  ghost predicate Walk(src: seq<Byte>, m: Module, offset: int, rest: seq<Section>,
                       globalImports: int, globalContent: Option<int>, sofar: Option<Section>)
  {
    && OkModule(m)
    && 0 <= offset && |src| == offset + |EncSections(rest) + EncTail(m)|
    && At(src, offset, EncSections(rest) + EncTail(m))
    && (forall s :: s in rest ==> OkSection(s))
    && globalImports + GlobalImports(rest) == GlobalImports(m.before)
    && GlobalsOf(rest, ListOf(sofar)) == GlobalsOf(m.before, None) && GlobalsAt(src, globalContent, sofar)
    && GlobalsStart(rest, offset, globalContent) == GlobalsStart(m.before, 8, None)
  }

  /** Where the content of the last global section starts. */
  function GlobalsStart(s: seq<Section>, at: int, sofar: Option<int>): Option<int> {
    if s == [] then sofar
    else GlobalsStart(s[1..], at + |EncSection(s[0])|, if s[0].Globals? then Some(at + 1 + s[0].size.k) else sofar)
  }

  /** What the walk returns for a module, right or wrong. */
  function HeapBaseRead(m: Module): Outcome {
    if m.exports.None? then Null
    else
      var index, start := FirstHeapBase(m.exports.value.entries), GlobalsStart(m.before, 8, None);
      if index.None? || start.None? then Null
      else
        var d := index.value - GlobalImports(m.before);
        if d < 0 then Null else DefinedAt(EncModule(m), start.value, d)
  }

  /**
   * For every encoding of every module the walk returns what `HeapBaseRead` says. When the
   * initialisers before the exported global do not hold the `end` byte, that is what the module
   * says about its heap base.
   */
  method ExtractHeapBase(src: seq<Byte>, ghost m: Module) returns (r: Outcome)
    ensures OkModule(m) && src == EncModule(m) ==> r == HeapBaseRead(m)
    ensures OkModule(m) && PlainBefore(m) && src == EncModule(m) ==> r == Answer(HeapBaseOf(m))
  {
    hide Walk, At, OkSection, PlainBefore, HeapBaseOf, HeapBaseRead, DefinedAt, Content, Enc, EncModule, EncExports,
         FirstHeapBase, GlobalImports, GlobalImportsIn;
    ghost var here := OkModule(m) && src == EncModule(m);
    ghost var rest, sofar := m.before, None;
    if here { WalkStart(src, m); }
    if |src| < 8 { return Null; }
    var globalImports, funcImports, offset := 0, 0, 8;
    var globalContent: Option<int> := None;
    while offset < |src|
      invariant here ==> Walk(src, m, offset, rest, globalImports, globalContent, sofar)
      decreases |src| - offset
    {
      ghost var section := if here && rest != [] then rest[0] else Raw(0, Num(0, 1), []);
      var sectionId := Get(src, offset);
      var sectionSize, sizeBytes := ReadULEB128(src, offset + 1);
      var contentOffset := offset + 1 + sizeBytes;
      if here { WalkSees(src, m, offset, rest, globalImports, globalContent, sofar); }
      ghost var imports, content, seen := globalImports, globalContent, sofar;
      if sectionId == 2 {
        funcImports, globalImports := CountImports(src, contentOffset, funcImports, globalImports, section);
      } else if sectionId == 6 {
        globalContent := Some(contentOffset);
        sofar := Some(section);
      } else if sectionId == 7 {
        var index := FindExport(src, contentOffset,
                                if here then m.exports.value else Exports(Num(0, 1), Num(0, 1), []), m.after);
        if here { WalkExports(src, m, offset, globalImports, globalContent, sofar); }
        if index.None? || globalContent.None? { return Null; }
        var definedIndex := index.value - globalImports;
        if definedIndex < 0 { return Null; }
        r := ReadDefined(src, globalContent.value, definedIndex, if here then sofar.value else section);
        return;
      }
      if here { WalkOn(src, m, offset, rest, imports, content, seen, globalImports, globalContent, sofar); }
      if contentOffset + sectionSize <= offset { return Backwards; }
      offset := contentOffset + sectionSize;
      if here { rest := rest[1..]; }
    }
    if here { WalkEnds(src, m, offset, rest, globalImports, globalContent, sofar); }
    return Null;
  }

  lemma WalkStart(src: seq<Byte>, m: Module)
    requires OkModule(m) && src == EncModule(m)
    ensures Walk(src, m, 8, m.before, 0, None, None) && |src| >= 8
  {
    hide EncTail, PlainBefore, OkSection, At, EncSections;
    BodyAt(src, m);
  }

  lemma WalkSees(src: seq<Byte>, m: Module, offset: int, rest: seq<Section>,
                 imports: int, content: Option<int>, seen: Option<Section>)
    requires Walk(src, m, offset, rest, imports, content, seen) && offset < |src|
    ensures rest == [] <==> Get(src, offset) == 7
    ensures rest == [] ==> m.exports.Some?
    ensures rest == [] ==> var e := m.exports.value;
              At(src, offset + 1 + ReadU(src, offset + 1).1, Enc(e.count) + (EncExports(e.entries) + m.after))
    ensures rest != [] ==> var s := rest[0];
              && OkSection(s) && ReadU(src, offset + 1).0 == |Content(s)| && 0 < ReadU(src, offset + 1).1
              && At(src, offset + 1 + ReadU(src, offset + 1).1, Content(s))
              && (s.Imports? <==> Get(src, offset) == 2) && (s.Globals? <==> Get(src, offset) == 6)
  {
    hide EncTail, PlainBefore, At, EncSections, Content, Enc, EncExports, ReadU, Get, GlobalsAt;
    SectionHead(src, offset, rest, m);
  }

  lemma WalkOn(src: seq<Byte>, m: Module, offset: int, rest: seq<Section>,
               imports: int, content: Option<int>, seen: Option<Section>,
               globalImports: int, globalContent: Option<int>, sofar: Option<Section>)
    requires Walk(src, m, offset, rest, imports, content, seen) && offset < |src| && rest != []
    requires globalImports == imports + (if rest[0].Imports? then GlobalImportsIn(rest[0].imports) else 0)
    requires globalContent == (if rest[0].Globals? then Some(offset + 1 + ReadU(src, offset + 1).1) else content)
    requires sofar == (if rest[0].Globals? then Some(rest[0]) else seen)
    ensures var next := offset + 1 + ReadU(src, offset + 1).1 + ReadU(src, offset + 1).0;
            next > offset && Walk(src, m, next, rest[1..], globalImports, globalContent, sofar)
  {
    hide EncTail, PlainBefore, At, EncSections, Content, Enc, EncExports, ReadU, Get, GlobalImportsIn,
         OkSection, EncSection;
    SectionHead(src, offset, rest, m);
    SectionLength(rest[0]);
  }

  lemma SectionLength(s: Section)
    requires OkSection(s)
    ensures |EncSection(s)| == 1 + s.size.k + s.size.v && s.size.v == |Content(s)|
  {
    assert s.size.v == |Content(s)|;
    hide OkSection, Content, ULeb, Pow2;
  }

  lemma WalkExports(src: seq<Byte>, m: Module, offset: int, imports: int, content: Option<int>, seen: Option<Section>)
    requires Walk(src, m, offset, [], imports, content, seen) && m.exports.Some? && src == EncModule(m)
    ensures imports == GlobalImports(m.before) && (content.None? <==> seen.None?)
    ensures seen.Some? ==> seen.value.Globals? && OkSection(seen.value) && At(src, content.value, Content(seen.value))
    ensures (forall x :: x in m.exports.value.entries ==> OkName(x.name))
    ensures m.exports.value.count.v == |m.exports.value.entries|
    ensures var index := FirstHeapBase(m.exports.value.entries);
            HeapBaseRead(m) ==
              if index.None? || content.None? || index.value < imports then Null
              else DefinedAt(src, content.value, index.value - imports)
    ensures PlainBefore(m) ==>
            var index, globals := FirstHeapBase(m.exports.value.entries), ListOf(seen);
            if index.None? || globals.None? then HeapBaseOf(m) == None
            else
              var d := index.value - imports;
              && HeapBaseOf(m) == (if 0 <= d < |globals.value| then ConstValue(globals.value[d].init) else None)
              && (0 <= d ==> Plain(globals.value, d))
  {
    hide EncTail, At, Content, Enc, EncExports, OkSection, PlainBefore, HeapBaseOf, EncInit,
         OkName, FirstHeapBase, DefinedAt,
         EncModule, GlobalImports;
    assert GlobalImports([]) == 0 by { NoImports(); }
    if PlainBefore(m) { ExportsSay(m, ListOf(seen)); }
  }

  lemma NoImports()
    ensures GlobalImports([]) == 0
  {
  }

  lemma WalkEnds(src: seq<Byte>, m: Module, offset: int, rest: seq<Section>,
                 imports: int, content: Option<int>, seen: Option<Section>)
    requires Walk(src, m, offset, rest, imports, content, seen) && offset >= |src|
    ensures HeapBaseOf(m) == None && HeapBaseRead(m) == Null
  {
    hide EncTail, PlainBefore, At, EncSections, Content, HeapBaseOf, HeapBaseRead;
    NoExports(src, offset, rest, m);
  }

  lemma BodyAt(src: seq<Byte>, m: Module)
    requires |m.header| == 8 && src == EncModule(m)
    ensures |src| == 8 + |EncSections(m.before) + EncTail(m)|
    ensures At(src, 8, EncSections(m.before) + EncTail(m))
  {
    hide EncTail, EncSections;
    var body := EncSections(m.before) + EncTail(m);
    assert src[8..8 + |body|] == body;
  }

  lemma SectionHead(src: seq<Byte>, offset: int, rest: seq<Section>, m: Module)
    requires OkModule(m) && 0 <= offset < |src| == offset + |EncSections(rest) + EncTail(m)|
    requires At(src, offset, EncSections(rest) + EncTail(m))
    requires forall s :: s in rest ==> OkSection(s)
    ensures rest == [] ==> m.exports.Some? && Get(src, offset) == 7
    ensures rest == [] && m.exports.Some? ==>
              var e := m.exports.value;
              ReadU(src, offset + 1) == (e.size.v, e.size.k)
              && At(src, offset + 1 + e.size.k, Enc(e.count) + (EncExports(e.entries) + m.after))
    ensures rest != [] ==>
              var s := rest[0];
              && OkSection(s) && Get(src, offset) == SectionId(s) && ReadU(src, offset + 1) == (s.size.v, s.size.k)
              && At(src, offset + 1 + s.size.k, Content(s)) && s.size.v == |Content(s)|
              && At(src, offset + 1 + s.size.k + s.size.v, EncSections(rest[1..]) + EncTail(m))
              && |EncSections(rest) + EncTail(m)| == 1 + s.size.k + s.size.v + |EncSections(rest[1..]) + EncTail(m)|
  {
    hide At, Enc, OkSection, EncSection, EncExports, Content, EncTail;
    if rest == [] {
      assert EncSections(rest) + EncTail(m) == EncTail(m);
      TailHead(src, offset, m);
    } else {
      var s := rest[0];
      var more := EncSections(rest[1..]) + EncTail(m);
      assert EncSections(rest) + EncTail(m) == EncSection(s) + more;
      AtSplit(src, offset, EncSection(s), more);
      OneSection(src, offset, s);
    }
  }

  lemma HeadAt(src: seq<Byte>, offset: int, id: Byte, size: Size, content: seq<Byte>)
    requires At(src, offset, [id] + (Enc(size) + content))
    ensures Get(src, offset) == id && ReadU(src, offset + 1) == (size.v, size.k)
    ensures At(src, offset + 1 + size.k, content)
  {
    hide At, Enc, Get, ReadU, Pow2, ULeb;
    AtFirst(src, offset, id, Enc(size) + content);
    AtSplit(src, offset + 1, Enc(size), content);
    ReadsSize(src, offset + 1, size);
  }

  lemma OneSection(src: seq<Byte>, offset: int, s: Section)
    requires OkSection(s) && At(src, offset, EncSection(s))
    ensures Get(src, offset) == SectionId(s) && ReadU(src, offset + 1) == (s.size.v, s.size.k)
    ensures At(src, offset + 1 + s.size.k, Content(s)) && s.size.v == |Content(s)|
    ensures |EncSection(s)| == 1 + s.size.k + s.size.v
  {
    hide At, Enc, OkSection, Content, Get, ReadU, Pow2, ULeb, SectionId;
    SectionLength(s);
    HeadAt(src, offset, SectionId(s), s.size, Content(s));
  }

  lemma TailHead(src: seq<Byte>, offset: int, m: Module)
    requires OkModule(m) && offset < |src| && At(src, offset, EncTail(m)) && |EncTail(m)| == |src| - offset
    ensures m.exports.Some? && Get(src, offset) == 7
    ensures var e := m.exports.value;
            ReadU(src, offset + 1) == (e.size.v, e.size.k)
              && At(src, offset + 1 + e.size.k, Enc(e.count) + (EncExports(e.entries) + m.after))
  {
    hide At, Enc, EncExports, Get, ReadU;
    var e := m.exports.value;
    var more := Enc(e.count) + (EncExports(e.entries) + m.after);
    AtFirst(src, offset, 7, Enc(e.size) + more);
    AtSplit(src, offset + 1, Enc(e.size), more);
    ReadsSize(src, offset + 1, e.size);
  }

  lemma ExportsSay(m: Module, globals: Option<seq<Global>>)
    requires m.exports.Some? && PlainBefore(m) && GlobalsOf(m.before, None) == globals
    ensures var index := FirstHeapBase(m.exports.value.entries);
            if index.None? || globals.None? then HeapBaseOf(m) == None
            else
              var d := index.value - GlobalImports(m.before);
              && HeapBaseOf(m) == (if 0 <= d < |globals.value| then ConstValue(globals.value[d].init) else None)
              && forall i :: 0 <= i < |globals.value| && i < d ==> 0x0B !in EncInit(globals.value[i].init)
  {
  }

  lemma NoExports(src: seq<Byte>, offset: int, rest: seq<Section>, m: Module)
    requires OkModule(m) && offset >= |src| && At(src, offset, EncSections(rest) + EncTail(m))
    ensures HeapBaseOf(m) == None && HeapBaseRead(m) == Null
  {
    assert |EncTail(m)| == 0;
  }

  // ---- an initialiser that holds the `end` byte ----

  lemma SmallNumbers()
    ensures Pow2(7) == 128 && Pow2(6) == 64 && Pow2(13) == 8192 && Pow2(14) == 16384
    ensures forall v: nat {:trigger ULeb(v, 1)} :: v < 128 ==> ULeb(v, 1) == [v]
    ensures SLeb(11, 1) == [11] && SLeb(1024, 2) == [0x80, 0x08]
  {
    TwoToThe32();
    assert Pow2(6) == 64 && Pow2(7) == 128;
    Pow2Add(7, 7);
    Pow2Add(7, 6);
    assert SLeb(8, 1) == [8];
  }

  function Eleven(): Global { Global(0x7f, 0, I32Const(11, 1)) }

  function Kibi(): Global { Global(0x7f, 0, I32Const(1024, 2)) }

  /** Globals initialised with 11 and 1024, the second exported as `__heap_base`. */
  function ElevenModule(): Module {
    SmallNumbers();
    Module([0, 0x61, 0x73, 0x6d, 1, 0, 0, 0],
           [Globals(Num(12, 1), Num(2, 1), [Eleven(), Kibi()])],
           Some(Exports(Num(15, 1), Num(1, 1), [Export(Name(Num(11, 1), HEAP_BASE), 3, Num(1, 1))])),
           [])
  }

  lemma ElevenContent()
    ensures EncGlobals([Eleven(), Kibi()]) == [0x7f, 0, 0x41, 0x0B, 0x0B, 0x7f, 0, 0x41, 0x80, 0x08, 0x0B]
  {
    SmallNumbers();
    hide Pow2, SLeb;
    assert [Eleven(), Kibi()][1..] == [Kibi()] && [Kibi()][1..] == [];
    assert EncGlobals([Kibi()]) == EncGlobal(Kibi()) + [];
  }

  lemma ElevenOk()
    ensures OkModule(ElevenModule())
  {
    SmallNumbers();
    ElevenContent();
    hide Pow2, ULeb, SLeb, EncGlobals, EncExports;
    var m := ElevenModule();
    var s := m.before[0];
    assert OkInit(Eleven().init) && OkInit(Kibi().init);
    assert Content(s) == [2] + EncGlobals(s.globals) && |Content(s)| == 12;
    assert OkSection(s);
    hide OkSection;
  }

  lemma SecondByte(h: seq<Byte>, g: seq<Byte>, tail: seq<Byte>)
    requires |h| == 8 && |g| == 11 && g[..7] == [0x7f, 0, 0x41, 0x0B, 0x0B, 0x7f, 0]
    ensures var src := h + (([6] + ([12] + ([2] + g))) + tail);
            |src| > 17 && src[10] == 2 && src[13] == 0x41 && src[14] == 0x0B && src[17] == 0
  {
    var src := h + (([6] + ([12] + ([2] + g))) + tail);
    assert src[13] == g[..7][2] && src[14] == g[..7][3] && src[17] == g[..7][6];
  }

  lemma ElevenBytes()
    ensures var src := EncModule(ElevenModule());
            |src| > 17 && src[10] == 2 && src[13] == 0x41 && src[14] == 0x0B && src[17] == 0
  {
    SmallNumbers();
    ElevenContent();
    hide Pow2, ULeb, EncGlobals, EncTail;
    var m := ElevenModule();
    var s := m.before[0];
    assert m.before[1..] == [];
    assert EncSections(m.before) == [6] + ([12] + ([2] + EncGlobals(s.globals)));
    SecondByte(m.header, EncGlobals(s.globals), EncTail(m));
  }

  /** The module's heap base is 1024, and the walk finds none:
      it reads the second global from the middle of the first. */
  lemma ElevenMisleads()
    ensures OkModule(ElevenModule()) && HeapBaseOf(ElevenModule()) == Some(1024) && HeapBaseRead(ElevenModule()) == Null
  {
    var m := ElevenModule();
    var src := EncModule(m);
    ElevenBytes();
    ElevenOk();
    ElevenSays();
    SmallNumbers();
    assert src[10..11] == ULeb(2, 1);
    ReadsUnsigned(src, 10, 2, 1);
    hide EncModule, HeapBaseOf, ReadU, EncGlobals, EncExports, Pow2, ULeb;
    assert FirstEnd(src, 13) == FirstEnd(src, 14) == Some(15);
    assert Skipped(src, 11, 1) == Skipped(src, 15, 0) == Some(15);
    assert InitAt(src, 15) == None;
    assert DefinedAt(src, 10, 1) == Null;
  }

  lemma ElevenSays()
    ensures var m := ElevenModule();
            && HeapBaseOf(m) == Some(1024) && FirstHeapBase(m.exports.value.entries) == Some(1)
            && GlobalsStart(m.before, 8, None) == Some(10) && GlobalImports(m.before) == 0
  {
    var m := ElevenModule();
    assert m.before[1..] == [];
    hide EncSection;
    assert HEAP_BASE[..3][0] == 0x5f;
    assert IsHeapBase(m.exports.value.entries[0]);
    var s := m.before[0];
    assert GlobalsStart([], 8 + |EncSection(s)|, Some(10)) == Some(10);
    assert GlobalsOf(m.before, None) == GlobalsOf([], Some(s.globals)) == Some(s.globals);
  }
}
