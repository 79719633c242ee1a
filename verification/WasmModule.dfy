/**
 * The parts of a WebAssembly module that host/src/constants.ts reads, and their encoding as
 * section 5.5 of the WebAssembly Core Specification lays it out. Every number may be written in
 * any number of bytes that has room for it.
 */
module WasmModule {
  import opened Bits
  import opened Int32
  import opened Leb128
  import opened Wrappers

  datatype Num = Num(v: nat, k: nat)

  /** A number in `k` bytes. */
  type Leb = x: Num | 0 < x.k && x.v < Pow2(7 * x.k) witness Num(0, 1)

  /** A u32 in at most five bytes that a signed 32-bit read does not turn negative. */
  type Size = x: Num | 0 < x.k <= 5 && x.v < Pow2(7 * x.k) && x.v < 0x8000_0000 witness Num(0, 1)

  datatype Name = Name(len: Size, bytes: seq<Byte>)

  datatype Limits = Limits(flag: Byte, min: Leb, max: Leb)

  datatype ImportDesc =
    | FuncImport(index: Leb)
    | TableImport(reftype: Byte, limits: Limits)
    | MemoryImport(limits: Limits)
    | GlobalImport(valtype: Byte, mut: Byte)

  datatype Import = Import(mod: Name, field: Name, desc: ImportDesc)

  /** An initialiser: a constant in `k` bytes, or any other expression without its final `end`. */
  datatype Init = I32Const(v: I32, k: nat) | I64Const(v64: int, k: nat) | OtherInit(bytes: seq<Byte>)

  datatype Global = Global(valtype: Byte, mut: Byte, init: Init)

  datatype Export = Export(name: Name, kind: Byte, index: Size)

  datatype Section =
    | Raw(id: Byte, size: Size, bytes: seq<Byte>)
    | Imports(size: Size, importCount: Size, imports: seq<Import>)
    | Globals(size: Size, globalCount: Size, globals: seq<Global>)

  datatype Exports = Exports(size: Size, count: Size, entries: seq<Export>)

  /** A module as far as its export section; what follows may be anything. */
  datatype Module = Module(header: seq<Byte>, before: seq<Section>, exports: Option<Exports>, after: seq<Byte>)

  // ---- well-formedness ----

  predicate OkName(n: Name) { n.len.v == |n.bytes| }

  predicate OkImport(i: Import) { OkName(i.mod) && OkName(i.field) }

  predicate OkInit(i: Init) {
    match i
    case I32Const(v, k) => k <= 5 && Fits(v, k)
    case I64Const(v, k) => Fits(v, k)
    case OtherInit(bytes) => bytes == [] || (bytes[0] != 0x41 && bytes[0] != 0x42)
  }

  predicate OkSection(s: Section) {
    match s
    case Raw(id, size, bytes) => id != 2 && id != 6 && id != 7 && size.v == |bytes|
    case Imports(size, count, imports) =>
      (forall i :: i in imports ==> OkImport(i)) && count.v == |imports| && size.v == |Content(s)|
    case Globals(size, count, globals) =>
      (forall g :: g in globals ==> OkInit(g.init)) && count.v == |globals| && size.v == |Content(s)|
  }

  predicate OkModule(m: Module) {
    && |m.header| == 8
    && (forall s :: s in m.before ==> OkSection(s))
    && (m.exports.Some? ==> m.exports.value.count.v == |m.exports.value.entries|)
    && (m.exports.Some? ==> forall e :: e in m.exports.value.entries ==> OkName(e.name))
    && (m.exports.None? ==> m.after == [])
  }

  // ---- encoding ----

  function Enc(x: Leb): seq<Byte> { ULeb(x.v, x.k) }

  function EncName(n: Name): seq<Byte> { Enc(n.len) + n.bytes }

  function EncLimits(l: Limits): seq<Byte> {
    [l.flag] + Enc(l.min) + (if l.flag % 2 == 1 then Enc(l.max) else [])
  }

  function EncDesc(d: ImportDesc): seq<Byte> {
    match d
    case FuncImport(index) => [0] + Enc(index)
    case TableImport(reftype, limits) => [1] + ([reftype] + EncLimits(limits))
    case MemoryImport(limits) => [2] + EncLimits(limits)
    case GlobalImport(valtype, mut) => [3] + [valtype, mut]
  }

  function EncImport(i: Import): seq<Byte> { EncName(i.mod) + (EncName(i.field) + EncDesc(i.desc)) }

  function EncImports(s: seq<Import>): seq<Byte> {
    if s == [] then [] else EncImport(s[0]) + EncImports(s[1..])
  }

  function EncInit(i: Init): seq<Byte> {
    match i
    case I32Const(v, k) => if Fits(v, k) then [0x41] + SLeb(v, k) else []
    case I64Const(v, k) => if Fits(v, k) then [0x42] + SLeb(v, k) else []
    case OtherInit(bytes) => bytes
  }

  function EncGlobal(g: Global): seq<Byte> { [g.valtype, g.mut] + (EncInit(g.init) + [0x0B]) }

  function EncGlobals(s: seq<Global>): seq<Byte> {
    if s == [] then [] else EncGlobal(s[0]) + EncGlobals(s[1..])
  }

  function EncExport(e: Export): seq<Byte> { EncName(e.name) + ([e.kind] + Enc(e.index)) }

  function EncExports(s: seq<Export>): seq<Byte> {
    if s == [] then [] else EncExport(s[0]) + EncExports(s[1..])
  }

  function Content(s: Section): seq<Byte> {
    match s
    case Raw(_, _, bytes) => bytes
    case Imports(_, count, imports) => Enc(count) + EncImports(imports)
    case Globals(_, count, globals) => Enc(count) + EncGlobals(globals)
  }

  function SectionId(s: Section): Byte {
    match s
    case Raw(id, _, _) => id
    case Imports(_, _, _) => 2
    case Globals(_, _, _) => 6
  }

  function EncSection(s: Section): seq<Byte> { [SectionId(s)] + (Enc(s.size) + Content(s)) }

  function EncSections(s: seq<Section>): seq<Byte> {
    if s == [] then [] else EncSection(s[0]) + EncSections(s[1..])
  }

  function EncTail(m: Module): seq<Byte> {
    match m.exports
    case None => m.after
    case Some(e) => [7] + (Enc(e.size) + (Enc(e.count) + (EncExports(e.entries) + m.after)))
  }

  function EncModule(m: Module): seq<Byte> { m.header + (EncSections(m.before) + EncTail(m)) }

  // ---- what the module says about its heap base ----

  /** A decoded name, as its UTF-8 bytes: the decoder drops one leading byte order mark. */
  function Decode(bytes: seq<Byte>): seq<Byte> {
    if |bytes| >= 3 && bytes[..3] == [0xef, 0xbb, 0xbf] then bytes[3..] else bytes
  }

  const HEAP_BASE: seq<Byte> := Ascii("__heap_base")

  predicate NamesHeapBase(bytes: seq<Byte>) { Decode(bytes) == HEAP_BASE }

  predicate IsHeapBase(e: Export) { e.kind == 3 && NamesHeapBase(e.name.bytes) }

  /** A name counts as `__heap_base` on its own or after one byte order mark. */
  lemma HeapBaseName(e: Export)
    ensures IsHeapBase(e) <==>
              e.kind == 3 && (e.name.bytes == Ascii("__heap_base") ||
                              e.name.bytes == [0xef, 0xbb, 0xbf] + Ascii("__heap_base"))
  {
    var bytes := e.name.bytes;
    var mark: seq<Byte> := [0xef, 0xbb, 0xbf];
    assert Ascii("__heap_base")[0] == 0x5f;
    if |bytes| >= 3 && bytes[..3] == mark {
      assert bytes == mark + bytes[3..] && bytes[0] == 0xef;
    }
  }

  function FirstHeapBase(s: seq<Export>): Option<nat> {
    if s == [] then None else if IsHeapBase(s[0]) then Some(s[0].index.v) else FirstHeapBase(s[1..])
  }

  function GlobalImportsIn(s: seq<Import>): nat {
    if s == [] then 0 else (if s[0].desc.GlobalImport? then 1 else 0) + GlobalImportsIn(s[1..])
  }

  function GlobalImports(s: seq<Section>): nat {
    if s == [] then 0 else (if s[0].Imports? then GlobalImportsIn(s[0].imports) else 0) + GlobalImports(s[1..])
  }

  /** The globals of the last global section, or those already at hand. */
  function GlobalsOf(s: seq<Section>, sofar: Option<seq<Global>>): Option<seq<Global>> {
    if s == [] then sofar else GlobalsOf(s[1..], if s[0].Globals? then Some(s[0].globals) else sofar)
  }

  function ConstValue(i: Init): Option<nat> {
    match i
    case I32Const(v, _) => Some(v % TWO32)
    case I64Const(v, _) => Some(v % TWO64)
    case OtherInit(_) => None
  }

  /** The constant of the defined global exported as `__heap_base`, read as unsigned. */
  function HeapBaseOf(m: Module): Option<nat> {
    if m.exports.None? then None
    else
      var index, globals := FirstHeapBase(m.exports.value.entries), GlobalsOf(m.before, None);
      if index.None? || globals.None? then None
      else
        var d := index.value - GlobalImports(m.before);
        if 0 <= d < |globals.value| then ConstValue(globals.value[d].init) else None
  }

  /** No initialiser of the globals before the exported one holds the byte of the `end` opcode. */
  predicate PlainBefore(m: Module) {
    m.exports.Some? ==>
      var index, globals := FirstHeapBase(m.exports.value.entries), GlobalsOf(m.before, None);
      index.Some? && globals.Some? ==>
        forall i :: 0 <= i < |globals.value| && i < index.value - GlobalImports(m.before) ==>
          0x0B !in EncInit(globals.value[i].init)
  }
}
