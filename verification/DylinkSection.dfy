/** The "dylink.0" custom section and its parser in host/src/dylink.ts. */
module DylinkSection {
  import opened Bits
  import opened Int32
  import opened Leb128
  import opened WasmModule
  import opened Wrappers

  /** A decoded string, as its UTF-8 bytes. */
  type String = seq<Byte>

  datatype Metadata = Metadata(
    memorySize: nat, memoryAlign: nat, tableSize: nat, tableAlign: nat,
    neededDynlibs: seq<String>, tlsExports: set<String>, weakImports: set<String>)

  // ---- the section as its producer writes it ----

  /** Any u32 in at most five bytes. */
  type U32 = x: Num | 0 < x.k <= 5 && x.v < Pow2(7 * x.k) && x.v < TWO32 witness Num(0, 1)

  datatype Text = Text(len: U32, bytes: seq<Byte>)

  datatype ExportInfo = ExportInfo(name: Text, flags: U32)

  datatype ImportInfo = ImportInfo(mod: Text, field: Text, flags: U32)

  datatype Payload =
    | MemInfo(memorySize: U32, memoryAlign: U32, tableSize: U32, tableAlign: U32)
    | Needed(neededCount: U32, names: seq<Text>)
    | ExportInfos(exportCount: U32, exports: seq<ExportInfo>)
    | ImportInfos(importCount: U32, imports: seq<ImportInfo>)
    | Unknown

  /** A sub-section; bytes beyond its known payload, or all of an unknown one, are in `extra`. */
  datatype Sub = Sub(kind: U32, size: U32, payload: Payload, extra: seq<Byte>)

  /** Eight header bytes, a custom section with this name and these sub-sections, and the rest of the module. */
  datatype Library = Library(version: seq<Byte>, size: U32, name: Text, subs: seq<Sub>, after: seq<Byte>)

  const MAGIC: seq<Byte> := [0x00, 0x61, 0x73, 0x6d]

  const DYLINK: seq<Byte> := Ascii("dylink.0")

  function EncU(x: U32): seq<Byte> { ULeb(x.v, x.k) }

  function EncText(t: Text): seq<Byte> { EncU(t.len) + t.bytes }

  function EncTexts(s: seq<Text>): seq<Byte> {
    if s == [] then [] else EncText(s[0]) + EncTexts(s[1..])
  }

  function EncExportInfo(e: ExportInfo): seq<Byte> { EncText(e.name) + EncU(e.flags) }

  function EncExportInfos(s: seq<ExportInfo>): seq<Byte> {
    if s == [] then [] else EncExportInfo(s[0]) + EncExportInfos(s[1..])
  }

  function EncImportInfo(i: ImportInfo): seq<Byte> { EncText(i.mod) + (EncText(i.field) + EncU(i.flags)) }

  function EncImportInfos(s: seq<ImportInfo>): seq<Byte> {
    if s == [] then [] else EncImportInfo(s[0]) + EncImportInfos(s[1..])
  }

  function EncPayload(p: Payload): seq<Byte> {
    match p
    case MemInfo(a, b, c, d) => EncU(a) + (EncU(b) + (EncU(c) + EncU(d)))
    case Needed(count, names) => EncU(count) + EncTexts(names)
    case ExportInfos(count, exports) => EncU(count) + EncExportInfos(exports)
    case ImportInfos(count, imports) => EncU(count) + EncImportInfos(imports)
    case Unknown => []
  }

  function EncSub(s: Sub): seq<Byte> { EncU(s.kind) + (EncU(s.size) + (EncPayload(s.payload) + s.extra)) }

  function EncSubs(s: seq<Sub>): seq<Byte> {
    if s == [] then [] else EncSub(s[0]) + EncSubs(s[1..])
  }

  function EncLibrary(l: Library): seq<Byte> {
    MAGIC + (l.version + ([0] + (EncU(l.size) + (EncText(l.name) + (EncSubs(l.subs) + l.after)))))
  }

  predicate OkText(t: Text) { t.len.v == |t.bytes| }

  predicate OkPayload(p: Payload) {
    match p
    case MemInfo(_, _, _, _) => true
    case Needed(count, names) => count.v == |names| && forall t :: t in names ==> OkText(t)
    case ExportInfos(count, exports) => count.v == |exports| && forall e :: e in exports ==> OkText(e.name)
    case ImportInfos(count, imports) =>
      count.v == |imports| && forall i :: i in imports ==> OkText(i.mod) && OkText(i.field)
    case Unknown => true
  }

  predicate OkSub(s: Sub) {
    && s.size.v == |EncPayload(s.payload)| + |s.extra|
    && OkPayload(s.payload)
    && match s.payload
       case MemInfo(_, _, _, _) => s.kind.v == 1
       case Needed(_, _) => s.kind.v == 2
       case ExportInfos(_, _) => s.kind.v == 3
       case ImportInfos(_, _) => s.kind.v == 4
       case Unknown => s.kind.v == 0 || s.kind.v > 4
  }

  predicate OkLibrary(l: Library) {
    && |l.version| == 4 && OkText(l.name) && l.size.v == |EncText(l.name)| + |EncSubs(l.subs)|
    && forall s :: s in l.subs ==> OkSub(s)
  }

  // ---- what the sub-sections say ----

  function Names(s: seq<Text>): seq<String> {
    if s == [] then [] else [Decode(s[0].bytes)] + Names(s[1..])
  }

  function Tls(s: seq<ExportInfo>): set<String> {
    set e | e in s && e.flags.v % 2 == 1 :: Decode(e.name.bytes)
  }

  function Weak(s: seq<ImportInfo>): set<String> {
    set i | i in s && (i.flags.v / 2) % 2 == 1 :: Decode(i.field.bytes)
  }

  /** One sub-section's contribution: sizes are set, names and flags accumulate, the unknown is nothing. */
  function Absorb(md: Metadata, p: Payload): Metadata {
    match p
    case MemInfo(a, b, c, d) => md.(memorySize := a.v, memoryAlign := b.v, tableSize := c.v, tableAlign := d.v)
    case Needed(_, names) => md.(neededDynlibs := md.neededDynlibs + Names(names))
    case ExportInfos(_, exports) => md.(tlsExports := md.tlsExports + Tls(exports))
    case ImportInfos(_, imports) => md.(weakImports := md.weakImports + Weak(imports))
    case Unknown => md
  }

  function AbsorbAll(md: Metadata, s: seq<Sub>): Metadata
    decreases |s|
  {
    if s == [] then md else AbsorbAll(Absorb(md, s[0].payload), s[1..])
  }

  const EMPTY := Metadata(0, 0, 0, 0, [], {}, {})

  // ---- reading ----

  lemma ReadsU32(src: seq<Byte>, pos: int, x: U32)
    requires At(src, pos, EncU(x))
    ensures ReadVar(src, pos) == (x.v, pos + x.k) && |EncU(x)| == x.k
  {
    hide ULeb, Pow2;
    ReadsUnsigned(src, pos, x.v, x.k);
  }

  lemma ReadVarAdvances(src: seq<Byte>, pos: int)
    ensures ReadVar(src, pos).1 > pos
  {
    FoldAdvances(src, pos, 0, 0);
  }

  method ReadU32(src: seq<Byte>, off: int, ghost x: U32) returns (value: nat, next: int)
    ensures next > off
    ensures At(src, off, EncU(x)) ==> value == x.v && next == off + |EncU(x)|
  {
    hide EncU, At, ReadVar;
    value, next := ReadVarUint(src, off);
    ReadVarAdvances(src, off);
    if At(src, off, EncU(x)) { ReadsU32(src, off, x); }
  }

  lemma DecodeDrops(bytes: seq<Byte>)
    ensures if [0xef, 0xbb, 0xbf] <= bytes then bytes == [0xef, 0xbb, 0xbf] + Decode(bytes) else Decode(bytes) == bytes
    ensures [0xef, 0xbb, 0xbf] <= bytes ==> Decode(bytes) == bytes[3..]
  {
  }

  method ReadString(src: seq<Byte>, off: int, ghost t: Text) returns (s: String, next: int)
    ensures next > off
    ensures OkText(t) && At(src, off, EncText(t)) ==> s == Decode(t.bytes) && next == off + |EncText(t)|
    ensures OkText(t) && At(src, off, EncText(t)) ==>
              t.bytes == s || t.bytes == [0xef, 0xbb, 0xbf] + s
    ensures OkText(t) && At(src, off, EncText(t)) && [0xef, 0xbb, 0xbf] <= t.bytes ==> s == t.bytes[3..]
  {
    DecodeDrops(t.bytes);
    hide EncU, At, Decode;
    ghost var here := OkText(t) && At(src, off, EncText(t));
    if here { AtSplit(src, off, EncU(t.len), t.bytes); }
    var len, pos := ReadU32(src, off, t.len);
    s := Decode(Slice(src, pos, pos + len));
    if here { SliceAt(src, pos, t.bytes); }
    next := pos + len;
  }

  method ReadMemInfo(src: seq<Byte>, off: int, md: Metadata, ghost p: Payload) returns (r: Metadata)
    ensures p.MemInfo? && At(src, off, EncPayload(p)) ==> r == Absorb(md, p)
  {
    hide EncU, At;
    ghost var here := p.MemInfo? && At(src, off, EncPayload(p));
    ghost var q := if here then p else MemInfo(Num(0, 1), Num(0, 1), Num(0, 1), Num(0, 1));
    if here {
      var bcd, cd := EncU(q.memoryAlign) + (EncU(q.tableSize) + EncU(q.tableAlign)),
                     EncU(q.tableSize) + EncU(q.tableAlign);
      AtSplit(src, off, EncU(q.memorySize), bcd);
      AtSplit(src, off + |EncU(q.memorySize)|, EncU(q.memoryAlign), cd);
      AtSplit(src, off + |EncU(q.memorySize)| + |EncU(q.memoryAlign)|, EncU(q.tableSize), EncU(q.tableAlign));
    }
    var a, p1 := ReadU32(src, off, q.memorySize);
    var b, p2 := ReadU32(src, p1, q.memoryAlign);
    var c, p3 := ReadU32(src, p2, q.tableSize);
    var d, _ := ReadU32(src, p3, q.tableAlign);
    r := md.(memorySize := a, memoryAlign := b, tableSize := c, tableAlign := d);
  }

  method ReadNeeded(src: seq<Byte>, off: int, md: Metadata, ghost p: Payload) returns (r: Metadata)
    ensures p.Needed? && OkPayload(p) && At(src, off, EncPayload(p)) ==> r == Absorb(md, p)
  {
    hide EncU, At, EncText, OkText, Decode;
    ghost var here := p.Needed? && OkPayload(p) && At(src, off, EncPayload(p));
    ghost var list := if here then p.names else [];
    if here { AtSplit(src, off, EncU(p.neededCount), EncTexts(list)); }
    var count, pos := ReadU32(src, off, if here then p.neededCount else Num(0, 1));
    var names := md.neededDynlibs;
    assert list[0..] == list;
    var i := 0;
    while i < count
      invariant 0 <= i <= count && (here ==> count == |list| && At(src, pos, EncTexts(list[i..])))
      invariant here ==> names + Names(list[i..]) == md.neededDynlibs + Names(list)
    {
      ghost var t := if here then list[i] else Text(Num(0, 1), []);
      if here {
        assert list[i..][1..] == list[i + 1..];
        assert t in p.names;
        AtSplit(src, pos, EncText(t), EncTexts(list[i + 1..]));
      }
      var s;
      s, pos := ReadString(src, pos, t);
      names := names + [s];
      i := i + 1;
    }
    assert here ==> list[count..] == [];
    r := md.(neededDynlibs := names);
  }

  method ReadExportInfo(src: seq<Byte>, off: int, ghost e: ExportInfo) returns (name: String, flags: nat, next: int)
    ensures OkText(e.name) && At(src, off, EncExportInfo(e)) ==>
              name == Decode(e.name.bytes) && flags == e.flags.v && next == off + |EncExportInfo(e)|
  {
    hide EncU, At, EncText, OkText, Decode;
    if At(src, off, EncExportInfo(e)) { AtSplit(src, off, EncText(e.name), EncU(e.flags)); }
    var pos;
    name, pos := ReadString(src, off, e.name);
    flags, next := ReadU32(src, pos, e.flags);
  }

  method ReadExportInfos(src: seq<Byte>, off: int, md: Metadata, ghost p: Payload) returns (r: Metadata)
    ensures p.ExportInfos? && OkPayload(p) && At(src, off, EncPayload(p)) ==> r == Absorb(md, p)
  {
    hide EncU, At, EncText, OkText, Decode, EncExportInfo, Tls;
    ghost var here := p.ExportInfos? && OkPayload(p) && At(src, off, EncPayload(p));
    ghost var list := if here then p.exports else [];
    if here { AtSplit(src, off, EncU(p.exportCount), EncExportInfos(list)); }
    var count, pos := ReadU32(src, off, if here then p.exportCount else Num(0, 1));
    var tls := md.tlsExports;
    assert list[0..] == list;
    NoFlags(list[..0], []);
    var i := 0;
    while i < count
      invariant 0 <= i <= count && (here ==> count == |list| && At(src, pos, EncExportInfos(list[i..])))
      invariant here ==> tls == md.tlsExports + Tls(list[..i])
    {
      ghost var e := if here then list[i] else ExportInfo(Text(Num(0, 1), []), Num(0, 1));
      if here {
        assert list[i..][1..] == list[i + 1..];
        assert e in p.exports;
        AtSplit(src, pos, EncExportInfo(e), EncExportInfos(list[i + 1..]));
        TlsMore(list, i);
      }
      var name, flags;
      name, flags, pos := ReadExportInfo(src, pos, e);
      if flags % 2 == 1 { tls := tls + {name}; }
      i := i + 1;
    }
    assert here ==> list[..count] == list;
    r := md.(tlsExports := tls);
  }

  lemma NoFlags(es: seq<ExportInfo>, is_: seq<ImportInfo>)
    ensures es == [] ==> Tls(es) == {}
    ensures is_ == [] ==> Weak(is_) == {}
  {
  }

  lemma TlsMore(s: seq<ExportInfo>, i: nat)
    requires i < |s|
    ensures Tls(s[..i + 1]) == Tls(s[..i]) + (if s[i].flags.v % 2 == 1 then {Decode(s[i].name.bytes)} else {})
  {
    hide Decode;
    assert s[..i + 1] == s[..i] + [s[i]];
  }

  method ReadImportInfo(src: seq<Byte>, off: int, ghost e: ImportInfo) returns (field: String, flags: nat, next: int)
    ensures OkText(e.mod) && OkText(e.field) && At(src, off, EncImportInfo(e)) ==>
              field == Decode(e.field.bytes) && flags == e.flags.v && next == off + |EncImportInfo(e)|
  {
    hide EncU, At, EncText, OkText, Decode;
    if At(src, off, EncImportInfo(e)) {
      AtSplit(src, off, EncText(e.mod), EncText(e.field) + EncU(e.flags));
      AtSplit(src, off + |EncText(e.mod)|, EncText(e.field), EncU(e.flags));
    }
    var mod, pos;
    mod, pos := ReadString(src, off, e.mod);
    field, pos := ReadString(src, pos, e.field);
    flags, next := ReadU32(src, pos, e.flags);
  }

  method ReadImportInfos(src: seq<Byte>, off: int, md: Metadata, ghost p: Payload) returns (r: Metadata)
    ensures p.ImportInfos? && OkPayload(p) && At(src, off, EncPayload(p)) ==> r == Absorb(md, p)
  {
    hide EncU, At, EncText, OkText, Decode, EncImportInfo, Weak;
    ghost var here := p.ImportInfos? && OkPayload(p) && At(src, off, EncPayload(p));
    ghost var list := if here then p.imports else [];
    if here { AtSplit(src, off, EncU(p.importCount), EncImportInfos(list)); }
    var count, pos := ReadU32(src, off, if here then p.importCount else Num(0, 1));
    var weak := md.weakImports;
    assert list[0..] == list;
    NoFlags([], list[..0]);
    var i := 0;
    while i < count
      invariant 0 <= i <= count && (here ==> count == |list| && At(src, pos, EncImportInfos(list[i..])))
      invariant here ==> weak == md.weakImports + Weak(list[..i])
    {
      ghost var e := if here then list[i] else ImportInfo(Text(Num(0, 1), []), Text(Num(0, 1), []), Num(0, 1));
      if here {
        assert list[i..][1..] == list[i + 1..];
        assert e in p.imports;
        AtSplit(src, pos, EncImportInfo(e), EncImportInfos(list[i + 1..]));
        WeakMore(list, i);
      }
      var field, flags;
      field, flags, pos := ReadImportInfo(src, pos, e);
      if (flags / 2) % 2 == 1 { weak := weak + {field}; }
      i := i + 1;
    }
    assert here ==> list[..count] == list;
    r := md.(weakImports := weak);
  }

  lemma WeakMore(s: seq<ImportInfo>, i: nat)
    requires i < |s|
    ensures Weak(s[..i + 1]) == Weak(s[..i]) + (if (s[i].flags.v / 2) % 2 == 1 then {Decode(s[i].field.bytes)} else {})
  {
    hide Decode;
    assert s[..i + 1] == s[..i] + [s[i]];
  }

  method ReadSub(src: seq<Byte>, off: int, md: Metadata, ghost s: Sub) returns (r: Metadata, next: int)
    ensures next > off
    ensures OkSub(s) && At(src, off, EncSub(s)) ==> r == Absorb(md, s.payload) && next == off + |EncSub(s)|
  {
    hide EncU, At, OkPayload, EncPayload, Absorb;
    ghost var here := OkSub(s) && At(src, off, EncSub(s));
    if here {
      AtSplit(src, off, EncU(s.kind), EncU(s.size) + (EncPayload(s.payload) + s.extra));
      AtSplit(src, off + |EncU(s.kind)|, EncU(s.size), EncPayload(s.payload) + s.extra);
      AtSplit(src, off + |EncU(s.kind)| + |EncU(s.size)|, EncPayload(s.payload), s.extra);
    }
    var subType, pos := ReadU32(src, off, s.kind);
    var subSize, start := ReadU32(src, pos, s.size);
    next := start + subSize;
    r := md;
    if subType == 1 {
      r := ReadMemInfo(src, start, md, s.payload);
    } else if subType == 2 {
      r := ReadNeeded(src, start, md, s.payload);
    } else if subType == 3 {
      r := ReadExportInfos(src, start, md, s.payload);
    } else if subType == 4 {
      r := ReadImportInfos(src, start, md, s.payload);
    } else if here {
      AbsorbUnknown(md, s.payload);
    }
  }

  lemma AbsorbUnknown(md: Metadata, p: Payload)
    requires p.Unknown?
    ensures Absorb(md, p) == md
  {
  }

  // ---- the parser ----

  /**
   * For every encoding of a library the parser returns what its sub-sections say together, or
   * nothing when the first section has another name.
   */
  method ParseDylinkSection(src: seq<Byte>, ghost l: Library) returns (r: Option<Metadata>)
    ensures OkLibrary(l) && src == EncLibrary(l) ==>
              r == if Decode(l.name.bytes) == Ascii("dylink.0") then Some(AbsorbAll(EMPTY, l.subs)) else None
  {
    hide EncU, At, EncText, OkText, EncSub, EncSubs, OkSub, Absorb, Decode;
    ghost var here := OkLibrary(l) && src == EncLibrary(l);
    if here { Layout(src, l); }
    if |src| < 8 { return None; }
    if src[0] != 0x00 || src[1] != 0x61 || src[2] != 0x73 || src[3] != 0x6d { return None; }
    if 8 >= |src| { return None; }
    if src[8] != 0 { return None; }
    var sectionSize, start := ReadU32(src, 9, l.size);
    var sectionEnd := start + sectionSize;
    var name, offset := ReadString(src, start, l.name);
    if name != DYLINK { return None; }
    var metadata := EMPTY;
    ghost var rest := if here then l.subs else [];
    while offset < sectionEnd
      invariant here ==> sectionEnd == offset + |EncSubs(rest)| && At(src, offset, EncSubs(rest))
      invariant here ==> forall s :: s in rest ==> OkSub(s)
      invariant here ==> AbsorbAll(metadata, rest) == AbsorbAll(EMPTY, l.subs)
      decreases sectionEnd - offset
    {
      ghost var s := Sub(Num(0, 1), Num(0, 1), Unknown, []);
      if here {
        FirstSub(src, offset, rest);
        s := rest[0];
      }
      metadata, offset := ReadSub(src, offset, metadata, s);
      if here { rest := rest[1..]; }
    }
    if here { NoSubs(rest); }
    return Some(metadata);
  }

  lemma FirstSub(src: seq<Byte>, pos: int, rest: seq<Sub>)
    requires At(src, pos, EncSubs(rest)) && |EncSubs(rest)| > 0
    ensures rest != [] && At(src, pos, EncSub(rest[0])) && At(src, pos + |EncSub(rest[0])|, EncSubs(rest[1..]))
    ensures |EncSubs(rest)| == |EncSub(rest[0])| + |EncSubs(rest[1..])|
  {
    hide At, EncSub;
    AtSplit(src, pos, EncSub(rest[0]), EncSubs(rest[1..]));
  }

  lemma NoSubs(rest: seq<Sub>)
    requires |EncSubs(rest)| == 0
    ensures rest == []
  {
  }

  lemma Layout(src: seq<Byte>, l: Library)
    requires OkLibrary(l) && src == EncLibrary(l)
    ensures |src| > 8 && src[..4] == MAGIC && src[8] == 0
    ensures At(src, 9, EncU(l.size)) && At(src, 9 + |EncU(l.size)|, EncText(l.name))
    ensures At(src, 9 + |EncU(l.size)| + |EncText(l.name)|, EncSubs(l.subs))
  {
    hide EncU, EncText, EncSubs, OkSub;
    var subs := EncSubs(l.subs) + l.after;
    var named := EncText(l.name) + subs;
    var sized := EncU(l.size) + named;
    assert src == MAGIC + l.version + [0] + sized;
    assert At(src, 9, sized);
    hide At;
    AtSplit(src, 9, EncU(l.size), named);
    AtSplit(src, 9 + |EncU(l.size)|, EncText(l.name), subs);
    AtSplit(src, 9 + |EncU(l.size)| + |EncText(l.name)|, EncSubs(l.subs), l.after);
  }

  // ---- parsing undoes printing ----

  ghost predicate Printable(md: Metadata) {
    && md.memorySize < TWO32 && md.memoryAlign < TWO32 && md.tableSize < TWO32 && md.tableAlign < TWO32
    && |md.neededDynlibs| < TWO32 && |md.tlsExports| < TWO32 && |md.weakImports| < TWO32
    && (forall s :: s in md.neededDynlibs || s in md.tlsExports || s in md.weakImports ==> Plain(s))
  }

  /** A string that fits a length prefix and does not start with a byte order mark. */
  predicate Plain(s: String) { |s| < TWO32 && !([0xef, 0xbb, 0xbf] <= s) }

  lemma DecodesToItself(s: String)
    requires Plain(s)
    ensures Decode(s) == s
  {
  }

  function U(v: nat): U32
    requires v < TWO32
  {
    TwoToThe32();
    Num(v, 5)
  }

  function TextOf(s: String): Text
    requires Plain(s)
  {
    Text(U(|s|), s)
  }

  ghost predicate Lists(s: seq<String>, all: set<String>) { |s| == |all| && forall x :: x in s <==> x in all }

  /** The four known sub-sections of a metadata value, with its sets listed in some order. */
  function Print(md: Metadata, tls: seq<String>, weak: seq<String>): seq<Payload>
    requires Printable(md) && Lists(tls, md.tlsExports) && Lists(weak, md.weakImports)
  {
    [ MemInfo(U(md.memorySize), U(md.memoryAlign), U(md.tableSize), U(md.tableAlign)),
      Needed(U(|md.neededDynlibs|), TextsOf(md.neededDynlibs)),
      ExportInfos(U(|tls|), TlsInfos(tls)),
      ImportInfos(U(|weak|), WeakInfos(weak)) ]
  }

  function TlsInfos(s: seq<String>): seq<ExportInfo>
    requires forall x :: x in s ==> Plain(x)
  {
    seq(|s|, i requires 0 <= i < |s| => ExportInfo(TextOf(s[i]), U(1)))
  }

  function WeakInfos(s: seq<String>): seq<ImportInfo>
    requires forall x :: x in s ==> Plain(x)
  {
    seq(|s|, i requires 0 <= i < |s| => ImportInfo(TextOf([]), TextOf(s[i]), U(2)))
  }

  function TextsOf(s: seq<String>): (r: seq<Text>)
    requires forall x :: x in s ==> Plain(x)
    ensures |r| == |s| && Names(r) == s && forall t :: t in r ==> OkText(t)
  {
    if s == [] then [] else [TextOf(s[0])] + TextsOf(s[1..])
  }

  /** The payloads of the sub-sections that are not unknown, in order. */
  function Known(s: seq<Sub>): seq<Payload>
    decreases |s|
  {
    if s == [] then [] else (if s[0].payload.Unknown? then [] else [s[0].payload]) + Known(s[1..])
  }

  function AbsorbKnown(md: Metadata, ps: seq<Payload>): Metadata
    decreases |ps|
  {
    if ps == [] then md else AbsorbKnown(Absorb(md, ps[0]), ps[1..])
  }

  /** Unknown sub-sections contribute nothing, wherever they stand. */
  lemma {:induction false} UnknownIgnored(md: Metadata, s: seq<Sub>)
    ensures AbsorbAll(md, s) == AbsorbKnown(md, Known(s))
    decreases |s|
  {
    if s != [] {
      UnknownIgnored(Absorb(md, s[0].payload), s[1..]);
      if s[0].payload.Unknown? {
        assert Known(s) == Known(s[1..]);
      } else {
        assert Known(s)[0] == s[0].payload && Known(s)[1..] == Known(s[1..]);
      }
    }
  }

  lemma TlsListed(tls: seq<String>)
    requires forall x :: x in tls ==> Plain(x)
    ensures forall x :: x in Tls(TlsInfos(tls)) <==> x in tls
  {
    hide Decode, U;
    var es := TlsInfos(tls);
    forall i | 0 <= i < |es|
      ensures es[i].flags.v == 1 && Decode(es[i].name.bytes) == tls[i]
    {
      FlagOne();
      assert tls[i] in tls;
      DecodesToItself(tls[i]);
    }
    forall x | x in tls
      ensures x in Tls(es)
    {
      var i :| 0 <= i < |tls| && tls[i] == x;
      assert es[i] in es;
    }
  }

  lemma FlagOne()
    ensures U(1).v == 1 && U(2).v == 2
  {
  }

  lemma WeakListed(weak: seq<String>)
    requires forall x :: x in weak ==> Plain(x)
    ensures forall x :: x in Weak(WeakInfos(weak)) <==> x in weak
  {
    hide Decode, U;
    var es := WeakInfos(weak);
    forall i | 0 <= i < |es|
      ensures es[i].flags.v == 2 && Decode(es[i].field.bytes) == weak[i]
    {
      FlagOne();
      assert weak[i] in weak;
      DecodesToItself(weak[i]);
    }
    forall x | x in weak
      ensures x in Weak(es)
    {
      var i :| 0 <= i < |weak| && weak[i] == x;
      assert es[i] in es;
    }
  }

  lemma AbsorbFour(md: Metadata, a: Payload, b: Payload, c: Payload, d: Payload)
    ensures AbsorbKnown(md, [a, b, c, d]) == Absorb(Absorb(Absorb(Absorb(md, a), b), c), d)
  {
    hide Absorb;
    assert [a, b, c, d][1..] == [b, c, d] && [b, c, d][1..] == [c, d] && [c, d][1..] == [d] && [d][1..] == [];
    var one, two, three := Absorb(md, a), Absorb(Absorb(md, a), b), Absorb(Absorb(Absorb(md, a), b), c);
    assert AbsorbKnown(md, [a, b, c, d]) == AbsorbKnown(one, [b, c, d]);
    assert AbsorbKnown(one, [b, c, d]) == AbsorbKnown(two, [c, d]) == AbsorbKnown(three, [d]);
  }

  lemma PrintSays(md: Metadata, tls: seq<String>, weak: seq<String>)
    requires Printable(md) && Lists(tls, md.tlsExports) && Lists(weak, md.weakImports)
    ensures AbsorbKnown(EMPTY, Print(md, tls, weak)) == md
  {
    hide Plain, Tls, Weak, TlsInfos, WeakInfos;
    var ps := Print(md, tls, weak);
    AbsorbFour(EMPTY, ps[0], ps[1], ps[2], ps[3]);
    TlsListed(tls);
    WeakListed(weak);
    assert Tls(TlsInfos(tls)) == md.tlsExports && Weak(WeakInfos(weak)) == md.weakImports;
  }

  /** Whatever unknown sub-sections stand between them, the known ones say what was printed. */
  lemma PrintedMeans(md: Metadata, tls: seq<String>, weak: seq<String>, subs: seq<Sub>)
    requires Printable(md) && Lists(tls, md.tlsExports) && Lists(weak, md.weakImports)
    requires Known(subs) == Print(md, tls, weak)
    ensures AbsorbAll(EMPTY, subs) == md
  {
    UnknownIgnored(EMPTY, subs);
    PrintSays(md, tls, weak);
  }

  /** A library whose known sub-sections are the printed ones of `md`. */
  ghost predicate Prints(l: Library, md: Metadata, tls: seq<String>, weak: seq<String>) {
    && Printable(md) && Lists(tls, md.tlsExports) && Lists(weak, md.weakImports)
    && OkLibrary(l) && Decode(l.name.bytes) == DYLINK && Known(l.subs) == Print(md, tls, weak)
  }

  /** Parsing undoes printing: the bytes of any library that prints `md` parse to `md`. */
  method ParsePrint(src: seq<Byte>, ghost l: Library, ghost md: Metadata, ghost tls: seq<String>,
                    ghost weak: seq<String>)
    returns (r: Option<Metadata>)
    ensures Prints(l, md, tls, weak) && src == EncLibrary(l) ==> r == Some(md)
  {
    hide EncLibrary, OkLibrary, Decode, Printable, Lists, Known, Print, AbsorbAll;
    r := ParseDylinkSection(src, l);
    if Prints(l, md, tls, weak) { PrintedMeans(md, tls, weak, l.subs); }
  }

  // ---- every metadata value of bounded size can be printed ----

  function KindOf(p: Payload): nat {
    match p
    case MemInfo(_, _, _, _) => 1
    case Needed(_, _) => 2
    case ExportInfos(_, _) => 3
    case ImportInfos(_, _) => 4
    case Unknown => 0
  }

  predicate Short(p: Payload) { |EncPayload(p)| < TWO32 && OkPayload(p) && !p.Unknown? }

  function SubOf(p: Payload): Sub
    requires Short(p)
  {
    Sub(U(KindOf(p)), U(|EncPayload(p)|), p, [])
  }

  function SubsOf(ps: seq<Payload>): seq<Sub>
    requires forall p :: p in ps ==> Short(p)
    decreases |ps|
  {
    if ps == [] then [] else [SubOf(ps[0])] + SubsOf(ps[1..])
  }

  lemma {:induction false} SubsOk(ps: seq<Payload>)
    requires forall p :: p in ps ==> Short(p)
    ensures Known(SubsOf(ps)) == ps && forall s :: s in SubsOf(ps) ==> OkSub(s)
    decreases |ps|
  {
    hide Short, SubOf, OkSub;
    if ps != [] {
      SubsOk(ps[1..]);
      SubOk(ps[0]);
      KnownMore(SubOf(ps[0]), SubsOf(ps[1..]));
      assert ps == [ps[0]] + ps[1..];
    }
  }

  lemma KnownMore(s: Sub, rest: seq<Sub>)
    requires !s.payload.Unknown?
    ensures Known([s] + rest) == [s.payload] + Known(rest)
  {
    assert ([s] + rest)[1..] == rest;
  }

  lemma SubOk(p: Payload)
    requires Short(p)
    ensures OkSub(SubOf(p)) && SubOf(p).payload == p && !p.Unknown?
  {
    hide EncPayload, OkPayload;
  }

  function LibraryOf(ps: seq<Payload>): Library
    requires forall p :: p in ps ==> Short(p)
    requires |EncText(Text(U(8), DYLINK))| + |EncSubs(SubsOf(ps))| < TWO32
  {
    var name := Text(U(8), DYLINK);
    Library([1, 0, 0, 0], U(|EncText(name)| + |EncSubs(SubsOf(ps))|), name, SubsOf(ps), [])
  }

  /** A metadata value whose printed sub-sections fit a section has a library that prints it. */
  lemma PrintableLibrary(md: Metadata, tls: seq<String>, weak: seq<String>)
    requires Printable(md) && Lists(tls, md.tlsExports) && Lists(weak, md.weakImports)
    requires forall p :: p in Print(md, tls, weak) ==> |EncPayload(p)| < TWO32
    ensures forall p :: p in Print(md, tls, weak) ==> Short(p)
    ensures |EncText(Text(U(8), DYLINK))| + |EncSubs(SubsOf(Print(md, tls, weak)))| < TWO32 ==>
              Prints(LibraryOf(Print(md, tls, weak)), md, tls, weak)
  {
    PrintOk(md, tls, weak);
    var ps := Print(md, tls, weak);
    SubsOk(ps);
    hide EncPayload, OkPayload, EncSubs, OkSub, Print, Printable, Lists, EncText, SubsOf;
    assert DYLINK[..3][0] == 0x64;
    assert OkText(Text(U(8), DYLINK)) && Decode(DYLINK) == DYLINK;
  }

  /** What is printed is well-formed. */
  lemma PrintOk(md: Metadata, tls: seq<String>, weak: seq<String>)
    requires Printable(md) && Lists(tls, md.tlsExports) && Lists(weak, md.weakImports)
    ensures forall p :: p in Print(md, tls, weak) ==> OkPayload(p) && !p.Unknown?
  {
    hide Decode;
  }
}
