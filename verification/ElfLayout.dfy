/** The library's layout of an ELF object, as functions of the object. */
module ElfLayout {
  import opened Arith
  import opened Extents
  import opened Memory
  import opened Options
  import opened ElfObject

  // ----- data descriptors within a section

  function DataError(c: Context, d: Data): Option<Error>
    requires c.codec.msz(d.dtype) > 0
  {
    if d.dtype.Invalid? then Some(EData)
    else if d.version != c.version then Some(EVersion)
    else if !PowerOfTwo(d.align) then Some(EData)
    else if d.size % c.codec.msz(d.dtype) != 0 then Some(EData)
    else None
  }

  /** The error of the first descriptor, among the first `n`, that has one. */
  ghost function FirstError(c: Context, ds: seq<Data>, n: nat): Option<Error>
    requires c.codec.Valid() && n <= |ds|
  {
    if n == 0 then None
    else if FirstError(c, ds, n - 1).Some? then FirstError(c, ds, n - 1)
    else DataError(c, ds[n - 1])
  }

  ghost predicate Sound(c: Context, ds: seq<Data>)
    requires c.codec.Valid()
  {
    FirstError(c, ds, |ds|).None?
  }

  /** The bytes of a section up to the end of descriptor `n - 1`, each put at the next aligned place. */
  ghost function DataSize(c: Context, ds: seq<Data>, n: nat): nat
    requires c.codec.Valid() && n <= |ds|
  {
    if n == 0 || ds[n - 1].align == 0 then 0
    else RoundUp(DataSize(c, ds, n - 1), ds[n - 1].align) + c.FileSize(ds[n - 1])
  }

  /** The place of descriptor `i` in its section. */
  ghost function DataOff(c: Context, ds: seq<Data>, i: nat): nat
    requires c.codec.Valid() && i < |ds|
  {
    if ds[i].align == 0 then 0 else RoundUp(DataSize(c, ds, i), ds[i].align)
  }

  ghost function Placed(c: Context, ds: seq<Data>): (r: seq<Data>)
    requires c.codec.Valid()
    ensures |r| == |ds|
  {
    seq(|ds|, i requires 0 <= i < |ds| => ds[i].(off := DataOff(c, ds, i)))
  }

  function MaxAlign(ds: seq<Data>, n: nat): nat
    requires n <= |ds|
  {
    if n == 0 then 0
    else if ds[n - 1].align > MaxAlign(ds, n - 1) then ds[n - 1].align
    else MaxAlign(ds, n - 1)
  }

  // ----- sections

  /** elf_getdata(): a descriptor with the translated contents of a section of the file. */
  function GetData(c: Context, s: Scn): Result<Data, Error>
    requires s.shdr.shtype.Contents?
    requires c.codec.fsz(s.shdr.shtype.t) > 0
  {
    var t := s.shdr.shtype.t;
    if c.raw.None? then Err(EArgument)
    else if s.shdr.offset > |c.raw.value| || s.shdr.size > |c.raw.value| - s.shdr.offset then Err(ESection)
    else if s.shdr.size % c.codec.fsz(t) != 0 then Err(ESection)
    else
      var count := s.shdr.size / c.codec.fsz(t);
      if count > 0 && c.codec.msz(t) > (TWO64 - 1) / count then Err(ERange)
      else
        var d := Data(t, c.version, s.shdr.addralign, c.codec.msz(t) * count, 0, None);
        if s.shdr.size == 0 then Ok(d)
        else
          var m := c.codec.toMemory(t, c.raw.value[s.shdr.offset..s.shdr.offset + s.shdr.size]);
          if m.None? then Err(EData) else Ok(d.(buf := m))
  }

  /** The section header alignment that layout starts from. */
  function StartAlign(c: Context, s: Scn): nat
    requires s.shdr.shtype.Contents?
  {
    if s.shdr.addralign == 0 then FAlign(s.shdr.shtype.t, c.is64) else s.shdr.addralign
  }

  function Place(c: Context, s: Scn, align: nat, entsize: nat, size: nat, rc: nat): Scn
    requires align > 0
  {
    var offset := RoundUp(rc, align);
    s.(shdr := s.shdr.(addralign := c.Store(align), entsize := c.Store(entsize),
                       offset := c.Store(offset), size := c.Store(size)),
       size := size, offset := offset)
  }

  function EntrySize(c: Context, s: Scn): nat
    requires s.shdr.shtype.Contents?
  {
    if s.shdr.entsize != 0 then s.shdr.entsize
    else if c.codec.fsz(s.shdr.shtype.t) == 1 then 0
    else c.codec.fsz(s.shdr.shtype.t)
  }

  /** The section with the data it needs for layout: a dirty section of a file is read in. */
  function Loaded(c: Context, s: Scn): Result<Scn, Error>
    requires s.shdr.shtype.Contents?
    requires c.codec.fsz(s.shdr.shtype.t) > 0
  {
    if s.data == [] && s.dirty && !c.cmd.Write? then
      match GetData(c, s)
      case Ok(d) => Ok(s.(data := [d]))
      case Err(error) => Err(error)
    else Ok(s)
  }

  /** A section of a type the library knows, whose header fields have the width of the class. */
  ghost predicate Known(c: Context, s: Scn) {
    s.shdr.shtype.Contents? ==>
      && FAlign(s.shdr.shtype.t, c.is64) > 0
      && (!c.is64 ==> s.shdr.addralign < TWO32 && s.shdr.entsize < TWO32 && s.shdr.size < TWO32)
  }

  /** Lays out one section whose contents cannot start before `rc`. */
  ghost function LayoutScn(c: Context, s: Scn, rc: nat): Result<Scn, Error>
    requires c.codec.Valid() && Known(c, s)
    requires s.shdr.shtype.Contents?
  {
    if s.data == [] && !s.dirty then
      Ok(Place(c, s, StartAlign(c, s), s.shdr.entsize, s.shdr.size, rc))
    else
      match Loaded(c, s)
      case Err(error) => Err(error)
      case Ok(l) =>
        var ds := l.data;
        var bad := FirstError(c, ds, |ds|);
        if bad.Some? then Err(bad.value)
        else
          var align := if MaxAlign(ds, |ds|) > StartAlign(c, s) then MaxAlign(ds, |ds|) else StartAlign(c, s);
          Ok(Place(c, s.(data := Placed(c, ds)), align, EntrySize(c, s), DataSize(c, ds, |ds|), rc))
  }

  // ----- the section list

  /** Sections, the end of what has been laid out, and the extents so far. */
  datatype Layout = Layout(scns: seq<Scn>, end: nat, exts: seq<Extent>)

  ghost function LayoutScns(c: Context, scns: seq<Scn>, n: nat, start: Layout): Result<Layout, Error>
    requires c.codec.Valid() && (forall s :: s in scns ==> Known(c, s))
    requires n <= |scns|
  {
    if n == 0 then Ok(start.(scns := []))
    else
      match LayoutScns(c, scns, n - 1, start)
      case Err(error) => Err(error)
      case Ok(l) =>
        var s := scns[n - 1];
        if !s.shdr.shtype.Contents? then Ok(l.(scns := l.scns + [s]))
        else
          match LayoutScn(c, s, l.end)
          case Err(error) => Err(error)
          case Ok(s') =>
            if s'.size == 0 then Ok(l.(scns := l.scns + [s']))
            else Ok(Layout(l.scns + [s'], s'.offset + s'.size,
                           l.exts + [Extent(s'.offset, s'.size, SectionExtent(n - 1))]))
  }

  // ----- the whole object

  const SHN_LORESERVE: nat := 0xff00
  const PN_XNUM: nat := 0xffff

  /** The object: its executable header, program header table and sections. */
  datatype Object = Object(ehdr: ExecHeader, phdrs: seq<seq<byte>>, scns: seq<Scn>)

  ghost predicate WellFormed(c: Context, o: Object) {
    && c.codec.Valid()
    && (forall p :: p in o.phdrs ==> |p| == c.codec.phsz)
    && (forall s :: s in o.scns ==> Known(c, s))
    && (forall i :: 0 <= i < |o.scns| ==> o.scns[i].ndx == i)
    && (|o.phdrs| >= PN_XNUM ==> |o.scns| > 0)
    && (|o.scns| > 0 ==> o.scns[0].shdr.shtype.Null?)
  }

  function HeaderError(c: Context, h: ExecHeader): Option<Error> {
    if h.phoff >= TWO64 / 2 || h.shoff >= TWO64 / 2 then Some(EHeader)
    else if (if h.version == 0 then 1 else h.version) != c.version then Some(EVersion)
    else if h.class64 != c.is64 then Some(EClass)
    else if !c.cmd.Write? && h.byteorder != c.byteorder then Some(EHeader)
    else None
  }

  function PhdrOff(c: Context, o: Object): nat {
    RoundUp(c.codec.ehsz, FAlign(Phdr, c.is64))
  }

  /** The layout before the sections: the executable header and the program header table. */
  function Headers(c: Context, o: Object): Layout {
    var e := Extent(0, c.codec.ehsz, EhdrExtent);
    if |o.phdrs| == 0 then Layout([], c.codec.ehsz, [e])
    else
      var size := c.codec.phsz * |o.phdrs|;
      Layout([], PhdrOff(c, o) + size, [e, Extent(PhdrOff(c, o), size, PhdrExtent)])
  }

  /** The layout with the section header table put last. */
  function WithTable(c: Context, l: Layout): Layout {
    if |l.scns| == 0 then l
    else
      var shoff := RoundUp(l.end, FAlign(Shdr, c.is64));
      var size := c.codec.shsz * |l.scns|;
      l.(end := shoff + size, exts := l.exts + [Extent(shoff, size, ShdrExtent)])
  }

  /** Counts too large for the executable header go to section zero. */
  function ExtendedScns(o: Object, scns: seq<Scn>): seq<Scn> {
    if |scns| == 0 then scns
    else
      var h0 := scns[0].shdr;
      var h1 := if |o.phdrs| >= PN_XNUM then h0.(info := |o.phdrs|) else h0;
      var h2 := if |scns| >= SHN_LORESERVE then h1.(size := |scns|) else h1;
      scns[0 := scns[0].(shdr := h2)]
  }

  function UpdatedHeader(c: Context, o: Object, l: Layout): ExecHeader {
    o.ehdr.(magic := true,
            identVersion := c.version % 0x100,
            ehsize := c.codec.ehsz % 0x10000,
            phentsize := if |o.phdrs| == 0 then 0 else c.codec.phsz % 0x10000,
            shentsize := c.codec.shsz % 0x10000,
            phoff := c.Store(if |o.phdrs| == 0 then 0 else PhdrOff(c, o)),
            shoff := c.Store(if |l.scns| == 0 then 0 else RoundUp(l.end, FAlign(Shdr, c.is64))),
            phnum := if |o.phdrs| >= PN_XNUM then PN_XNUM else |o.phdrs|,
            shnum := if |l.scns| >= SHN_LORESERVE then 0 else |l.scns|)
  }

  /** What the library makes of an object: the object rewritten, the image size and the extents. */
  datatype LaidOut = LaidOut(obj: Object, size: nat, exts: seq<Extent>)

  ghost function LayoutObject(c: Context, o: Object): Result<LaidOut, Error>
    requires WellFormed(c, o)
  {
    var bad := HeaderError(c, o.ehdr);
    if bad.Some? then Err(bad.value)
    else
      match LayoutScns(c, o.scns, |o.scns|, Headers(c, o))
      case Err(error) => Err(error)
      case Ok(l) =>
        var t := WithTable(c, l);
        Ok(LaidOut(o.(ehdr := UpdatedHeader(c, o, l), scns := ExtendedScns(o, l.scns)), t.end, t.exts))
  }
}
