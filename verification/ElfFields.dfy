/** What a layout stores in headers and descriptors, and what it refuses, in terms of the fields that were there. */
module ElfFields {
  import opened Arith
  import opened Extents
  import opened Options
  import opened ElfObject
  import opened ElfLayout
  import opened ElfLayoutFacts
  import opened ElfImage

  // ----- types

  lemma FileAlignments(t: ElfType, is64: bool)
    ensures FAlign(t, is64) == 0 <==> t in {MoveP, Invalid} || (!is64 && t in {Sxword, Xword})
    ensures FAlign(t, is64) == 1 <==> t == Byte
    ensures FAlign(t, is64) == 2 <==> t in {Half, Syminfo}
    ensures FAlign(t, is64) == 8 <==> t in {Lword, Move} || (is64 && t !in {Byte, Half, Syminfo, MoveP, Invalid,
                                                                        Note, Sword, Vdef, Vneed, Word})
    ensures FAlign(t, is64) in {0, 1, 2, 4, 8}
  {}

  // ----- errors

  lemma {:induction false} FirstErrorIs(c: Context, ds: seq<Data>, n: nat)
    requires c.codec.Valid() && n <= |ds|
    ensures FirstError(c, ds, n).None? <==> forall j :: 0 <= j < n ==> DataError(c, ds[j]).None?
    ensures FirstError(c, ds, n).Some? ==>
      exists j ::
        && 0 <= j < n && FirstError(c, ds, n) == DataError(c, ds[j])
        && forall i :: 0 <= i < j ==> DataError(c, ds[i]).None?
  {
    hide DataError;
    if n > 0 {
      FirstErrorIs(c, ds, n - 1);
    }
  }

  /**
   * Descriptors are accepted exactly if each has a type, the version of the object, a power of two as its alignment and
   * a size that is a multiple of its type's; the first that is not is refused, for its version if it has a type.
   */
  lemma DescriptorErrors(c: Context, ds: seq<Data>) returns (bad: nat)
    requires c.codec.Valid()
    ensures FirstError(c, ds, |ds|).None? <==>
      (forall j :: 0 <= j < |ds| ==>
         && ds[j].dtype != Invalid && ds[j].version == c.version && PowerOfTwo(ds[j].align)
         && ds[j].size % c.codec.msz(ds[j].dtype) == 0)
    ensures FirstError(c, ds, |ds|).Some? ==>
      && bad < |ds| && FirstError(c, ds, bad).None?
      && FirstError(c, ds, |ds|)
        == Some(if ds[bad].dtype != Invalid && ds[bad].version != c.version then EVersion else EData)
  {
    hide FirstError;
    FirstErrorIs(c, ds, |ds|);
    bad := 0;
    if FirstError(c, ds, |ds|).Some? {
      bad :| bad < |ds| && FirstError(c, ds, |ds|) == DataError(c, ds[bad])
        && forall i :: 0 <= i < bad ==> DataError(c, ds[i]).None?;
      FirstErrorIs(c, ds, bad);
    }
  }

  /** The executable header is accepted exactly under these conditions, tested in this order. */
  lemma HeaderErrors(c: Context, h: ExecHeader)
    ensures var placed := h.phoff <= 0x7FFF_FFFF_FFFF_FFFF && h.shoff <= 0x7FFF_FFFF_FFFF_FFFF;
      var current := (h.version == c.version && h.version != 0) || (h.version == 0 && c.version == 1);
      var ordered := c.cmd == Write || h.byteorder == c.byteorder;
      HeaderError(c, h) ==
        if placed && current && h.class64 == c.is64 && ordered then None
        else if placed && !current then Some(EVersion)
        else if placed && h.class64 != c.is64 then Some(EClass)
        else Some(EHeader)
  {}

  // ----- descriptors and sections

  /** The first descriptor is at zero, each other one at the least multiple of its alignment behind the one before. */
  lemma DescriptorsPacked(c: Context, ds: seq<Data>, i: nat)
    requires c.codec.Valid() && Sound(c, ds) && i < |ds|
    ensures var p := Placed(c, ds);
      && |p| == |ds| && p[i] == ds[i].(off := p[i].off) && ds[i].align > 0 && p[i].off % ds[i].align == 0
      && (if i == 0 then p[i].off == 0
          else var end := p[i - 1].off + c.codec.fsz(ds[i - 1].dtype) * (ds[i - 1].size / c.codec.msz(ds[i - 1].dtype));
               end <= p[i].off < end + ds[i].align)
    ensures var d := ds[|ds| - 1];
      DataSize(c, ds, |ds|) == Placed(c, ds)[|ds| - 1].off + c.codec.fsz(d.dtype) * (d.size / c.codec.msz(d.dtype))
  {
    hide RoundUp, FirstError, DataSize;
    SoundAt(c, ds, |ds|, i);
    SoundAt(c, ds, |ds|, |ds| - 1);
    DataInOrder(c, ds, |ds|, i);
    DataInOrder(c, ds, |ds|, |ds| - 1);
    NoData(c, ds);
    RoundUpIsLeast(DataSize(c, ds, i), ds[i].align);
    if i == 0 {
      RoundUpFixed(0, ds[i].align);
    } else {
      DataInOrder(c, ds, |ds|, i - 1);
    }
  }

  /** The data that a section is laid out from: its own, or else its contents in the old file if it is dirty. */
  ghost predicate LaidFrom(c: Context, s: Scn, ds: seq<Data>)
    requires s.shdr.shtype.Contents?
  {
    var t := s.shdr.shtype.t;
    if s.data != [] || !s.dirty || c.cmd == Write then ds == s.data
    else
      && |ds| == 1 && ds[0].dtype == t && ds[0].version == c.version && ds[0].align == s.shdr.addralign
      && c.raw.Some? && s.shdr.offset + s.shdr.size <= |c.raw.value| && c.codec.fsz(t) > 0
      && s.shdr.size % c.codec.fsz(t) == 0 && ds[0].size == c.codec.msz(t) * (s.shdr.size / c.codec.fsz(t))
      && ds[0].buf == if s.shdr.size == 0 then None
                      else c.codec.toMemory(t, c.raw.value[s.shdr.offset..s.shdr.offset + s.shdr.size])
  }

  /** The widest alignment of a header and of data. */
  ghost predicate Widest(a: nat, own: nat, ds: seq<Data>) {
    && own <= a && (forall j :: 0 <= j < |ds| ==> ds[j].align <= a)
    && (a == own || exists j :: 0 <= j < |ds| && ds[j].align == a)
  }

  /**
   * A section goes to the least multiple, from the end of what comes before, of the widest alignment of its header (or
   * its type) and its descriptors; that alignment, the offset and the size are stored in its header.
   */
  lemma ScnFields(c: Context, s: Scn, rc: nat) returns (align: nat, ds: seq<Data>)
    requires c.codec.Valid() && Known(c, s) && s.shdr.shtype.Contents? && LayoutScn(c, s, rc).Ok?
    ensures LaidFrom(c, s, ds) && align > 0
    ensures Widest(align, if s.shdr.addralign != 0 then s.shdr.addralign else FAlign(s.shdr.shtype.t, c.is64), ds)
    ensures var s' := LayoutScn(c, s, rc).value;
      && rc <= s'.offset < rc + align && s'.offset % align == 0
      && s'.rawoff == s.rawoff && s'.raw == s.raw && s'.dirty == s.dirty && s'.ndx == s.ndx
      && s'.shdr.shtype == s.shdr.shtype && s'.shdr.link == s.shdr.link && s'.shdr.info == s.shdr.info
      && s'.shdr.rest == s.shdr.rest
      && s'.shdr.addralign == (if c.is64 then align else align % 0x1_0000_0000)
      && s'.shdr.offset == (if c.is64 then s'.offset else s'.offset % 0x1_0000_0000)
      && s'.shdr.size == (if c.is64 then s'.size else s'.size % 0x1_0000_0000)
    ensures var s' := LayoutScn(c, s, rc).value;
      if s.data == [] && !s.dirty then s'.data == [] && s'.size == s.shdr.size && s'.shdr.entsize == s.shdr.entsize
      else
        var unit := c.codec.fsz(s.shdr.shtype.t);
        var n := if s.shdr.entsize != 0 then s.shdr.entsize else if unit == 1 then 0 else unit;
        && Sound(c, ds) && s'.data == Placed(c, ds) && s'.shdr.entsize == (if c.is64 then n else n % 0x1_0000_0000)
        && s'.size == if |ds| == 0 then 0 else DataSize(c, ds, |ds|)
  {
    hide RoundUp, FirstError, DataSize, Placed, MaxAlign, PowerOfTwo, FAlign;
    ds := s.data;
    align := StartAlign(c, s);
    if s.data != [] || s.dirty {
      ds := Loaded(c, s).value.data;
      LayoutWithData(c, s, rc);
      align := ScnAlign(c, s, ds);
      MaxAlignIsOne(ds, |ds|);
      forall j | 0 <= j < |ds|
        ensures ds[j].align <= align
      {
        MaxAlignCovers(ds, |ds|, j);
      }
      NoData(c, ds);
    }
    RoundUpIsLeast(rc, align);
  }

  /** Reading the contents of a section from the old file: what is tested, in this order, and what comes out. */
  lemma ContentsRead(c: Context, s: Scn)
    requires c.codec.Valid() && s.shdr.shtype.Contents?
    ensures var t, n := s.shdr.shtype.t, s.shdr.size / c.codec.fsz(s.shdr.shtype.t);
      var inside := c.raw.Some? && s.shdr.offset + s.shdr.size <= |c.raw.value|;
      var bytes := if inside then c.raw.value[s.shdr.offset..s.shdr.offset + s.shdr.size] else [];
      GetData(c, s) ==
        if c.raw.None? then Err(EArgument)
        else if !inside || s.shdr.size % c.codec.fsz(t) != 0 then Err(ESection)
        else if n > 0 && c.codec.msz(t) > 0xFFFF_FFFF_FFFF_FFFF / n then Err(ERange)
        else if s.shdr.size == 0 then Ok(Data(t, c.version, s.shdr.addralign, c.codec.msz(t) * n, 0, None))
        else if c.codec.toMemory(t, bytes).None? then Err(EData)
        else Ok(Data(t, c.version, s.shdr.addralign, c.codec.msz(t) * n, 0, c.codec.toMemory(t, bytes)))
  {}

  /** A section cannot be laid out exactly if its contents cannot be read or one of its descriptors is refused. */
  lemma ScnErrors(c: Context, s: Scn, rc: nat)
    requires c.codec.Valid() && Known(c, s) && s.shdr.shtype.Contents?
    ensures var read := s.data == [] && s.dirty && c.cmd != Write;
      var ds := if read && GetData(c, s).Ok? then [GetData(c, s).value] else s.data;
      match LayoutScn(c, s, rc)
      case Ok(_) => (read ==> GetData(c, s).Ok?) && (s.data != [] || s.dirty ==> FirstError(c, ds, |ds|).None?)
      case Err(e) =>
        && (s.data != [] || s.dirty)
        && if read && GetData(c, s).Err? then GetData(c, s) == Err(e) else FirstError(c, ds, |ds|) == Some(e)
  {
    hide RoundUp, GetData, DataSize, MaxAlign, FirstError;
  }

  lemma {:induction false} ScnsErrors(c: Context, scns: seq<Scn>, n: nat, start: Layout) returns (bad: nat)
    requires c.codec.Valid() && (forall s :: s in scns ==> Known(c, s)) && n <= |scns|
    ensures LayoutScns(c, scns, n, start).Err? ==>
      && bad < n && scns[bad].shdr.shtype.Contents? && LayoutScns(c, scns, bad, start).Ok?
      && LayoutScn(c, scns[bad], LayoutScns(c, scns, bad, start).value.end) == Err(LayoutScns(c, scns, n, start).error)
  {
    hide LayoutScn;
    bad := 0;
    if n > 0 {
      if LayoutScns(c, scns, n - 1, start).Err? {
        bad := ScnsErrors(c, scns, n - 1, start);
      } else {
        bad := n - 1;
      }
    }
  }

  /** A layout fails with the error of the header, or else of the first section that cannot be laid out. */
  lemma LayoutErrors(c: Context, o: Object) returns (bad: nat)
    requires WellFormed(c, o)
    ensures HeaderError(c, o.ehdr).Some? ==> LayoutObject(c, o) == Err(HeaderError(c, o.ehdr).value)
    ensures HeaderError(c, o.ehdr).None? && LayoutObject(c, o).Err? ==>
      && bad < |o.scns| && o.scns[bad].shdr.shtype.Contents? && LayoutScns(c, o.scns, bad, Headers(c, o)).Ok?
      && LayoutScn(c, o.scns[bad], LayoutScns(c, o.scns, bad, Headers(c, o)).value.end)
        == Err(LayoutObject(c, o).error)
  {
    hide HeaderError, LayoutScn, LayoutScns, Headers;
    bad := ScnsErrors(c, o.scns, |o.scns|, Headers(c, o));
  }

  // ----- headers

  /** The counts and sizes that a layout puts into the executable header, and what it keeps. */
  lemma HeaderFields(c: Context, o: Object)
    requires WellFormed(c, o) && LayoutObject(c, o).Ok?
    ensures var h, h' := o.ehdr, LayoutObject(c, o).value.obj.ehdr;
      && h'.magic && h'.identVersion == c.version % 256 && h'.class64 == h.class64 && h'.byteorder == h.byteorder
      && h'.version == h.version && h'.rest == h.rest
      && h'.ehsize == c.codec.ehsz % 0x1_0000 && h'.shentsize == c.codec.shsz % 0x1_0000
      && h'.phentsize == (if |o.phdrs| == 0 then 0 else c.codec.phsz % 0x1_0000)
      && h'.phnum == (if |o.phdrs| < 0xFFFF then |o.phdrs| else 0xFFFF)
      && h'.shnum == (if |o.scns| < 0xFF00 then |o.scns| else 0)
  {
    hide RoundUp, Context.Store, LayoutScn, HeaderError, ExtendedScns, Packed;
    HeadersPacked(c, o);
    LayoutScnsPacked(c, o.scns, |o.scns|, Headers(c, o));
  }

  /** Counts that do not fit are in section zero, which otherwise stays. */
  lemma SectionZero(c: Context, o: Object)
    requires WellFormed(c, o) && LayoutObject(c, o).Ok? && |o.scns| > 0
    ensures |LayoutObject(c, o).value.obj.scns| == |o.scns|
    ensures var z, z' := o.scns[0], LayoutObject(c, o).value.obj.scns[0];
      && z'.shdr.info == (if |o.phdrs| < 0xFFFF then z.shdr.info else |o.phdrs|)
      && z'.shdr.size == (if |o.scns| < 0xFF00 then z.shdr.size else |o.scns|)
      && z' == z.(shdr := z.shdr.(info := z'.shdr.info, size := z'.shdr.size))
  {
    hide RoundUp, Context.Store, LayoutScn, HeaderError, UpdatedHeader, Packed;
    HeadersPacked(c, o);
    LayoutScnsEach(c, o.scns, |o.scns|, Headers(c, o), 0);
  }

  lemma ExtentsAre(c: Context, o: Object) returns (l: Layout)
    requires WellFormed(c, o) && LayoutObject(c, o).Ok?
    ensures LayoutScns(c, o.scns, |o.scns|, Headers(c, o)) == Ok(l) && |l.scns| == |o.scns|
    ensures Headers(c, o).exts <= l.exts && |l.exts| > 0 && l.exts[|l.exts| - 1].End() == l.end
    ensures LayoutObject(c, o).value.exts == WithTable(c, l).exts
    ensures LayoutObject(c, o).value.size == WithTable(c, l).end
  {
    hide RoundUp, LayoutScns, HeaderError, UpdatedHeader, ExtendedScns, Headers, WithTable, Sorted;
    HeadersPacked(c, o);
    LayoutScnsPacked(c, o.scns, |o.scns|, Headers(c, o));
    l := LayoutScns(c, o.scns, |o.scns|, Headers(c, o)).value;
  }

  /** The first multiple of the size of an address from a position on. */
  predicate NextAligned(from: nat, x: nat, is64: bool) {
    from <= x && if is64 then x % 8 == 0 && x < from + 8 else x % 4 == 0 && x < from + 4
  }

  /** The program headers start at the least multiple of their alignment behind the executable header. */
  lemma PhdrPlace(c: Context, o: Object)
    requires WellFormed(c, o) && LayoutObject(c, o).Ok? && LayoutObject(c, o).value.size <= c.Limit()
    ensures |LayoutObject(c, o).value.exts| > (if |o.phdrs| == 0 then 0 else 1)
    ensures LayoutObject(c, o).value.exts[0] == Extent(0, c.codec.ehsz, EhdrExtent)
    ensures var phoff := LayoutObject(c, o).value.obj.ehdr.phoff;
      if |o.phdrs| == 0 then phoff == 0 else NextAligned(c.codec.ehsz, phoff, c.is64)
    ensures var lo := LayoutObject(c, o).value;
      |o.phdrs| > 0 ==>
        && lo.exts[1].start == lo.obj.ehdr.phoff && lo.exts[1].size == c.codec.phsz * |o.phdrs|
        && lo.exts[1].kind == PhdrExtent
  {
    hide RoundUp, LayoutScns, LayoutObject;
    HeaderOffsetsFit(c, o);
    var l := ExtentsAre(c, o);
    RoundUpIsLeast(c.codec.ehsz, FAlign(Phdr, c.is64));
    var start := Headers(c, o);
    assert start.exts[0] == Extent(0, c.codec.ehsz, EhdrExtent);
  }

  /** The section headers start at the least multiple of their alignment behind everything else, and end the file. */
  lemma TablePlace(c: Context, o: Object)
    requires WellFormed(c, o) && LayoutObject(c, o).Ok? && LayoutObject(c, o).value.size <= c.Limit()
    ensures var lo := LayoutObject(c, o).value;
      && |lo.exts| > 0
      && if |o.scns| == 0 then lo.obj.ehdr.shoff == 0 && lo.size == lo.exts[|lo.exts| - 1].End()
         else
           && |lo.exts| > 1 && lo.exts[|lo.exts| - 1] == Extent(lo.obj.ehdr.shoff, c.codec.shsz * |o.scns|, ShdrExtent)
           && NextAligned(lo.exts[|lo.exts| - 2].End(), lo.obj.ehdr.shoff, c.is64)
           && lo.size == lo.obj.ehdr.shoff + c.codec.shsz * |o.scns|
  {
    hide RoundUp, LayoutScns, LayoutObject, Headers;
    HeaderOffsetsFit(c, o);
    var l := ExtentsAre(c, o);
    RoundUpIsLeast(l.end, FAlign(Shdr, c.is64));
  }
}
