/** elf_update(): recompute the layout of an ELF object in place and write its file image. */
module ElfUpdate {
  import opened Arith
  import opened Extents
  import opened Memory
  import opened Options
  import opened ElfObject
  import opened ElfLayout
  import opened ElfLayoutFacts
  import opened ElfImage
  import opened ElfUpdateFacts
  import ElfContents

  lemma SpliceTwice(s: seq<byte>, at: nat, a: seq<byte>, b: seq<byte>)
    requires at + |a| + |b| <= |s|
    ensures Splice(Splice(s, at, a), at + |a|, b) == Splice(s, at, a + b)
  {}

  lemma SpliceNothing(s: seq<byte>, at: nat)
    requires at <= |s|
    ensures Splice(s, at, []) == s
  {}

  lemma SplicePrefix(s: seq<byte>, at: nat, a: seq<byte>)
    requires at + |a| <= |s|
    ensures Splice(s, at, a)[..at + |a|] == s[..at] + a
  {}

  /** A section descriptor as allocated. */
  function EmptyScn(ndx: nat): Scn {
    Scn(SectionHeader(Null, 0, 0, 0, 0, 0, 0, 0), [], false, ndx, 0, 0, 0, None)
  }

  function WithZero(scns: seq<Scn>): (r: seq<Scn>)
    ensures |r| > 0
  {
    if scns == [] then [EmptyScn(0)] else scns
  }

  /** A section descriptor as loaded from a section header table. */
  function ReadScn(ndx: nat, h: SectionHeader): Scn {
    EmptyScn(ndx).(shdr := h, offset := h.offset, rawoff := h.offset, size := h.size)
  }

  /** The sections `from` to `n` of a section header table. */
  ghost function ReadScns(c: Codec, file: seq<byte>, shoff: nat, from: nat, n: nat): (r: seq<Scn>)
    requires from <= n
    ensures |r| == n - from
    ensures forall i :: from <= i < n ==> r[i - from] == ReadScn(i, c.shdrIn(TableRow(file, shoff, c.shsz, i)))
  {
    seq(n - from, k requires 0 <= k < n - from => ReadScn(from + k, c.shdrIn(TableRow(file, shoff, c.shsz, from + k))))
  }

  /** A table of `n` records of `size` bytes lies in the file, and `entry` is their size. */
  predicate TableFits(file: seq<byte>, shoff: nat, size: nat, n: nat, entry: nat) {
    shoff <= |file| && size == entry && size * n <= |file| - shoff
  }

  lemma FAlignPositive()
    ensures FAlign(Phdr, true) > 0 && FAlign(Phdr, false) > 0
  {}

  lemma EmptyNdx()
    ensures forall ndx {:trigger EmptyScn(ndx)} :: EmptyScn(ndx).ndx == ndx
  {}

  lemma ReadNdx()
    ensures forall ndx, h {:trigger ReadScn(ndx, h)} :: ReadScn(ndx, h).ndx == ndx
  {}

  /** Where record `i` of a table of records of `size` bytes is. */
  function RowAt(shoff: nat, size: nat, i: nat): nat { shoff + size * i }

  function TableRow(file: seq<byte>, shoff: nat, size: nat, i: nat): seq<byte> {
    var at := RowAt(shoff, size, i);
    if at + size <= |file| then file[at..at + size] else []
  }

  /** The next row of the table starts where the one before it ends, and lies in the file. */
  lemma RowFits(file: seq<byte>, shoff: nat, size: nat, i: nat, n: nat)
    requires i < n && TableFits(file, shoff, size, n, size)
    ensures var src := RowAt(shoff, size, i);
      src + size == RowAt(shoff, size, i + 1) <= |file| && file[src..src + size] == TableRow(file, shoff, size, i)
  {
    assert size * i + size == size * (i + 1) <= size * n;
  }

  lemma ReadRow(shoff: nat, size: nat, i: nat)
    ensures RowAt(shoff, size, i) == shoff + size * i
    ensures forall h {:trigger ReadScn(i, h)} :: ReadScn(i, h) == Scn(h, [], false, i, h.offset, h.offset, h.size, None)
  {}

  lemma FirstRows(shoff: nat, size: nat)
    ensures RowAt(shoff, size, 0) == shoff && RowAt(shoff, size, 1) == shoff + size
  {}

  class Elf {
    const codec: Codec
    const is64: bool
    const cmd: Cmd
    const version: nat
    const fillchar: byte
    const hasFd: bool

    var byteorder: nat
    var ehdr: ExecHeader
    var phdrs: seq<seq<byte>>
    var scns: seq<Scn>
    var nscn: nat
    var loaded: bool             // the section headers of the file have been read
    var raw: Option<seq<byte>>   // the file as it was read
    var file: seq<byte>          // the contents of the underlying file

    /** `o` is what reading the executable header gave: the headers, and section zero if it has been looked at. */
    constructor (codec: Codec, is64: bool, cmd: Cmd, version: nat, fillchar: byte, o: Object, nscn: nat,
                 file: Option<seq<byte>>)
      ensures Obj() == o && raw == file && this.nscn == nscn && !loaded
      ensures codec.Valid() && o.scns == [] && (if cmd.Write? then nscn == 0 else file.Some?) ==> Ready()
      ensures codec.Valid() && !cmd.Write? && file.Some? && nscn > 0 && |o.scns| == 1 && o.scns[0].ndx == 0 ==> Ready()
    {
      this.codec, this.is64, this.cmd, this.version, this.fillchar := codec, is64, cmd, version, fillchar;
      this.byteorder, this.ehdr, this.phdrs, this.scns := o.ehdr.byteorder, o.ehdr, o.phdrs, o.scns;
      this.nscn, this.loaded := nscn, false;
      this.raw, this.file, this.hasFd := file, (if file.Some? then file.value else []), true;
    }

    function Ctx(): Context
      reads this
    {
      Context(codec, is64, cmd, version, byteorder, raw, fillchar)
    }

    function Obj(): Object
      reads this
    {
      Object(ehdr, phdrs, scns)
    }

    /** The list has every section, at the position its index gives. */
    predicate Indexed()
      reads this
    {
      |scns| == nscn && (cmd.Write? || loaded) && forall i :: 0 <= i < |scns| ==> scns[i].ndx == i
    }

    /** The section header table named by the executable header is within the file that was read. */
    predicate TableInFile()
      requires raw.Some?
      reads this
    {
      TableFits(raw.value, ehdr.shoff, codec.shsz, nscn, ehdr.shentsize)
    }

    /** Section headers of the file have yet to be read. */
    predicate Pending()
      reads this
    {
      !cmd.Write? && !loaded
    }

    /** All sections are listed, or those of the file can be. */
    ghost predicate Ready()
      reads this
    {
      if !Pending() then Indexed()
      else codec.Valid() && raw.Some? && |scns| <= 1 && |scns| <= nscn && forall s :: s in scns ==> s.ndx == 0
    }

    /** The object once the section headers of the file have been read. */
    ghost function Full(): Object
      requires Ready()
      reads this
    {
      if !Pending() then Obj() else Object(ehdr, phdrs, scns + ReadScns(codec, raw.value, ehdr.shoff, |scns|, nscn))
    }

    /**
     * The new layout of the object, for which the section headers have to be at hand.  The entry size in the executable
     * header has been set by the time they are read.
     */
    ghost function Resynced(): Result<LaidOut, Error>
      requires Ready() && WellFormed(Ctx(), Full())
      reads this
    {
      var fits := Pending() ==> TableFits(raw.value, ehdr.shoff, codec.shsz, nscn, codec.shsz % 0x10000);
      if HeaderError(Ctx(), ehdr).None? && !fits then Err(EHeader) else LayoutObject(Ctx(), Full())
    }

    /** A section that is read from the file has the header of its row; its contents are at the offset given there. */
    lemma FromFile(i: nat)
      requires Ready() && Pending() && |scns| <= i < nscn && ehdr.shoff + codec.shsz * nscn <= |raw.value|
      ensures var at := ehdr.shoff + codec.shsz * i;
        && at + codec.shsz <= |raw.value| && |Full().scns| == nscn
        && var h := codec.shdrIn(raw.value[at..at + codec.shsz]);
           Full().scns[i] == Scn(h, [], false, i, h.offset, h.offset, h.size, None)
    {
      hide Codec.Valid, Indexed, TableRow, RowAt, ReadScn;
      RowFits(raw.value, ehdr.shoff, codec.shsz, i, nscn);
      ReadRow(ehdr.shoff, codec.shsz, i);
    }

    /** The section headers can be read exactly if their table lies in the file and their size is the expected one. */
    lemma TableInFileIff()
      requires raw.Some?
      ensures TableInFile() <==> ehdr.shentsize == codec.shsz && ehdr.shoff + codec.shsz * nscn <= |raw.value|
    {}

    /** The section headers that are still to be read are in the file. */
    predicate ToBeRead()
      requires raw.Some?
      reads this
    {
      codec.shsz < 0x1_0000 && ehdr.shoff + codec.shsz * nscn <= |raw.value|
    }

    /** Updating is refused if section headers have to be read that are not in the file, and else if layout is. */
    lemma ResyncedIs()
      requires Ready() && WellFormed(Ctx(), Full())
      ensures var missing := HeaderError(Ctx(), ehdr).None? && !cmd.Write? && !loaded && !ToBeRead();
        Resynced() == if missing then Err(EHeader) else LayoutObject(Ctx(), Full())
    {
      hide LayoutObject, WellFormed, HeaderError, ReadScns;
    }

    /** Reads the section header table; section zero may have been read before. */
    method LoadSectionHeaders() returns (ok: bool)
      requires codec.Valid() && raw.Some? && !loaded
      requires |scns| <= 1 && |scns| <= nscn && (forall s :: s in scns ==> s.ndx == 0)
      modifies this`scns, this`loaded
      ensures ok <==> TableInFile()
      ensures !ok ==> scns == old(scns) && loaded == old(loaded)
      ensures ok ==> Indexed() && old(scns) <= scns
      ensures ok ==> forall i :: |old(scns)| <= i < nscn ==>
        scns[i] == ReadScn(i, codec.shdrIn(TableRow(raw.value, ehdr.shoff, codec.shsz, i)))
    {
      hide RowAt, TableRow, ReadScn, Codec.Valid;
      var fsz, shoff := codec.shsz, ehdr.shoff;
      ReadNdx();
      FirstRows(shoff, fsz);
      if shoff > |raw.value| || fsz != ehdr.shentsize || fsz * nscn > |raw.value| - shoff {
        return false;
      }
      var i, src := |scns|, shoff;
      if i > 0 {
        src := src + fsz;
      }
      while i < nscn
        invariant i == |scns| && |old(scns)| <= i <= nscn && old(scns) <= scns && src == RowAt(shoff, fsz, i)
        invariant forall k :: 0 <= k < i ==> scns[k].ndx == k
        invariant forall k :: |old(scns)| <= k < i ==>
          scns[k] == ReadScn(k, codec.shdrIn(TableRow(raw.value, shoff, fsz, k)))
      {
        RowFits(raw.value, shoff, fsz, i, nscn);
        scns := scns + [ReadScn(i, codec.shdrIn(raw.value[src..src + fsz]))];
        i, src := i + 1, src + fsz;
      }
      loaded := true;
      ok := true;
    }

    /** Reads the section headers unless they have been read, or there is no file. */
    method NeedSections() returns (ok: bool)
      requires codec.Valid() && Ready()
      modifies this`scns, this`loaded
      ensures ok <==> !old(Pending()) || TableFits(raw.value, ehdr.shoff, codec.shsz, nscn, ehdr.shentsize)
      ensures ok ==> Indexed() && scns == old(Full()).scns
      ensures !ok ==> scns == old(scns) && loaded == old(loaded)
    {
      hide TableFits;
      if !cmd.Write? && !loaded {
        ghost var all := Full().scns;
        ok := LoadSectionHeaders();
        assert ok ==> scns == all;
      } else {
        ok := true;
      }
    }

    /** Appends a section, after a section zero if there is none yet; the result is its index. */
    method NewScn() returns (r: Result<nat, Error>)
      requires codec.Valid() && Ready()
      modifies this`scns, this`nscn, this`loaded
      ensures r.Err? <==> old(Pending() && !TableInFile())
      ensures r.Err? ==> r == Err(EHeader) && scns == old(scns) && nscn == old(nscn) && loaded == old(loaded)
      ensures r.Ok? ==> Indexed() && r.value == nscn - 1
      ensures r.Ok? ==>
        var before := old(Full()).scns;
        var zero := Scn(SectionHeader(Null, 0, 0, 0, 0, 0, 0, 0), [], false, 0, 0, 0, 0, None);
        scns == (if before == [] then [zero] else before) + [zero.(ndx := r.value, dirty := true)]
    {
      hide TableFits;
      EmptyNdx();
      var ok := NeedSections();
      if !ok {
        return Err(EHeader);
      }
      if scns == [] {
        assert nscn == 0;
        scns := [EmptyScn(0)];
        nscn := nscn + 1;
      }
      assert nscn > 0;
      var ndx := nscn;
      scns := scns + [EmptyScn(nscn).(dirty := true)];
      nscn := nscn + 1;
      r := Ok(ndx);
    }

    /** Checks the data descriptors of section `i` and puts each at the next place that suits it. */
    method PlaceDescriptors(i: nat) returns (err: Option<Error>, scnSize: nat, scnAlign: nat)
      requires codec.Valid() && i < |scns|
      modifies this`scns
      ensures |scns| == |old(scns)| && scns == old(scns)[i := scns[i]]
      ensures var c, ds := Ctx(), old(scns[i].data);
        && err == FirstError(c, ds, |ds|)
        && (err.None? ==>
              && scns[i] == old(scns[i]).(data := Placed(c, ds))
              && scnSize == DataSize(c, ds, |ds|) && scnAlign == MaxAlign(ds, |ds|))
    {
      hide RoundUp, PowerOfTwo, DataSize, MaxAlign, FirstError, DataOff;
      ghost var c, from := Ctx(), scns[i].data;
      var ds := scns[i].data;
      scnSize, scnAlign := 0, 0;
      var j := 0;
      NothingPlaced(c, from);
      while j < |ds|
        invariant j <= |ds| == |from| && FirstError(c, from, j).None?
        invariant forall k :: 0 <= k < |ds| ==> ds[k] == if k < j then from[k].(off := DataOff(c, from, k)) else from[k]
        invariant scnSize == DataSize(c, from, j) && scnAlign == MaxAlign(from, j)
        invariant scns == old(scns)
      {
        var d := ds[j];
        var bad := DataError(Ctx(), d);
        PlaceOne(c, from, j);
        if bad.Some? {
          ErrorStays(c, from, j + 1);
          scns := scns[i := scns[i].(data := ds)];
          return bad, 0, 0;
        }
        scnSize := RoundUp(scnSize, d.align);
        ds := ds[j := d.(off := scnSize)];
        var fsz := codec.fsz(d.dtype) * (d.size / codec.msz(d.dtype));
        scnSize := scnSize + fsz;
        if d.align > scnAlign {
          scnAlign := d.align;
        }
        j := j + 1;
      }
      assert ds == Placed(c, from);
      scns := scns[i := scns[i].(data := ds)];
      err := None;
    }

    /** Lays out section `i`, whose contents start at `rc` or later. */
    method ComputeSectionExtents(i: nat, rc: nat) returns (err: Option<Error>)
      requires codec.Valid() && i < |scns| && Known(Ctx(), scns[i]) && scns[i].shdr.shtype.Contents?
      modifies this`scns
      ensures |scns| == |old(scns)| && scns == old(scns)[i := scns[i]]
      ensures LayoutScn(Ctx(), old(scns[i]), rc) == if err.Some? then Err(err.value) else Ok(scns[i])
    {
      hide RoundUp, Placed, DataSize, MaxAlign, FirstError, GetData, Context.Store;
      ghost var c, s0 := Ctx(), scns[i];
      var t := scns[i].shdr.shtype.t;
      var shAlign, shEntsize, shSize := scns[i].shdr.addralign, scns[i].shdr.entsize, scns[i].shdr.size;
      if shAlign == 0 {
        shAlign := FAlign(t, is64);
      }
      if scns[i].data != [] || scns[i].dirty {
        if scns[i].data == [] && !cmd.Write? {
          match GetData(Ctx(), scns[i])
          case Err(e) => return Some(e);
          case Ok(d) => scns := scns[i := scns[i].(data := [d])];
        }
        assert Loaded(c, s0) == Ok(scns[i]);
        var scnSize, scnAlign;
        err, scnSize, scnAlign := PlaceDescriptors(i);
        if err.Some? {
          return err;
        }
        if scnAlign > shAlign {
          shAlign := scnAlign;
        }
        if shEntsize == 0 {
          shEntsize := codec.fsz(t);
          if shEntsize == 1 {
            shEntsize := 0;
          }
        }
        shSize := scnSize;
      }
      var shOffset := RoundUp(rc, shAlign);
      var h := scns[i].shdr.(addralign := Ctx().Store(shAlign), entsize := Ctx().Store(shEntsize),
                             offset := Ctx().Store(shOffset), size := Ctx().Store(shSize));
      scns := scns[i := scns[i].(shdr := h, size := shSize, offset := shOffset)];
      err := None;
    }

    /** Lays out the sections one after the other, from `start` on. */
    method ResyncSections(start: nat, extents: ExtentList) returns (r: Result<nat, Error>)
      requires codec.Valid() && (forall s :: s in scns ==> Known(Ctx(), s))
      requires Packed(Layout([], start, extents.list))
      modifies this`scns, extents
      ensures match old(LayoutScns(Ctx(), scns, |scns|, Layout([], start, extents.list)))
        case Err(e) => r == Err(e)
        case Ok(l) => r == Ok(l.end) && scns == l.scns && extents.list == l.exts
    {
      hide LayoutScn, LayoutScns, RoundUp, Known, Codec.Valid, Packed, Sorted, ClashesWith, Inserted;
      ghost var c, from, zero := Ctx(), scns, Layout([], start, extents.list);
      var rc: nat, i: nat := start, 0;
      NoSections(c, from, zero);
      while i < |scns|
        invariant i <= |scns| == |from| && scns[i..] == from[i..]
        invariant LayoutScns(c, from, i, zero) == Ok(Layout(scns[..i], rc, extents.list))
        invariant Packed(Layout(scns[..i], rc, extents.list))
      {
        assert scns[i] == from[i] && scns[i..][1..] == from[i..][1..];
        ghost var before := scns;
        LayoutOne(c, from, i, zero);
        if scns[i].shdr.shtype.Contents? {
          var err := ComputeSectionExtents(i, rc);
          if err.Some? {
            LayoutErrorStays(c, from, i + 1, zero);
            return Err(err.value);
          }
          LayoutScnPlaces(c, from[i], rc);
          PackedBefore(Layout(before[..i], rc, extents.list), scns[i].offset);
          if scns[i].size != 0 {
            PackedAfter(Layout(before[..i], rc, extents.list), Extent(scns[i].offset, scns[i].size, SectionExtent(i)));
            var ok := extents.Insert(SectionExtent(i), scns[i].offset, scns[i].size);
            assert ok;
            if rc < scns[i].offset + scns[i].size {
              rc := scns[i].offset + scns[i].size;
            }
          }
        }
        assert scns[..i + 1] == before[..i] + [scns[i]];
        PackedAnyScns(before[..i], scns[..i + 1], rc, extents.list);
        i := i + 1;
      }
      assert scns[..i] == scns;
      r := Ok(rc);
    }

    /** Sets the fixed fields of the executable header and lists it with the program header table. */
    method LayoutHeaders(extents: ExtentList) returns (rc: nat, phoff: nat)
      requires codec.Valid() && extents.list == []
      modifies this`ehdr, extents
      ensures Layout([], rc, extents.list) == Headers(Ctx(), old(Obj()))
      ensures phoff == if |phdrs| == 0 then 0 else PhdrOff(Ctx(), old(Obj()))
      ensures ehdr == old(ehdr).(magic := true, identVersion := version % 0x100, ehsize := codec.ehsz % 0x10000,
                                 phentsize := if |phdrs| == 0 then 0 else codec.phsz % 0x10000,
                                 shentsize := codec.shsz % 0x10000)
    {
      hide RoundUp, WellFormed, ClashesWith, Inserted, FAlign;
      FAlignPositive();
      var phnum := |phdrs|;
      ehdr := ehdr.(magic := true, identVersion := version % 0x100, ehsize := codec.ehsz % 0x10000,
                    phentsize := if phnum == 0 then 0 else codec.phsz % 0x10000, shentsize := codec.shsz % 0x10000);
      rc := codec.ehsz;
      var ok := extents.Insert(EhdrExtent, 0, rc);
      assert ok;
      phoff := 0;
      if phnum > 0 {
        var fsz := codec.phsz * phnum;
        RoundUpIsLeast(rc, FAlign(Phdr, is64));
        phoff := RoundUp(rc, FAlign(Phdr, is64));
        rc := phoff + fsz;
        ok := extents.Insert(PhdrExtent, phoff, fsz);
        assert ok;
      }
    }

    /** Puts the section header table, if one is needed, after everything else. */
    method LayoutTable(end: nat, extents: ExtentList) returns (rc: nat, shoff: nat)
      requires codec.Valid() && |scns| == nscn && Packed(Layout(scns, end, extents.list))
      modifies extents
      ensures Layout(scns, rc, extents.list) == WithTable(Ctx(), Layout(scns, end, old(extents.list)))
      ensures shoff == if |scns| == 0 then 0 else RoundUp(end, FAlign(Shdr, is64))
    {
      hide RoundUp;
      rc, shoff := end, 0;
      var shnum := nscn;
      if shnum > 0 {
        var fsz := codec.shsz * shnum;
        RoundUpIsLeast(rc, FAlign(Shdr, is64));
        shoff := RoundUp(rc, FAlign(Shdr, is64));
        if shoff + fsz > rc {
          rc := shoff + fsz;
        }
        var ok := extents.Insert(ShdrExtent, shoff, fsz);
        assert ok;
      }
    }

    /** Recomputes the layout of the whole object; the result is the size its image will have. */
    method ResyncElf(extents: ExtentList) returns (r: Result<nat, Error>)
      requires Ready() && WellFormed(Ctx(), Full()) && extents.list == []
      modifies this`ehdr, this`scns, this`loaded, extents
      ensures match old(Resynced())
        case Err(e) => r == Err(e)
        case Ok(lo) => r == Ok(lo.size) && Obj() == lo.obj && extents.list == lo.exts
    {
      hide RoundUp, LayoutScns, LayoutObject, WellFormed, Headers, TableFits, TableRow, ReadScn;
      ghost var c, o := Ctx(), Full();
      HeaderFirst(c, o);
      SameStart(c, o, Obj());
      var bad := HeaderError(Ctx(), ehdr);
      if bad.Some? {
        return Err(bad.value);
      }
      var rc, phoff := LayoutHeaders(extents);
      var ok := NeedSections();
      if !ok {
        return Err(EHeader);
      }
      r := ResyncRest(rc, phoff, extents, o);
    }

    /** The part of _libelf_resync_elf() after the headers have been placed and the sections read. */
    method ResyncRest(start: nat, phoff: nat, extents: ExtentList, ghost o: Object) returns (r: Result<nat, Error>)
      requires WellFormed(Ctx(), o) && Indexed() && scns == o.scns && phdrs == o.phdrs
      requires HeaderError(Ctx(), o.ehdr).None?
      requires Layout([], start, extents.list) == Headers(Ctx(), o)
      requires phoff == if |phdrs| == 0 then 0 else PhdrOff(Ctx(), o)
      requires ehdr == o.ehdr.(magic := true, identVersion := version % 0x100, ehsize := codec.ehsz % 0x10000,
                               phentsize := if |phdrs| == 0 then 0 else codec.phsz % 0x10000,
                               shentsize := codec.shsz % 0x10000)
      modifies this`ehdr, this`scns, extents
      ensures match LayoutObject(old(Ctx()), o)
        case Err(e) => r == Err(e)
        case Ok(lo) => r == Ok(lo.size) && Obj() == lo.obj && extents.list == lo.exts
    {
      hide RoundUp, LayoutScns, Context.Store, Headers, WithTable, Packed, Known, UpdatedHeader, ExtendedScns;
      ghost var c := Ctx();
      HeadersPacked(c, o);
      r := ResyncSections(start, extents);
      if r.Err? {
        return;
      }
      LayoutScnsPacked(c, o.scns, |o.scns|, Headers(c, o));
      var end, shoff := LayoutTable(r.value, extents);
      StoreCounts(phoff, shoff, o, LayoutScns(c, o.scns, |o.scns|, Headers(c, o)).value);
      r := Ok(end);
    }

    /** Counts and places of the tables go into the header, and counts that are too large into section zero. */
    method StoreCounts(phoff: nat, shoff: nat, ghost o: Object, ghost l: Layout)
      requires phdrs == o.phdrs && scns == l.scns && nscn == |scns| && (|phdrs| >= PN_XNUM ==> |scns| > 0)
      requires phoff == if |phdrs| == 0 then 0 else PhdrOff(Ctx(), o)
      requires shoff == if |scns| == 0 then 0 else RoundUp(l.end, FAlign(Shdr, is64))
      requires ehdr == o.ehdr.(magic := true, identVersion := version % 0x100, ehsize := codec.ehsz % 0x10000,
                               phentsize := if |phdrs| == 0 then 0 else codec.phsz % 0x10000,
                               shentsize := codec.shsz % 0x10000)
      modifies this`ehdr, this`scns
      ensures ehdr == UpdatedHeader(old(Ctx()), o, l) && scns == ExtendedScns(o, l.scns)
    {
      hide RoundUp, Context.Store;
      SetPhnum(|phdrs|);
      SetShnum(nscn);
      ehdr := ehdr.(phoff := Ctx().Store(phoff), shoff := Ctx().Store(shoff));
    }

    /** Makes a section zero if there is none. */
    method GetScn0()
      modifies this`scns
      ensures scns == WithZero(old(scns))
    {
      if scns == [] {
        scns := [EmptyScn(0)];
      }
    }

    /** A program header count too large for the executable header goes to section zero. */
    method SetPhnum(phnum: nat)
      modifies this`ehdr, this`scns
      ensures ehdr == old(ehdr).(phnum := if phnum >= PN_XNUM then PN_XNUM else phnum)
      ensures scns == if phnum < PN_XNUM then old(scns)
        else var s := WithZero(old(scns)); s[0 := s[0].(shdr := s[0].shdr.(info := phnum))]
    {
      var n := phnum;
      if phnum >= PN_XNUM {
        GetScn0();
        scns := scns[0 := scns[0].(shdr := scns[0].shdr.(info := phnum))];
        n := PN_XNUM;
      }
      ehdr := ehdr.(phnum := n);
    }

    /** A section count too large for the executable header goes to section zero. */
    method SetShnum(shnum: nat)
      modifies this`ehdr, this`scns
      ensures ehdr == old(ehdr).(shnum := if shnum >= SHN_LORESERVE then 0 else shnum)
      ensures scns == if shnum < SHN_LORESERVE then old(scns)
        else var s := WithZero(old(scns)); s[0 := s[0].(shdr := s[0].shdr.(size := shnum))]
    {
      var n := shnum;
      if shnum >= SHN_LORESERVE {
        GetScn0();
        scns := scns[0 := scns[0].(shdr := scns[0].shdr.(size := shnum))];
        n := 0;
      }
      ehdr := ehdr.(shnum := n);
    }

    // ----- writing

    /** Writes a section; fails when its raw data cannot be had or its data cannot be translated. */
    method WriteScn(nf: array<byte>, s: Scn) returns (end: Option<nat>)
      requires codec.Valid() && CanWrite(Ctx(), s, nf.Length)
      requires FAlign(s.shdr.shtype.t, is64) > 0 && s.offset % FAlign(s.shdr.shtype.t, is64) == 0
      modifies nf
      ensures match SectionBytes(Ctx(), s)
        case None => end.None?
        case Some(b) => end == Some(s.offset + |b|) && |b| == s.size && nf[..] == Splice(old(nf[..]), s.offset, b)
    {
      hide RoundUp, DataSize, Placed, PowerOfTwo;
      ghost var c := Ctx();
      var rc := s.offset;
      assert s.offset % FAlign(s.shdr.shtype.t, is64) == 0;
      if s.data == [] {
        if raw.None? || (s.raw.None? && (s.shdr.offset > |raw.value| || s.shdr.size > |raw.value| - s.shdr.offset)) {
          return None;
        }
        // The raw data is one descriptor, at offset zero, of the size in the section header.
        MemCpy(nf, rc, raw.value[s.rawoff..s.rawoff + s.shdr.size]);
        return Some(rc + s.shdr.size);
      }
      end := WriteDescriptors(nf, s);
    }

    /** Fills what there is between the position `rc` in a section and the offset `off`. */
    method FillGap(nf: array<byte>, start: nat, ghost from: nat, rc: nat, off: nat)
      requires rc == start + from && from <= off && start + off <= nf.Length
      modifies nf
      ensures |Gap(Ctx(), from, off)| == off - from
      ensures nf[..] == Splice(old(nf[..]), start + from, Gap(Ctx(), from, off))
    {
      hide Splice;
      if rc < start + off {
        MemSet(nf, rc, fillchar, start + off - rc);
      } else {
        SpliceNothing(nf[..], rc);
      }
    }

    method WriteDescriptors(nf: array<byte>, s: Scn) returns (end: Option<nat>)
      requires codec.Valid() && CanWrite(Ctx(), s, nf.Length) && s.data != []
      modifies nf
      ensures match Encoded(Ctx(), s.data, |s.data|)
        case None => end.None?
        case Some(b) => end == Some(s.offset + |b|) && |b| == s.size && nf[..] == Splice(old(nf[..]), s.offset, b)
    {
      hide CanWrite, Codec.Valid, Splice, Encoded, ToFile, Gap;
      ghost var c, room := Ctx(), nf[..];
      RoomFor(c, s, nf.Length);
      var rc, j := s.offset, 0;
      SpliceNothing(room, s.offset);
      NothingEncoded(c, s.data);
      while j < |s.data|
        invariant j <= |s.data| && s.offset <= rc <= s.offset + s.size
        invariant Encoded(c, s.data, j).Some? && rc == s.offset + |Encoded(c, s.data, j).value|
        invariant nf[..] == Splice(room, s.offset, Encoded(c, s.data, j).value)
      {
        var next := WriteDescriptor(nf, s, j, rc, room);
        if next.None? {
          EncodedFails(c, s.data, j + 1);
          return None;
        }
        rc := next.value;
        j := j + 1;
      }
      EncodedSize(c, s, nf.Length);
      end := Some(rc);
    }

    /** One turn of that loop: fill bytes up to the descriptor, and its translation. */
    method WriteDescriptor(nf: array<byte>, s: Scn, j: nat, rc: nat, ghost room: seq<byte>) returns (end: Option<nat>)
      requires codec.Valid() && CanWrite(Ctx(), s, nf.Length) && j < |s.data| && |room| == nf.Length
      requires Encoded(Ctx(), s.data, j).Some? && rc == s.offset + |Encoded(Ctx(), s.data, j).value| <= |room|
      requires nf[..] == Splice(room, s.offset, Encoded(Ctx(), s.data, j).value)
      modifies nf
      ensures match Encoded(Ctx(), s.data, j + 1)
        case None => end.None?
        case Some(b) =>
          && end == Some(s.offset + |b|) && |b| <= s.size && s.offset + |b| <= |room|
          && nf[..] == Splice(room, s.offset, b)
    {
      hide CanWrite, Codec.Valid, Splice, Encoded, ToFile, Gap;
      ghost var c, b := Ctx(), Encoded(Ctx(), s.data, j).value;
      var d := s.data[j];
      RoomFor(c, s, nf.Length);
      DescriptorFits(c, s, nf.Length, j);
      EncodeOne(c, s.data, j);
      FillGap(nf, s.offset, |b|, rc, d.off);
      SpliceTwice(room, s.offset, b, Gap(c, |b|, d.off));
      assert d.buf.Some?;
      var f := ToFile(Ctx(), d);
      if f.None? {
        return None;
      }
      MemCpy(nf, s.offset + d.off, f.value);
      SpliceTwice(room, s.offset, b + Gap(c, |b|, d.off), f.value);
      end := Some(s.offset + d.off + |f.value|);
    }

    method WriteEhdr(nf: array<byte>) returns (end: nat)
      requires codec.Valid() && codec.ehsz <= nf.Length
      modifies nf
      ensures end == |codec.ehdr(ehdr)| && nf[..] == Splice(old(nf[..]), 0, codec.ehdr(ehdr))
    {
      MemCpy(nf, 0, codec.ehdr(ehdr));
      end := codec.ehsz;
    }

    method WritePhdr(nf: array<byte>) returns (end: nat)
      requires codec.Valid() && (forall p :: p in phdrs ==> |p| == codec.phsz)
      requires ehdr.phoff + codec.phsz * |phdrs| <= nf.Length
      modifies nf
      ensures end == ehdr.phoff + |Flatten(phdrs, |phdrs|)|
      ensures end <= nf.Length && nf[..] == Splice(old(nf[..]), ehdr.phoff, Flatten(phdrs, |phdrs|))
    {
      FlattenHas(phdrs, |phdrs|, codec.phsz);
      MemCpy(nf, ehdr.phoff, Flatten(phdrs, |phdrs|));
      end := ehdr.phoff + codec.phsz * |phdrs|;
    }

    /** Writes each section header at the place its index gives it in the table. */
    method WriteShdr(nf: array<byte>) returns (end: nat)
      requires codec.Valid() && |scns| == nscn && ehdr.shoff + codec.shsz * |scns| <= nf.Length
      requires forall i :: 0 <= i < |scns| ==> scns[i].ndx == i
      modifies nf
      ensures |Flatten(TableRecords(Ctx(), Obj()), |scns|)| == codec.shsz * |scns|
      ensures end == ehdr.shoff + codec.shsz * |scns|
      ensures nf[..] == Splice(old(nf[..]), ehdr.shoff, Flatten(TableRecords(Ctx(), Obj()), |scns|))
    {
      hide Splice, Flatten, TableRecords, RowAt;
      ghost var c, o, room, rs := Ctx(), Obj(), nf[..], TableRecords(Ctx(), Obj());
      var i, fsz := 0, codec.shsz;
      ghost var size := |Flatten(rs, |scns|)|;
      SpliceNothing(room, ehdr.shoff);
      TableEnds(c, o);
      while i < |scns|
        invariant i <= |scns| && |Flatten(rs, i)| <= size
        invariant nf[..] == Splice(room, ehdr.shoff, Flatten(rs, i))
      {
        RecordPlace(c, o, i);
        MemCpy(nf, RowAt(ehdr.shoff, fsz, scns[i].ndx), codec.shdr(scns[i].shdr));
        SpliceTwice(room, ehdr.shoff, Flatten(rs, i), rs[i]);
        i := i + 1;
      }
      end := RowAt(ehdr.shoff, fsz, nscn);
    }

    /** Dispatches to the writer of an extent. */
    method WriteExtent(nf: array<byte>, ghost lo: LaidOut, x: Extent) returns (end: Option<nat>)
      requires Laid(Ctx(), lo) && lo.obj == Obj() && |scns| == nscn && Readable(Ctx(), Obj()) && nf.Length == lo.size
      requires x in lo.exts && Refers(Obj(), x) && TypeAligned(Ctx(), Obj())
      modifies nf
      ensures x.End() <= nf.Length
      ensures match ExtentBytes(Ctx(), Obj(), x)
        case None => end.None?
        case Some(b) => end == Some(x.End()) && |b| == x.size && nf[..] == Splice(old(nf[..]), x.start, b)
    {
      hide Flatten, SectionBytes, Splice, CanWrite, Laid, TypeAligned, TableRecords;
      ghost var c := Ctx();
      ExtentReady(c, lo, x);
      ExtentFilled(c, lo, x);
      match x.kind
      case EhdrExtent =>
        assert x.start == 0;
        var n := WriteEhdr(nf);
        end := Some(n);
      case PhdrExtent =>
        assert |phdrs| > 0 && x.start == ehdr.phoff && ehdr.phoff % FAlign(Phdr, is64) == 0;
        var n := WritePhdr(nf);
        end := Some(n);
      case ShdrExtent =>
        assert x.start == ehdr.shoff && ehdr.shoff % FAlign(Shdr, is64) == 0;
        var n := WriteShdr(nf);
        end := Some(n);
      case SectionExtent(i) =>
        end := WriteScn(nf, scns[i]);
    }

    /** Builds the new image in memory, extent by extent, and makes it the contents of the file. */
    method WriteElf(newsize: nat, exts: seq<Extent>) returns (end: Option<nat>)
      requires Laid(Ctx(), LaidOut(Obj(), newsize, exts)) && Readable(Ctx(), Obj()) && TypeAligned(Ctx(), Obj())
      requires Fills(Ctx(), Obj(), exts) && |scns| == nscn
      modifies this`file, this`raw, this`scns
      ensures end.None? <==> old(ImageUpTo(Ctx(), Obj(), exts, |exts|)).None?
      ensures end.None? ==> file == old(file) && raw == old(raw)
      ensures end.Some? ==>
        && end == Some(newsize) && old(ImageUpTo(Ctx(), Obj(), exts, |exts|)) == Some(file)
        && IsImage(old(Ctx()), old(Obj()), newsize, file)
        && (cmd.ReadWrite? ==> raw == Some(file)) && scns == []
    {
      hide ExtentBytes, Splice, Laid, Readable, TypeAligned, IsImage, ImageUpTo, Sorted, Gap;
      ghost var c, o, lo := Ctx(), Obj(), LaidOut(Obj(), newsize, exts);
      ExtentsInOrder(c, lo);
      var newfile := new byte[newsize];
      var rc, nrc, k := 0, 0, 0;
      NoImage(c, o, exts);
      while k < |exts|
        invariant k <= |exts| && rc <= newsize && rc == if k == 0 then 0 else exts[k - 1].End()
        invariant ImageUpTo(c, o, exts, k) == Some(newfile[..rc])
        invariant Ctx() == c && Obj() == o && |scns| == nscn && file == old(file) && raw == old(raw)
      {
        var x := exts[k];
        ghost var before := newfile[..];
        if x.start > rc {
          MemSet(newfile, rc, fillchar, x.start - rc);
        } else {
          SpliceNothing(before, rc);
        }
        ghost var middle := newfile[..];
        var n := WriteExtent(newfile, lo, x);
        ImageOne(c, o, exts, k, before, middle, newfile[..], rc);
        if n.None? {
          ImageFails(c, o, exts, k + 1);
          return None;
        }
        nrc := n.value;
        assert x.start + x.size == nrc;
        assert rc < nrc;
        rc := nrc;
        k := k + 1;
      }
      assert rc == newsize;
      assert newfile[..rc] == newfile[..];
      BuiltImageIsImage(c, lo, newfile[..]);
      file := newfile[..];
      if cmd.ReadWrite? {
        raw := Some(newfile[..]);
      }
      scns := [];
      end := Some(rc);
    }

    /**
     * Recomputes the layout and, for ELF_C_WRITE, rewrites the file.
     * A file is written only with the image that the updated headers describe.
     */
    method Update(write: bool) returns (r: Result<nat, Error>)
      requires Ready() && WellFormed(Ctx(), Full()) && Supported(Ctx(), Full())
      requires Resynced().Ok? ==> Resynced().value.size <= Ctx().Limit()
      modifies this`ehdr, this`scns, this`loaded, this`file, this`raw
      ensures write && cmd.Read? ==> r == Err(EMode)
      ensures !(write && cmd.Read?) ==> match old(Resynced())
        case Err(e) => r == Err(e)
        case Ok(lo) =>
          if !write then r == Ok(lo.size) && Obj() == lo.obj
          else if !hasFd then r == Err(ESequence)
          else if old(Buildable(Ctx(), lo)) then r == Ok(lo.size) && IsImage(old(Ctx()), lo.obj, lo.size, file)
          else r == Err(EOutput)
      ensures r.Err? || !write ==> file == old(file)
      ensures r.Ok? && write && cmd.ReadWrite? ==> raw == Some(file)
      ensures r.Ok? && write ==>
        AllContained(old(Ctx()), old(Full()).scns, old(Resynced()).value.obj.scns, file)
    {
      hide LayoutObject, Readable, TypeAligned, IsImage, ImageUpTo, Laid, WellFormed, AllContained;
      if write && cmd.Read? {
        return Err(EMode);
      }
      ghost var c := Ctx();
      ghost var laid, o := Resynced(), Full();
      if laid.Ok? {
        LayoutIsLaid(c, o);
        LaidOutWellFormed(c, o);
        SupportedLayout(c, o);
        LaidFills(c, laid.value);
      }
      var extents := new ExtentList();
      r := ResyncElf(extents);
      if r.Err? || !write {
        return;
      }
      if !hasFd {
        return Err(ESequence);
      }
      var end := WriteElf(r.value, extents.list);
      r := if end.Some? then Ok(end.value) else Err(EOutput);
      if end.Some? {
        WrittenContained(c, o, file);
      }
    }
  }

  ghost predicate AllContained(c: Context, scns: seq<Scn>, laid: seq<Scn>, file: seq<byte>) {
    && |laid| == |scns|
    && forall i :: 0 <= i < |scns| && scns[i].shdr.shtype.Contents? && laid[i].shdr.shtype.Contents? && laid[i].size > 0
         ==> ElfContents.Contained(c, scns[i], laid[i], file)
  }

  lemma WrittenContained(c: Context, o: Object, img: seq<byte>)
    requires WellFormed(c, o) && LayoutObject(c, o).Ok? && LayoutObject(c, o).value.size <= c.Limit()
    requires IsImage(c, LayoutObject(c, o).value.obj, LayoutObject(c, o).value.size, img)
    ensures AllContained(c, o.scns, LayoutObject(c, o).value.obj.scns, img)
  {
    hide LayoutObject, IsImage;
    LaidOutWellFormed(c, o);
    var laid := LayoutObject(c, o).value.obj.scns;
    forall i | 0 <= i < |laid| && o.scns[i].shdr.shtype.Contents? && laid[i].shdr.shtype.Contents? && laid[i].size > 0
      ensures ElfContents.Contained(c, o.scns[i], laid[i], img)
    {
      ElfContents.ContentsWritten(c, o, img, i);
    }
  }

  lemma HeaderFirst(c: Context, o: Object)
    requires WellFormed(c, o)
    ensures c.codec.Valid()
    ensures HeaderError(c, o.ehdr).Some? ==> LayoutObject(c, o) == Err(HeaderError(c, o.ehdr).value)
  {}

  /** What comes before the sections does not depend on them. */
  lemma SameStart(c: Context, o: Object, o': Object)
    requires o.phdrs == o'.phdrs
    ensures Headers(c, o) == Headers(c, o') && PhdrOff(c, o) == PhdrOff(c, o')
  {}

  /** A section that is in the image can be written, in its place, from its descriptors. */
  ghost predicate CanWrite(c: Context, s: Scn, room: nat)
    requires c.codec.Valid()
  {
    && s.Occupies() && s.shdr.size == s.size && s.offset + s.size <= room && DataPlaced(c, s)
    && (s.data == [] ==> !s.dirty && RawInFile(c, s) && (s.raw.None? || s.raw.value == s.shdr.size))
    && (forall d :: d in s.data ==> d.buf.Some? && |d.buf.value| == d.size)
  }

  /** What the writer of each kind of extent relies on. */
  lemma ExtentReady(c: Context, lo: LaidOut, x: Extent)
    requires Laid(c, lo) && Readable(c, lo.obj) && TypeAligned(c, lo.obj)
    requires x in lo.exts && Refers(lo.obj, x)
    ensures c.codec.Valid() && x.End() <= lo.size
    ensures match x.kind
      case EhdrExtent => x.start == 0 && x.size == c.codec.ehsz
      case PhdrExtent =>
        && |lo.obj.phdrs| > 0 && x.start == lo.obj.ehdr.phoff && x.size == c.codec.phsz * |lo.obj.phdrs|
        && FAlign(Phdr, c.is64) > 0 && lo.obj.ehdr.phoff % FAlign(Phdr, c.is64) == 0
        && (forall p :: p in lo.obj.phdrs ==> |p| == c.codec.phsz)
      case ShdrExtent =>
        && x.start == lo.obj.ehdr.shoff && x.size == c.codec.shsz * |lo.obj.scns|
        && FAlign(Shdr, c.is64) > 0 && lo.obj.ehdr.shoff % FAlign(Shdr, c.is64) == 0
        && (forall i :: 0 <= i < |lo.obj.scns| ==> lo.obj.scns[i].ndx == i)
      case SectionExtent(i) =>
        var s := lo.obj.scns[i];
        && CanWrite(c, s, lo.size) && x.start == s.offset && x.size == s.size
        && FAlign(s.shdr.shtype.t, c.is64) > 0 && s.offset % FAlign(s.shdr.shtype.t, c.is64) == 0
  {
    hide DataPlaced, RawInFile, Sorted;
    SectionExtentsRefer(lo.obj, |lo.obj.scns|);
  }

  lemma TableStep(c: Context, o: Object, i: nat)
    requires c.codec.Valid() && i <= |o.scns|
    ensures var rs, sz := TableRecords(c, o), c.codec.shsz;
      && |Flatten(rs, i)| == sz * i <= sz * |o.scns|
      && (i == 0 ==> Flatten(rs, i) == [])
      && (i < |o.scns| ==>
            && rs[i] == c.codec.shdr(o.scns[i].shdr) && |rs[i]| == sz
            && Flatten(rs, i + 1) == Flatten(rs, i) + rs[i]
            && i * sz == sz * i && sz * i + sz == sz * (i + 1) <= sz * |o.scns|)
  {
    var rs, sz := TableRecords(c, o), c.codec.shsz;
    assert forall j :: 0 <= j < |rs| ==> rs[j] == c.codec.shdr(o.scns[j].shdr);
    FlattenHas(rs, i, sz);
    MulOrder(sz, i, |o.scns|);
    if i < |o.scns| {
      MulOrder(sz, i + 1, |o.scns|);
    }
  }

  lemma TableEnds(c: Context, o: Object)
    requires c.codec.Valid()
    ensures var rs, n, sz := TableRecords(c, o), |o.scns|, c.codec.shsz;
      && Flatten(rs, 0) == [] && |Flatten(rs, n)| == sz * n
      && RowAt(o.ehdr.shoff, sz, n) == o.ehdr.shoff + sz * n
  {
    hide Flatten, TableRecords;
    TableStep(c, o, 0);
    TableStep(c, o, |o.scns|);
  }

  lemma RecordPlace(c: Context, o: Object, i: nat)
    requires c.codec.Valid() && i < |o.scns|
    ensures var rs, sz := TableRecords(c, o), c.codec.shsz;
      && RowAt(o.ehdr.shoff, sz, i) == o.ehdr.shoff + |Flatten(rs, i)| && rs[i] == c.codec.shdr(o.scns[i].shdr)
      && |rs[i]| == sz
      && Flatten(rs, i + 1) == Flatten(rs, i) + rs[i]
      && |Flatten(rs, i)| + sz == |Flatten(rs, i + 1)| <= |Flatten(rs, |o.scns|)|
  {
    hide Flatten, TableRecords;
    TableStep(c, o, i);
    TableStep(c, o, i + 1);
    TableStep(c, o, |o.scns|);
  }

  lemma MulOrder(a: nat, i: nat, n: nat)
    requires i <= n
    ensures a * i <= a * n
  {}

  /** The extents of a layout follow one another from the start of the file to its end. */
  lemma ExtentsInOrder(c: Context, lo: LaidOut)
    requires Laid(c, lo)
    ensures |lo.exts| > 0 && lo.exts[|lo.exts| - 1].End() == lo.size
    ensures forall k :: 0 <= k < |lo.exts| ==> 0 < lo.exts[k].size && lo.exts[k].End() <= lo.size
    ensures forall k :: 0 < k < |lo.exts| ==> lo.exts[k - 1].End() <= lo.exts[k].start
  {
    hide DataPlaced, SectionExtents, HeaderExtents, TableExtents;
  }

  lemma NoImage(c: Context, o: Object, exts: seq<Extent>)
    requires Readable(c, o) && (forall x :: x in exts ==> Refers(o, x))
    ensures ImageUpTo(c, o, exts, 0) == Some([])
  {}

  /** One more extent: the gap before it and then its bytes. */
  lemma ImageOne(c: Context, o: Object, exts: seq<Extent>, k: nat,
                 before: seq<byte>, middle: seq<byte>, after: seq<byte>, rc: nat)
    requires Readable(c, o) && (forall x :: x in exts ==> Refers(o, x)) && k < |exts|
    requires rc <= exts[k].start && exts[k].End() <= |before|
    requires ImageUpTo(c, o, exts, k) == Some(before[..rc])
    requires middle == Splice(before, rc, Repeat(c.fillchar, exts[k].start - rc))
    requires match ExtentBytes(c, o, exts[k])
      case None => true
      case Some(b) => |b| == exts[k].size && after == Splice(middle, exts[k].start, b)
    ensures ImageUpTo(c, o, exts, k + 1) ==
      if ExtentBytes(c, o, exts[k]).None? then None else Some(after[..exts[k].End()])
  {
    hide ExtentBytes, Readable;
    match ExtentBytes(c, o, exts[k])
    case None =>
    case Some(b) =>
      SplicePrefix(before, rc, Gap(c, rc, exts[k].start));
      SplicePrefix(middle, exts[k].start, b);
  }

  lemma {:induction false} ImageFails(c: Context, o: Object, exts: seq<Extent>, k: nat)
    requires Readable(c, o) && (forall x :: x in exts ==> Refers(o, x)) && k <= |exts|
    requires ImageUpTo(c, o, exts, k).None?
    ensures ImageUpTo(c, o, exts, |exts|).None?
    decreases |exts| - k
  {
    hide ExtentBytes, Readable;
    if k < |exts| {
      ImageFails(c, o, exts, k + 1);
    }
  }

  /** What comes at or after the end of a layout comes after all its extents. */
  lemma PackedBefore(l: Layout, at: nat)
    requires Packed(l) && l.end <= at
    ensures Sorted(l.exts) && forall x :: x in l.exts ==> x.End() <= at
  {}

  lemma PackedAfter(l: Layout, x: Extent)
    requires Packed(l) && x.size > 0 && l.end <= x.start
    ensures Packed(Layout(l.scns, x.start + x.size, l.exts + [x]))
  {
    PackedAppend(l, x);
  }

  lemma PackedAnyScns(scns: seq<Scn>, scns': seq<Scn>, end: nat, exts: seq<Extent>)
    ensures Packed(Layout(scns, end, exts)) <==> Packed(Layout(scns', end, exts))
  {}

  lemma {:induction false} LayoutErrorStays(c: Context, scns: seq<Scn>, n: nat, start: Layout)
    requires c.codec.Valid() && (forall s :: s in scns ==> Known(c, s)) && n <= |scns|
    requires LayoutScns(c, scns, n, start).Err?
    ensures LayoutScns(c, scns, |scns|, start) == LayoutScns(c, scns, n, start)
    decreases |scns| - n
  {
    if n < |scns| {
      LayoutErrorStays(c, scns, n + 1, start);
    }
  }

  lemma NothingPlaced(c: Context, ds: seq<Data>)
    requires c.codec.Valid()
    ensures FirstError(c, ds, 0).None? && DataSize(c, ds, 0) == 0 && MaxAlign(ds, 0) == 0
  {}

  /** One more descriptor. */
  lemma PlaceOne(c: Context, ds: seq<Data>, j: nat)
    requires c.codec.Valid() && j < |ds| && FirstError(c, ds, j).None?
    ensures FirstError(c, ds, j + 1) == DataError(c, ds[j])
    ensures DataError(c, ds[j]).None? ==>
      && ds[j].align > 0
      && DataOff(c, ds, j) == RoundUp(DataSize(c, ds, j), ds[j].align)
      && DataSize(c, ds, j + 1) == DataOff(c, ds, j) + c.FileSize(ds[j])
      && MaxAlign(ds, j + 1) == if ds[j].align > MaxAlign(ds, j) then ds[j].align else MaxAlign(ds, j)
  {
    hide RoundUp;
  }

  lemma {:induction false} ErrorStays(c: Context, ds: seq<Data>, n: nat)
    requires c.codec.Valid() && n <= |ds| && FirstError(c, ds, n).Some?
    ensures FirstError(c, ds, |ds|) == FirstError(c, ds, n)
    decreases |ds| - n
  {
    if n < |ds| {
      ErrorStays(c, ds, n + 1);
    }
  }

  lemma {:induction false} EncodedFails(c: Context, ds: seq<Data>, n: nat)
    requires n <= |ds| && Encoded(c, ds, n).None?
    ensures Encoded(c, ds, |ds|).None?
    decreases |ds| - n
  {
    if n < |ds| {
      EncodedFails(c, ds, n + 1);
    }
  }

  lemma EncodeOne(c: Context, ds: seq<Data>, j: nat)
    requires j < |ds| && Encoded(c, ds, j).Some?
    ensures var b := Encoded(c, ds, j).value;
      && (ToFile(c, ds[j]).None? ==> Encoded(c, ds, j + 1).None?)
      && (ToFile(c, ds[j]).Some? ==> Encoded(c, ds, j + 1) == Some(b + Gap(c, |b|, ds[j].off) + ToFile(c, ds[j]).value))
      && Gap(c, |b|, ds[j].off) == Repeat(c.fillchar, if |b| < ds[j].off then ds[j].off - |b| else 0)
      && |b + Gap(c, |b|, ds[j].off)| == if |b| < ds[j].off then ds[j].off else |b|
  {}

  lemma RoomFor(c: Context, s: Scn, room: nat)
    requires c.codec.Valid() && CanWrite(c, s, room)
    ensures s.offset + s.size <= room
  {}

  lemma EncodedSize(c: Context, s: Scn, room: nat)
    requires c.codec.Valid() && CanWrite(c, s, room) && s.data != []
    requires Encoded(c, s.data, |s.data|).Some?
    ensures |Encoded(c, s.data, |s.data|).value| == s.size
  {
    EncodedLength(c, s.data, |s.data|);
  }

  /** What has been written ends before the next descriptor, which ends within the section. */
  lemma DescriptorFits(c: Context, s: Scn, room: nat, j: nat)
    requires c.codec.Valid() && CanWrite(c, s, room) && j < |s.data|
    requires Encoded(c, s.data, j).Some?
    ensures s.data[j].buf.Some?
    ensures |Encoded(c, s.data, j).value| <= s.data[j].off
    ensures ToFile(c, s.data[j]).Some? ==> s.data[j].off + |ToFile(c, s.data[j]).value| <= s.size
    ensures s.data[j].off <= s.size
  {
    EncodedLength(c, s.data, j);
    DataInOrder(c, s.data, |s.data|, j);
    assert s.data[j].off == DataOff(c, s.data, j);
  }

  /** Reading the section header table of a written image gives back the headers it was written from. */
  lemma HeadersReadBack(c: Context, o: Object, size: nat, img: seq<byte>, i: nat)
    requires c.codec.Valid() && IsImage(c, o, size, img) && i < |o.scns|
    requires c.codec.shdrIn(c.codec.shdr(o.scns[i].shdr)) == o.scns[i].shdr
    ensures c.codec.shdrIn(TableRow(img, o.ehdr.shoff, c.codec.shsz, i)) == o.scns[i].shdr
  {
    hide IsSectionPart, Flatten, InSomePart;
    var at, b := o.ehdr.shoff + i * c.codec.shsz, c.codec.shdr(o.scns[i].shdr);
    assert i * c.codec.shsz == c.codec.shsz * i;
    assert IsTablePart(c, o, i, at, b);
    assert IsPart(c, o, at, b);
  }
}
