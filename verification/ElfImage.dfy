/** The file image of a laid-out object: as the writer builds it, and as the format describes it. */
module ElfImage {
  import opened Arith
  import opened Extents
  import opened Memory
  import opened Options
  import opened ElfObject
  import opened ElfLayout
  import opened ElfLayoutFacts

  // ----- the image as it is built, extent by extent

  function Gap(c: Context, from: nat, to: nat): (r: seq<byte>)
    ensures from <= to ==> |r| == to - from
  {
    Repeat(c.fillchar, if from < to then to - from else 0)
  }

  /** The file representation of a descriptor's buffer. */
  function ToFile(c: Context, d: Data): Option<seq<byte>> {
    if d.buf.None? then None else c.codec.toFile(d.dtype, d.buf.value)
  }

  /** The contents of a section up to the end of descriptor `n - 1`. */
  function Encoded(c: Context, ds: seq<Data>, n: nat): Option<seq<byte>>
    requires n <= |ds|
  {
    if n == 0 then Some([])
    else
      match Encoded(c, ds, n - 1)
      case None => None
      case Some(b) =>
        match ToFile(c, ds[n - 1])
        case None => None
        case Some(f) => Some(b + Gap(c, |b|, ds[n - 1].off) + f)
  }

  /** A section that was not touched is copied from the file it was read from. */
  function RawBytes(c: Context, s: Scn): Option<seq<byte>>
    requires RawInFile(c, s)
  {
    if c.raw.None? then None
    else if s.raw.None? && (s.shdr.offset > |c.raw.value| || s.shdr.size > |c.raw.value| - s.shdr.offset) then None
    else Some(c.raw.value[s.rawoff..s.rawoff + s.size])
  }

  predicate RawInFile(c: Context, s: Scn) {
    c.raw.Some? ==> s.rawoff + s.size <= |c.raw.value|
  }

  function SectionBytes(c: Context, s: Scn): Option<seq<byte>>
    requires s.data == [] ==> RawInFile(c, s)
  {
    if s.data == [] then RawBytes(c, s) else Encoded(c, s.data, |s.data|)
  }

  /** Records of the same length, one after the other. */
  function Flatten(rs: seq<seq<byte>>, n: nat): seq<byte>
    requires n <= |rs|
  {
    if n == 0 then [] else Flatten(rs, n - 1) + rs[n - 1]
  }

  function TableRecords(c: Context, o: Object): (r: seq<seq<byte>>)
    ensures |r| == |o.scns|
  {
    seq(|o.scns|, i requires 0 <= i < |o.scns| => c.codec.shdr(o.scns[i].shdr))
  }

  /** Sections can be read from where their descriptors say. */
  predicate Readable(c: Context, o: Object) {
    forall s :: s in o.scns && s.Occupies() ==>
      && (s.data == [] ==> RawInFile(c, s) && (s.raw.None? || s.raw.value == s.shdr.size))
      && (forall d :: d in s.data ==> d.buf.Some? && |d.buf.value| == d.size)
  }

  predicate Refers(o: Object, x: Extent) {
    x.kind.SectionExtent? ==> x.kind.ndx < |o.scns| && o.scns[x.kind.ndx].Occupies()
  }

  function ExtentBytes(c: Context, o: Object, x: Extent): Option<seq<byte>>
    requires Readable(c, o) && Refers(o, x)
  {
    match x.kind
    case EhdrExtent => Some(c.codec.ehdr(o.ehdr))
    case PhdrExtent => Some(Flatten(o.phdrs, |o.phdrs|))
    case SectionExtent(i) => SectionBytes(c, o.scns[i])
    case ShdrExtent => Some(Flatten(TableRecords(c, o), |o.scns|))
  }

  /** The image up to the end of extent `k - 1`. */
  function ImageUpTo(c: Context, o: Object, exts: seq<Extent>, k: nat): Option<seq<byte>>
    requires Readable(c, o) && (forall x :: x in exts ==> Refers(o, x)) && k <= |exts|
  {
    if k == 0 then Some([])
    else
      match ImageUpTo(c, o, exts, k - 1)
      case None => None
      case Some(b) =>
        match ExtentBytes(c, o, exts[k - 1])
        case None => None
        case Some(e) => Some(b + Gap(c, |b|, exts[k - 1].start) + e)
  }

  // ----- the image as the format describes it

  predicate Has(img: seq<byte>, at: nat, b: seq<byte>) {
    at + |b| <= |img| && img[at..at + |b|] == b
  }

  /** The file holds `b` at offset `at`: a header, a header table record, or the contents of a descriptor. */
  ghost predicate IsPart(c: Context, o: Object, at: nat, b: seq<byte>) {
    || (at == 0 && b == c.codec.ehdr(o.ehdr))
    || (|o.phdrs| > 0 && at == o.ehdr.phoff && b == Flatten(o.phdrs, |o.phdrs|))
    || (exists i: nat :: i < |o.scns| && IsSectionPart(c, o.scns[i], at, b))
    || (exists i: nat :: i < |o.scns| && IsTablePart(c, o, i, at, b))
  }

  ghost predicate IsTablePart(c: Context, o: Object, i: nat, at: nat, b: seq<byte>)
    requires i < |o.scns|
  {
    at == o.ehdr.shoff + i * c.codec.shsz && b == c.codec.shdr(o.scns[i].shdr)
  }

  ghost predicate IsSectionPart(c: Context, s: Scn, at: nat, b: seq<byte>) {
    s.Occupies() &&
    if s.data == [] then RawInFile(c, s) && at == s.offset && RawBytes(c, s) == Some(b)
    else exists j: nat :: j < |s.data| && IsDataPart(c, s, j, at, b)
  }

  ghost predicate IsDataPart(c: Context, s: Scn, j: nat, at: nat, b: seq<byte>)
    requires j < |s.data|
  {
    at == s.offset + s.data[j].off && ToFile(c, s.data[j]) == Some(b)
  }

  /** All parts are where they belong, and all other bytes are fill. */
  ghost predicate IsImage(c: Context, o: Object, size: nat, img: seq<byte>) {
    && |img| == size
    && (forall at: nat, b :: IsPart(c, o, at, b) ==> Has(img, at, b))
    && (forall p: nat :: p < |img| && !InSomePart(c, o, p) ==> img[p] == c.fillchar)
  }

  ghost predicate InSomePart(c: Context, o: Object, p: nat) {
    exists at: nat, b :: IsPart(c, o, at, b) && at <= p < at + |b|
  }

  /** The description leaves no choice: there is at most one image of a given size. */
  lemma ImageIsUnique(c: Context, o: Object, size: nat, img: seq<byte>, other: seq<byte>)
    requires IsImage(c, o, size, img) && IsImage(c, o, size, other)
    ensures img == other
  {
    forall p: nat | p < size
      ensures img[p] == other[p]
    {
      if InSomePart(c, o, p) {
        var at: nat, b :| IsPart(c, o, at, b) && at <= p < at + |b|;
        assert img[at..at + |b|][p - at] == other[at..at + |b|][p - at];
      }
    }
  }

  // ----- the two agree

  /** A stretch of a buffer holds what the buffer's part at that offset is made of. */
  lemma HasWithin(img: seq<byte>, at: nat, b: seq<byte>, off: nat, part: seq<byte>)
    requires Has(img, at, b) && Has(b, off, part)
    ensures Has(img, at + off, part)
  {
    forall i | 0 <= i < |part|
      ensures img[at + off + i] == part[i]
    {
      assert img[at..at + |b|][off + i] == b[off + i] == b[off..off + |part|][i];
    }
  }

  lemma HasPrefix(b: seq<byte>, more: seq<byte>, at: nat, part: seq<byte>)
    requires Has(b, at, part)
    ensures Has(b + more, at, part)
  {
    assert (b + more)[at..at + |part|] == b[at..at + |part|];
  }

  lemma HasSuffix(b: seq<byte>, more: seq<byte>)
    ensures Has(b + more, |b|, more)
  {}

  lemma {:induction false} FlattenHas(rs: seq<seq<byte>>, n: nat, k: nat)
    requires n <= |rs| && (forall r :: r in rs ==> |r| == k)
    ensures |Flatten(rs, n)| == k * n
    ensures forall i: nat :: i < n ==> Has(Flatten(rs, n), k * i, rs[i])
  {
    hide Has;
    if n > 0 {
      FlattenHas(rs, n - 1, k);
      assert k * n == k * (n - 1) + k;
      forall i: nat | i < n
        ensures Has(Flatten(rs, n), k * i, rs[i])
      {
        if i < n - 1 {
          HasPrefix(Flatten(rs, n - 1), rs[n - 1], k * i, rs[i]);
        } else {
          HasSuffix(Flatten(rs, n - 1), rs[n - 1]);
        }
      }
    }
  }

  lemma NoData(c: Context, ds: seq<Data>)
    requires c.codec.Valid()
    ensures DataSize(c, ds, 0) == 0
  {}

  /** Descriptors that can be encoded: sound, in place, each with its buffer. */
  ghost predicate Encodable(c: Context, ds: seq<Data>) {
    && c.codec.Valid() && Sound(c, ds) && ds == Placed(c, ds)
    && forall d :: d in ds ==> d.buf.Some? && |d.buf.value| == d.size
  }

  /** One more descriptor is encoded at its offset. */
  lemma EncodeStep(c: Context, ds: seq<Data>, n: nat)
    requires Encodable(c, ds) && n < |ds| && Encoded(c, ds, n + 1).Some?
    ensures Encoded(c, ds, n).Some? && ToFile(c, ds[n]).Some?
    ensures var b, f := Encoded(c, ds, n).value, ToFile(c, ds[n]).value;
      && Encoded(c, ds, n + 1).value == b + Gap(c, |b|, ds[n].off) + f
      && |f| == c.FileSize(ds[n])
      && DataSize(c, ds, n) <= ds[n].off
      && ds[n].off + |f| == DataSize(c, ds, n + 1)
  {
    hide DataSize, RoundUp, FirstError;
    DataInOrder(c, ds, |ds|, n);
    assert ds[n].off == DataOff(c, ds, n);
    assert ds[n] in ds;
  }

  lemma {:induction false} EncodedLength(c: Context, ds: seq<Data>, n: nat)
    requires Encodable(c, ds) && n <= |ds| && Encoded(c, ds, n).Some?
    ensures |Encoded(c, ds, n).value| == DataSize(c, ds, n)
  {
    hide RoundUp, Encoded, Sound, Placed;
    if n == 0 {
      assert |Encoded(c, ds, 0).value| == 0 by { NothingEncoded(c, ds); }
      NoData(c, ds);
    } else {
      EncodeStep(c, ds, n - 1);
      EncodedLength(c, ds, n - 1);
    }
  }

  lemma NothingEncoded(c: Context, ds: seq<Data>)
    ensures Encoded(c, ds, 0) == Some([])
  {}

  /** The encoding of a section has each descriptor at its offset. */
  lemma {:induction false} EncodedAt(c: Context, ds: seq<Data>, n: nat, j: nat)
    requires Encodable(c, ds) && j < n <= |ds| && Encoded(c, ds, n).Some?
    ensures ToFile(c, ds[j]).Some? && Has(Encoded(c, ds, n).value, ds[j].off, ToFile(c, ds[j]).value)
  {
    hide DataSize, Encodable, Encoded;
    EncodeStep(c, ds, n - 1);
    EncodedLength(c, ds, n - 1);
    var b, f := Encoded(c, ds, n - 1).value, ToFile(c, ds[n - 1]).value;
    var gap := Gap(c, |b|, ds[n - 1].off);
    assert b + gap + f == b + (gap + f);
    if j < n - 1 {
      EncodedAt(c, ds, n - 1, j);
      HasPrefix(b, gap + f, ds[j].off, ToFile(c, ds[j]).value);
    }
  }

  /** A byte of the encoding of a section that is not fill is in a descriptor's part of it. */
  lemma {:induction false} EncodedElsewhere(c: Context, ds: seq<Data>, n: nat, p: nat)
    requires Encodable(c, ds) && n <= |ds| && Encoded(c, ds, n).Some?
    requires p < |Encoded(c, ds, n).value| && Encoded(c, ds, n).value[p] != c.fillchar
    ensures exists j: nat :: j < n && InData(c, ds, j, p)
  {
    hide DataSize, Encodable, Encoded;
    NothingEncoded(c, ds);
    EncodeStep(c, ds, n - 1);
    EncodedLength(c, ds, n - 1);
    var b := Encoded(c, ds, n - 1).value;
    if p < |b| {
      EncodedElsewhere(c, ds, n - 1, p);
      var j: nat :| j < n - 1 && InData(c, ds, j, p);
    } else {
      assert InData(c, ds, n - 1, p);
    }
  }

  ghost predicate InData(c: Context, ds: seq<Data>, j: nat, p: nat)
    requires j < |ds|
  {
    ToFile(c, ds[j]).Some? && ds[j].off <= p < ds[j].off + |ToFile(c, ds[j]).value|
  }

  /** Extents in order that their bytes fill. */
  ghost predicate Fills(c: Context, o: Object, exts: seq<Extent>)
  {
    && Readable(c, o) && Sorted(exts)
    && (forall x :: x in exts ==> Refers(o, x))
    && (forall x :: x in exts && ExtentBytes(c, o, x).Some? ==> |ExtentBytes(c, o, x).value| == x.size)
  }

  lemma FillsStep(c: Context, o: Object, exts: seq<Extent>, k: nat)
    requires Fills(c, o, exts) && k < |exts|
    ensures forall x :: x in exts ==> Refers(o, x)
    ensures Readable(c, o) && Refers(o, exts[k]) && (k > 0 ==> exts[k - 1].End() <= exts[k].start)
    ensures ExtentBytes(c, o, exts[k]).Some? ==> |ExtentBytes(c, o, exts[k]).value| == exts[k].size
  {
    hide ExtentBytes, Readable;
  }

  /** The image has each extent's bytes at its start, and fill elsewhere. */
  lemma {:induction false} ImageHas(c: Context, o: Object, exts: seq<Extent>, k: nat)
    requires Fills(c, o, exts) && k <= |exts|
    requires ImageUpTo(c, o, exts, k).Some?
    ensures var b := ImageUpTo(c, o, exts, k).value;
      && |b| == (if k == 0 then 0 else exts[k - 1].End())
      && (forall i: nat :: i < k ==> ExtentBytes(c, o, exts[i]).Some?)
      && (forall i: nat :: i < k ==> Has(b, exts[i].start, ExtentBytes(c, o, exts[i]).value))
      && (forall p: nat :: p < |b| && b[p] != c.fillchar ==> exists i: nat :: i < k && exts[i].Holds(p))
  {
    hide ExtentBytes, Readable, Fills;
    if k > 0 {
      FillsStep(c, o, exts, k - 1);
      ImageHas(c, o, exts, k - 1);
      var b := ImageUpTo(c, o, exts, k - 1).value;
      var x := exts[k - 1];
      var e := ExtentBytes(c, o, x).value;
      var b' := ImageUpTo(c, o, exts, k).value;
      var tail := Gap(c, |b|, x.start) + e;
      assert |b| <= x.start;
      assert b' == b + tail;
      forall i: nat | i < k
        ensures ExtentBytes(c, o, exts[i]).Some? && Has(b', exts[i].start, ExtentBytes(c, o, exts[i]).value)
      {
        if i < k - 1 {
          HasPrefix(b, tail, exts[i].start, ExtentBytes(c, o, exts[i]).value);
        }
      }
      forall p: nat | p < |b'| && b'[p] != c.fillchar
        ensures exists i: nat :: i < k && exts[i].Holds(p)
      {
        if p < |b| {
          var i: nat :| i < k - 1 && exts[i].Holds(p);
          assert exts[i].Holds(p);
        } else {
          assert exts[k - 1].Holds(p);
        }
      }
    }
  }

  // ----- laid-out objects

  function HeaderExtents(c: Context, o: Object): seq<Extent> {
    [Extent(0, c.codec.ehsz, EhdrExtent)] +
    (if |o.phdrs| == 0 then [] else [Extent(o.ehdr.phoff, c.codec.phsz * |o.phdrs|, PhdrExtent)])
  }

  function TableExtents(c: Context, o: Object): seq<Extent> {
    if |o.scns| == 0 then [] else [Extent(o.ehdr.shoff, c.codec.shsz * |o.scns|, ShdrExtent)]
  }

  /** What the writers need to know of a layout; the offsets are those stored in the headers. */
  ghost predicate Laid(c: Context, lo: LaidOut) {
    && WellFormed(c, lo.obj)
    && Packed(Layout(lo.obj.scns, lo.size, lo.exts))
    && FAlign(Phdr, c.is64) > 0 && lo.obj.ehdr.phoff % FAlign(Phdr, c.is64) == 0
    && FAlign(Shdr, c.is64) > 0 && lo.obj.ehdr.shoff % FAlign(Shdr, c.is64) == 0
    && lo.exts == HeaderExtents(c, lo.obj) + SectionExtents(lo.obj.scns, |lo.obj.scns|) + TableExtents(c, lo.obj)
    && (forall s :: s in lo.obj.scns && s.Occupies() ==>
          DataPlaced(c, s) && s.shdr.offset == s.offset && s.shdr.size == s.size && (s.data == [] ==> !s.dirty))
  }

  lemma {:induction false} SectionExtentsIgnoresNull(scns: seq<Scn>, s: Scn, n: nat)
    requires n <= |scns| && 0 < |scns| && !scns[0].Occupies() && !s.Occupies()
    ensures SectionExtents(scns[0 := s], n) == SectionExtents(scns, n)
  {
    if n > 0 {
      SectionExtentsIgnoresNull(scns, s, n - 1);
    }
  }

  lemma {:induction false} SectionEndsFit(scns: seq<Scn>, n: nat, i: nat)
    requires i < n <= |scns| && scns[i].Occupies()
    ensures Extent(scns[i].offset, scns[i].size, SectionExtent(i)) in SectionExtents(scns, n)
  {
    if i < n - 1 {
      SectionEndsFit(scns, n - 1, i);
    }
  }

  lemma LaidOffsets(c: Context, o: Object)
    requires WellFormed(c, o) && LayoutObject(c, o).Ok?
    requires LayoutObject(c, o).value.size <= c.Limit()
    ensures var ehdr := LayoutObject(c, o).value.obj.ehdr;
      && FAlign(Phdr, c.is64) > 0 && ehdr.phoff % FAlign(Phdr, c.is64) == 0
      && FAlign(Shdr, c.is64) > 0 && ehdr.shoff % FAlign(Shdr, c.is64) == 0
  {
    hide RoundUp, LayoutScns, Headers, WithTable, UpdatedHeader, ExtendedScns;
    HeaderOffsetsFit(c, o);
    RoundUpIsLeast(c.codec.ehsz, FAlign(Phdr, c.is64));
    RoundUpIsLeast(LayoutScns(c, o.scns, |o.scns|, Headers(c, o)).value.end, FAlign(Shdr, c.is64));
  }

  lemma LaidExtents(c: Context, o: Object)
    requires WellFormed(c, o) && LayoutObject(c, o).Ok?
    requires LayoutObject(c, o).value.size <= c.Limit()
    ensures var lo := LayoutObject(c, o).value;
      lo.exts == HeaderExtents(c, lo.obj) + SectionExtents(lo.obj.scns, |lo.obj.scns|) + TableExtents(c, lo.obj)
  {
    hide RoundUp, LayoutScn, LayoutScns, Sorted, Context.Store, HeaderError, UpdatedHeader, SectionExtents;
    var lo, start := LayoutObject(c, o).value, Headers(c, o);
    LaidOutWellFormed(c, o);
    HeadersPacked(c, o);
    LayoutScnsLists(c, o.scns, |o.scns|, start);
    HeaderOffsetsFit(c, o);
    var l := LayoutScns(c, o.scns, |o.scns|, start).value;
    if |o.scns| > 0 {
      LayoutScnsEach(c, o.scns, |o.scns|, start, 0);
      SectionExtentsIgnoresNull(l.scns, lo.obj.scns[0], |l.scns|);
    }
    assert start.exts == HeaderExtents(c, lo.obj);
  }

  /** A section of a laid-out object is its section laid out behind those before it. */
  lemma ObjectScn(c: Context, o: Object, i: nat)
    requires WellFormed(c, o) && LayoutObject(c, o).Ok?
    requires i < |o.scns| == |LayoutObject(c, o).value.obj.scns| && LayoutObject(c, o).value.obj.scns[i].Occupies()
    ensures var before := LayoutScns(c, o.scns, i, Headers(c, o));
      && before.Ok? && o.scns[i].shdr.shtype.Contents?
      && LayoutScn(c, o.scns[i], before.value.end) == Ok(LayoutObject(c, o).value.obj.scns[i])
  {
    hide LayoutScn, LayoutScns, HeaderError, UpdatedHeader, Headers, WithTable, Packed;
    HeadersPacked(c, o);
    LayoutScnsEach(c, o.scns, |o.scns|, Headers(c, o), i);
    LayoutScnsEach(c, o.scns, |o.scns|, Headers(c, o), 0);
  }

  lemma ScnInImage(c: Context, o: Object, i: nat)
    requires WellFormed(c, o) && LayoutObject(c, o).Ok? && LayoutObject(c, o).value.size <= c.Limit()
    requires i < |o.scns| == |LayoutObject(c, o).value.obj.scns| && LayoutObject(c, o).value.obj.scns[i].Occupies()
    ensures var lo := LayoutObject(c, o).value; lo.obj.scns[i].offset + lo.obj.scns[i].size <= lo.size
  {
    hide LayoutObject, HeaderExtents, TableExtents, SectionExtents, WellFormed;
    var lo := LayoutObject(c, o).value;
    NoOverlap(c, o);
    LaidExtents(c, o);
    SectionEndsFit(lo.obj.scns, |lo.obj.scns|, i);
    assert Extent(lo.obj.scns[i].offset, lo.obj.scns[i].size, SectionExtent(i)) in lo.exts;
  }

  /** A section of a laid-out object that is in the image. */
  lemma LaidOutScn(c: Context, o: Object, i: nat)
    requires WellFormed(c, o) && LayoutObject(c, o).Ok? && LayoutObject(c, o).value.size <= c.Limit()
    requires i < |o.scns| == |LayoutObject(c, o).value.obj.scns| && LayoutObject(c, o).value.obj.scns[i].Occupies()
    ensures var s := LayoutObject(c, o).value.obj.scns[i];
      DataPlaced(c, s) && s.shdr.offset == s.offset && s.shdr.size == s.size && (s.data == [] ==> !s.dirty)
  {
    hide LayoutObject, LayoutScn, LayoutScns, Headers, Context.Store;
    var s := LayoutObject(c, o).value.obj.scns[i];
    ObjectScn(c, o, i);
    ScnInImage(c, o, i);
    LayoutScnData(c, o.scns[i], LayoutScns(c, o.scns, i, Headers(c, o)).value.end);
    StoreOnce(c, s.offset);
    StoreOnce(c, s.size);
  }

  lemma LayoutIsLaid(c: Context, o: Object)
    requires WellFormed(c, o) && LayoutObject(c, o).Ok?
    requires LayoutObject(c, o).value.size <= c.Limit()
    ensures Laid(c, LayoutObject(c, o).value)
  {
    hide LayoutObject, Packed, HeaderExtents, SectionExtents, TableExtents, DataPlaced, WellFormed;
    var lo := LayoutObject(c, o).value;
    NoOverlap(c, o);
    LaidOutWellFormed(c, o);
    LaidOffsets(c, o);
    LaidExtents(c, o);
    forall s | s in lo.obj.scns && s.Occupies()
      ensures DataPlaced(c, s) && s.shdr.offset == s.offset && s.shdr.size == s.size && (s.data == [] ==> !s.dirty)
    {
      var i :| 0 <= i < |lo.obj.scns| && lo.obj.scns[i] == s;
      LaidOutScn(c, o, i);
    }
  }

  lemma {:induction false} SectionExtentsRefer(o: Object, n: nat)
    requires n <= |o.scns|
    ensures forall x :: x in SectionExtents(o.scns, n) ==>
      && Refers(o, x) && x.kind.SectionExtent?
      && x == Extent(o.scns[x.kind.ndx].offset, o.scns[x.kind.ndx].size, x.kind)
  {
    if n > 0 {
      SectionExtentsRefer(o, n - 1);
    }
  }

  /** What the extents of a layout stand for. */
  lemma ExtentKinds(c: Context, lo: LaidOut, x: Extent)
    requires Laid(c, lo) && x in lo.exts
    ensures match x.kind
      case EhdrExtent => x.start == 0 && x.size == c.codec.ehsz
      case PhdrExtent =>
        |lo.obj.phdrs| > 0 && x.start == lo.obj.ehdr.phoff && x.size == c.codec.phsz * |lo.obj.phdrs|
      case ShdrExtent => x.start == lo.obj.ehdr.shoff && x.size == c.codec.shsz * |lo.obj.scns|
      case SectionExtent(i) =>
        && Refers(lo.obj, x) && DataPlaced(c, lo.obj.scns[i])
        && x.start == lo.obj.scns[i].offset && x.size == lo.obj.scns[i].size
  {
    hide Packed, WellFormed, DataPlaced, SectionExtents;
    SectionExtentsRefer(lo.obj, |lo.obj.scns|);
  }

  lemma ScnFilled(c: Context, s: Scn)
    requires c.codec.Valid() && DataPlaced(c, s) && (s.data == [] ==> RawInFile(c, s))
    requires forall d :: d in s.data ==> d.buf.Some? && |d.buf.value| == d.size
    ensures SectionBytes(c, s).Some? ==> |SectionBytes(c, s).value| == s.size
  {
    hide DataSize, Encoded, Encodable;
    if s.data != [] && SectionBytes(c, s).Some? {
      PlacedIsEncodable(c, s);
      EncodedLength(c, s.data, |s.data|);
    }
  }

  /** The writer of an extent fills it. */
  lemma ExtentFilled(c: Context, lo: LaidOut, x: Extent)
    requires Laid(c, lo) && Readable(c, lo.obj) && x in lo.exts
    ensures Refers(lo.obj, x)
    ensures ExtentBytes(c, lo.obj, x).Some? ==> |ExtentBytes(c, lo.obj, x).value| == x.size
  {
    hide Packed, DataPlaced, SectionBytes, SectionExtents, HeaderExtents, TableExtents, Flatten;
    var o := lo.obj;
    ExtentKinds(c, lo, x);
    match x.kind
    case EhdrExtent =>
    case PhdrExtent => FlattenHas(o.phdrs, |o.phdrs|, c.codec.phsz);
    case ShdrExtent => FlattenHas(TableRecords(c, o), |o.scns|, c.codec.shsz);
    case SectionExtent(i) => ScnFilled(c, o.scns[i]);
  }

  lemma LaidFills(c: Context, lo: LaidOut)
    requires Laid(c, lo) && Readable(c, lo.obj)
    ensures Fills(c, lo.obj, lo.exts)
  {
    hide Readable, ExtentBytes, Refers, WellFormed;
    forall x | x in lo.exts
      ensures Refers(lo.obj, x)
      ensures ExtentBytes(c, lo.obj, x).Some? ==> |ExtentBytes(c, lo.obj, x).value| == x.size
    {
      ExtentFilled(c, lo, x);
    }
  }

  /** The bytes that the writers put in the extent at position `k`. */
  lemma ExtentInImage(c: Context, lo: LaidOut, k: nat)
    requires Laid(c, lo) && Readable(c, lo.obj) && k < |lo.exts|
    requires Fills(c, lo.obj, lo.exts) && ImageUpTo(c, lo.obj, lo.exts, |lo.exts|).Some?
    ensures ExtentBytes(c, lo.obj, lo.exts[k]).Some?
    ensures Has(ImageUpTo(c, lo.obj, lo.exts, |lo.exts|).value, lo.exts[k].start,
                ExtentBytes(c, lo.obj, lo.exts[k]).value)
  {
    ImageHas(c, lo.obj, lo.exts, |lo.exts|);
  }

  /** The parts of a section are in the bytes written for it. */
  lemma SectionBytesHave(c: Context, s: Scn, at: nat, b: seq<byte>)
    requires c.codec.Valid() && DataPlaced(c, s) && IsSectionPart(c, s, at, b)
    requires forall d :: d in s.data ==> d.buf.Some? && |d.buf.value| == d.size
    requires SectionBytes(c, s).Some?
    ensures s.offset <= at && Has(SectionBytes(c, s).value, at - s.offset, b)
  {
    hide Encoded, Encodable, Has, ToFile;
    if s.data == [] {
      assert RawBytes(c, s) == Some(b);
      assert Has(b, 0, b) by { HasAll(b); }
    } else {
      var j: nat :| j < |s.data| && IsDataPart(c, s, j, at, b);
      PlacedIsEncodable(c, s);
      EncodedAt(c, s.data, |s.data|, j);
    }
  }

  lemma HasAll(b: seq<byte>)
    ensures Has(b, 0, b)
  {}

  lemma PlacedIsEncodable(c: Context, s: Scn)
    requires c.codec.Valid() && DataPlaced(c, s)
    requires forall d :: d in s.data ==> d.buf.Some? && |d.buf.value| == d.size
    ensures Encodable(c, s.data)
  {}

  lemma SectionPartOccupies(c: Context, s: Scn, at: nat, b: seq<byte>)
    requires IsSectionPart(c, s, at, b)
    ensures s.Occupies()
  {}

  lemma SectionPartInImage(c: Context, lo: LaidOut, img: seq<byte>, i: nat, at: nat, b: seq<byte>)
    requires Laid(c, lo) && Readable(c, lo.obj) && Fills(c, lo.obj, lo.exts)
    requires ImageUpTo(c, lo.obj, lo.exts, |lo.exts|) == Some(img)
    requires i < |lo.obj.scns| && IsSectionPart(c, lo.obj.scns[i], at, b)
    ensures Has(img, at, b)
  {
    hide ImageUpTo, SectionBytes, DataPlaced, Packed, Fills, Has, HeaderExtents, TableExtents, IsSectionPart;
    var o, s := lo.obj, lo.obj.scns[i];
    assert s in o.scns && s.Occupies() by { SectionPartOccupies(c, s, at, b); }
    SectionEndsFit(o.scns, |o.scns|, i);
    var x := Extent(s.offset, s.size, SectionExtent(i));
    assert x in lo.exts;
    var k :| 0 <= k < |lo.exts| && lo.exts[k] == x;
    ExtentInImage(c, lo, k);
    SectionBytesHave(c, s, at, b);
    HasWithin(img, s.offset, SectionBytes(c, s).value, at - s.offset, b);
  }

  lemma HeaderPartsInImage(c: Context, lo: LaidOut, img: seq<byte>)
    requires Laid(c, lo) && Readable(c, lo.obj) && Fills(c, lo.obj, lo.exts)
    requires ImageUpTo(c, lo.obj, lo.exts, |lo.exts|) == Some(img)
    ensures Has(img, 0, c.codec.ehdr(lo.obj.ehdr))
    ensures |lo.obj.phdrs| > 0 ==> Has(img, lo.obj.ehdr.phoff, Flatten(lo.obj.phdrs, |lo.obj.phdrs|))
    ensures |lo.obj.scns| > 0 ==>
      Has(img, lo.obj.ehdr.shoff, Flatten(TableRecords(c, lo.obj), |lo.obj.scns|))
  {
    hide ImageUpTo, Sorted, Fills, SectionExtents, Flatten, Readable, DataPlaced;
    ExtentInImage(c, lo, 0);
    if |lo.obj.phdrs| > 0 {
      assert lo.exts[1].kind == PhdrExtent;
      ExtentInImage(c, lo, 1);
    }
    ExtentInImage(c, lo, |lo.exts| - 1);
  }

  lemma PartInImage(c: Context, lo: LaidOut, img: seq<byte>, at: nat, b: seq<byte>)
    requires c.codec.Valid() && Laid(c, lo) && Readable(c, lo.obj) && Fills(c, lo.obj, lo.exts)
    requires ImageUpTo(c, lo.obj, lo.exts, |lo.exts|) == Some(img)
    requires IsPart(c, lo.obj, at, b)
    ensures Has(img, at, b)
  {
    hide ImageUpTo, Fills, IsSectionPart, IsTablePart, Flatten, Readable, Has, Laid;
    var o := lo.obj;
    HeaderPartsInImage(c, lo, img);
    if i: nat :| i < |o.scns| && IsSectionPart(c, o.scns[i], at, b) {
      SectionPartInImage(c, lo, img, i, at, b);
    } else if i: nat :| i < |o.scns| && IsTablePart(c, o, i, at, b) {
      TablePartInImage(c, o, img, i, at, b);
    }
  }

  lemma TablePartInImage(c: Context, o: Object, img: seq<byte>, i: nat, at: nat, b: seq<byte>)
    requires c.codec.Valid() && i < |o.scns| && IsTablePart(c, o, i, at, b)
    requires Has(img, o.ehdr.shoff, Flatten(TableRecords(c, o), |o.scns|))
    ensures Has(img, at, b)
  {
    hide Has, Flatten;
    TableRecordsHave(c, o);
    assert c.codec.shsz * i == i * c.codec.shsz;
    HasWithin(img, o.ehdr.shoff, Flatten(TableRecords(c, o), |o.scns|), c.codec.shsz * i, b);
  }

  lemma TableRecordsHave(c: Context, o: Object)
    requires c.codec.Valid()
    ensures var rs := TableRecords(c, o);
      && |Flatten(rs, |rs|)| == c.codec.shsz * |rs|
      && forall i: nat :: i < |rs| ==> Has(Flatten(rs, |rs|), c.codec.shsz * i, c.codec.shdr(o.scns[i].shdr))
  {
    var rs := TableRecords(c, o);
    assert forall i: nat :: i < |rs| ==> rs[i] == c.codec.shdr(o.scns[i].shdr);
    FlattenHas(rs, |rs|, c.codec.shsz);
  }

  lemma FillOutsideParts(c: Context, lo: LaidOut, img: seq<byte>, p: nat)
    requires Laid(c, lo) && Readable(c, lo.obj) && Fills(c, lo.obj, lo.exts)
    requires ImageUpTo(c, lo.obj, lo.exts, |lo.exts|) == Some(img)
    requires p < |img| && img[p] != c.fillchar
    ensures InSomePart(c, lo.obj, p)
  {
    hide ImageUpTo, Sorted, Packed, Laid, ExtentBytes, InSomePart, Readable;
    ImageHas(c, lo.obj, lo.exts, |lo.exts|);
    var k: nat :| k < |lo.exts| && lo.exts[k].Holds(p);
    var x := lo.exts[k];
    var e := ExtentBytes(c, lo.obj, x).value;
    assert x in lo.exts && |e| == x.size;
    assert img[p] == img[x.start..x.start + |e|][p - x.start] == e[p - x.start];
    InExtentPart(c, lo, x, p);
  }

  /** A byte of an extent that is not fill is in one of its parts. */
  lemma InExtentPart(c: Context, lo: LaidOut, x: Extent, p: nat)
    requires Laid(c, lo) && Readable(c, lo.obj) && x in lo.exts && x.Holds(p)
    requires Refers(lo.obj, x) && ExtentBytes(c, lo.obj, x).Some? && |ExtentBytes(c, lo.obj, x).value| == x.size
    requires ExtentBytes(c, lo.obj, x).value[p - x.start] != c.fillchar
    ensures InSomePart(c, lo.obj, p)
  {
    hide Sorted, Flatten, Packed, SectionExtents, HeaderExtents, TableExtents, SectionBytes, DataPlaced;
    var o, e := lo.obj, ExtentBytes(c, lo.obj, x).value;
    ExtentKinds(c, lo, x);
    match x.kind
    case EhdrExtent => assert IsPart(c, o, 0, e);
    case PhdrExtent => assert IsPart(c, o, x.start, e);
    case ShdrExtent => InTablePart(c, o, p);
    case SectionExtent(i) => InSectionPart(c, o, i, p, e);
  }

  lemma QuotientBelow(x: nat, a: nat, n: nat)
    requires a > 0 && x < a * n
    ensures x / a < n
  {}

  lemma InTablePart(c: Context, o: Object, p: nat)
    requires c.codec.Valid() && o.ehdr.shoff <= p < o.ehdr.shoff + c.codec.shsz * |o.scns|
    ensures InSomePart(c, o, p)
  {
    var sz := c.codec.shsz;
    var i := (p - o.ehdr.shoff) / sz;
    DivMod(p - o.ehdr.shoff, sz);
    QuotientBelow(p - o.ehdr.shoff, sz, |o.scns|);
    assert IsTablePart(c, o, i, o.ehdr.shoff + i * sz, c.codec.shdr(o.scns[i].shdr));
    assert IsPart(c, o, o.ehdr.shoff + i * sz, c.codec.shdr(o.scns[i].shdr));
  }

  lemma InSectionPart(c: Context, o: Object, i: nat, p: nat, e: seq<byte>)
    requires c.codec.Valid() && Readable(c, o) && i < |o.scns| && o.scns[i].Occupies()
    requires DataPlaced(c, o.scns[i]) && SectionBytes(c, o.scns[i]) == Some(e)
    requires o.scns[i].offset <= p < o.scns[i].offset + |e| && e[p - o.scns[i].offset] != c.fillchar
    ensures InSomePart(c, o, p)
  {
    hide RoundUp, DataSize, Placed;
    var s := o.scns[i];
    if s.data == [] {
      assert IsSectionPart(c, s, s.offset, e);
      assert IsPart(c, o, s.offset, e);
    } else {
      EncodedElsewhere(c, s.data, |s.data|, p - s.offset);
      var j: nat :| j < |s.data| && InData(c, s.data, j, p - s.offset);
      var at, f := s.offset + s.data[j].off, ToFile(c, s.data[j]).value;
      assert IsDataPart(c, s, j, at, f);
      assert IsSectionPart(c, s, at, f);
      assert IsPart(c, o, at, f);
    }
  }

  /** What the writers build from a layout is the image that its headers describe. */
  lemma BuiltImageIsImage(c: Context, lo: LaidOut, img: seq<byte>)
    requires Laid(c, lo) && Readable(c, lo.obj)
    requires Fills(c, lo.obj, lo.exts)
    requires ImageUpTo(c, lo.obj, lo.exts, |lo.exts|) == Some(img)
    ensures IsImage(c, lo.obj, lo.size, img)
  {
    hide Sorted, ExtentBytes, Readable, ImageUpTo, IsPart, InSomePart;
    ImageHas(c, lo.obj, lo.exts, |lo.exts|);
    forall at: nat, b | IsPart(c, lo.obj, at, b)
      ensures Has(img, at, b)
    {
      PartInImage(c, lo, img, at, b);
    }
    forall p: nat | p < |img| && !InSomePart(c, lo.obj, p)
      ensures img[p] == c.fillchar
    {
      if img[p] != c.fillchar {
        FillOutsideParts(c, lo, img, p);
      }
    }
  }
}
