/** When an update succeeds, and what reading the written file gives. */
module ElfUpdateFacts {
  import opened Arith
  import opened Extents
  import opened ElfObject
  import opened ElfLayout
  import opened ElfLayoutFacts
  import opened ElfImage

  /** A section of a laid-out object starts at a multiple of the alignment of its type. */
  predicate TypeAligned(c: Context, o: Object) {
    forall s :: s in o.scns && s.Occupies() ==>
      FAlign(s.shdr.shtype.t, c.is64) > 0 && s.offset % FAlign(s.shdr.shtype.t, c.is64) == 0
  }

  /** An object the library can write: buffers are there, untouched sections lie in the file, and no
      section header asks for less alignment than its type needs. */
  predicate Supported(c: Context, o: Object) {
    forall s :: s in o.scns && s.shdr.shtype.Contents? ==> SupportedScn(c, s)
  }

  predicate SupportedScn(c: Context, s: Scn)
    requires s.shdr.shtype.Contents?
  {
    && (s.data == [] && !s.dirty ==>
          && (c.raw.Some? ==> s.rawoff + s.shdr.size <= |c.raw.value|)
          && (s.raw.None? || s.raw.value == s.shdr.size))
    && (forall d :: d in s.data ==> d.buf.Some? && |d.buf.value| == d.size)
    && FAlign(s.shdr.shtype.t, c.is64) > 0
    && StartAlign(c, s) % FAlign(s.shdr.shtype.t, c.is64) == 0
  }

  lemma RoundUpAligned(x: nat, align: nat, a: nat)
    requires a > 0 && align > 0 && align % a == 0
    ensures RoundUp(x, align) % a == 0
  {
    RoundUpIsLeast(x, align);
    ModTrans(RoundUp(x, align), align, a);
  }

  /** The alignment a sound section gets suits its type whenever the header's does. */
  lemma AlignSuitsType(c: Context, s: Scn, ds: seq<Data>)
    requires c.codec.Valid() && Known(c, s) && s.shdr.shtype.Contents? && Sound(c, ds)
    requires StartAlign(c, s) % FAlign(s.shdr.shtype.t, c.is64) == 0
    ensures ScnAlign(c, s, ds) % FAlign(s.shdr.shtype.t, c.is64) == 0
  {
    var m, a := MaxAlign(ds, |ds|), FAlign(s.shdr.shtype.t, c.is64);
    if m > StartAlign(c, s) {
      MaxAlignIsOne(ds, |ds|);
      var j :| 0 <= j < |ds| && ds[j].align == m;
      SoundAt(c, ds, |ds|, j);
      FAlignIsPower(s.shdr.shtype.t, c.is64);
      AtMost(a, StartAlign(c, s));
      PowersDivide(a, m);
    }
  }

  lemma AtMost(a: nat, x: nat)
    requires a > 0 && x > 0 && x % a == 0
    ensures a <= x
  {}

  /** A descriptor read in by the library has its buffer, unless there was nothing to read. */
  lemma ReadInData(c: Context, s: Scn)
    requires c.codec.Valid() && s.shdr.shtype.Contents? && GetData(c, s).Ok?
    ensures var d := GetData(c, s).value;
      && (s.shdr.size == 0 ==> d.size == 0)
      && (s.shdr.size > 0 ==> d.buf.Some? && |d.buf.value| == d.size)
  {}

  lemma NothingReadIn(c: Context, d: Data)
    requires c.codec.Valid() && d.size == 0
    ensures DataSize(c, [d], 1) == 0
  {
    if d.align > 0 {
      RoundUpIsLeast(0, d.align);
      RoundUpUnique(0, d.align, 0) by { MulMod(0, d.align); }
      assert c.FileSize(d) == 0;
      assert DataSize(c, [d], 0) == 0;
    }
  }

  lemma SupportedScnLayout(c: Context, s: Scn, rc: nat)
    requires c.codec.Valid() && Known(c, s) && s.shdr.shtype.Contents? && SupportedScn(c, s)
    requires LayoutScn(c, s, rc).Ok?
    ensures var s' := LayoutScn(c, s, rc).value;
      && s'.shdr.shtype == s.shdr.shtype
      && s'.offset % FAlign(s.shdr.shtype.t, c.is64) == 0
      && (s'.Occupies() && s'.data == [] ==> RawInFile(c, s') && (s'.raw.None? || s'.raw.value == s'.size))
      && (s'.Occupies() ==> forall d :: d in s'.data ==> d.buf.Some? && |d.buf.value| == d.size)
  {
    hide RoundUp, DataSize, Context.Store, FirstError, MaxAlign, GetData;
    NoData(c, []);
    var a := FAlign(s.shdr.shtype.t, c.is64);
    LayoutScnData(c, s, rc);
    if s.data == [] && !s.dirty {
      RoundUpAligned(rc, StartAlign(c, s), a);
    } else {
      var ds := Loaded(c, s).value.data;
      LayoutWithData(c, s, rc);
      AlignSuitsType(c, s, ds);
      RoundUpAligned(rc, ScnAlign(c, s, ds), a);
      if s.data == [] && ds != [] {
        ReadInData(c, s);
        if s.shdr.size == 0 {
          NothingReadIn(c, ds[0]);
        }
      }
    }
  }

  lemma SupportedLayout(c: Context, o: Object)
    requires WellFormed(c, o) && Supported(c, o) && LayoutObject(c, o).Ok?
    requires Laid(c, LayoutObject(c, o).value)
    ensures Readable(c, LayoutObject(c, o).value.obj) && TypeAligned(c, LayoutObject(c, o).value.obj)
  {
    hide LayoutObject, LayoutScn, LayoutScns, Headers, SupportedScn, RawInFile, Packed, DataPlaced;
    var lo := LayoutObject(c, o).value;
    LaidOutWellFormed(c, o);
    forall s | s in lo.obj.scns && s.Occupies()
      ensures s.data == [] ==> RawInFile(c, s) && (s.raw.None? || s.raw.value == s.shdr.size)
      ensures forall d :: d in s.data ==> d.buf.Some? && |d.buf.value| == d.size
      ensures FAlign(s.shdr.shtype.t, c.is64) > 0 && s.offset % FAlign(s.shdr.shtype.t, c.is64) == 0
    {
      var i :| 0 <= i < |lo.obj.scns| && lo.obj.scns[i] == s;
      ObjectScn(c, o, i);
      SupportedScnLayout(c, o.scns[i], LayoutScns(c, o.scns, i, Headers(c, o)).value.end);
    }
  }

  /**
   * _libelf_write_scn() asserts that a section starts at a multiple of its type's alignment.  From any point of the
   * file on, a layout keeps this wherever the section falls exactly if the section's alignment is such a multiple.
   */
  lemma TypeAlignmentIff(c: Context, s: Scn, ds: seq<Data>, low: nat)
    requires Known(c, s) && s.shdr.shtype.Contents?
    ensures (forall rc :: rc >= low ==> RoundUp(rc, ScnAlign(c, s, ds)) % FAlign(s.shdr.shtype.t, c.is64) == 0) <==>
      ScnAlign(c, s, ds) % FAlign(s.shdr.shtype.t, c.is64) == 0
  {
    var align, a := ScnAlign(c, s, ds), FAlign(s.shdr.shtype.t, c.is64);
    if align % a == 0 {
      forall rc | rc >= low
        ensures RoundUp(rc, align) % a == 0
      {
        RoundUpAligned(rc, align, a);
      }
    } else {
      var at := RoundUp(low, align);
      RoundUpIsLeast(low, align);
      MulMod(1, align);
      SumMod(at, align, align);
      RoundUpFixed(at, align);
      RoundUpFixed(at + align, align);
      if at % a == 0 && (at + align) % a == 0 {
        SumMod(at + align, at, a);
      }
      assert RoundUp(at, align) % a != 0 || RoundUp(at + align, align) % a != 0;
    }
  }

  // ----- when the image can be built

  /** Every section in the image can be had: read from the old file, or translated from its descriptors. */
  ghost predicate Buildable(c: Context, lo: LaidOut) {
    && Readable(c, lo.obj) && (forall x :: x in lo.exts ==> Refers(lo.obj, x))
    && ImageUpTo(c, lo.obj, lo.exts, |lo.exts|).Some?
  }

  /** What the contents of a section come from is there. */
  predicate Available(c: Context, s: Scn) {
    if s.data == [] then c.raw.Some? && (s.raw.Some? || s.shdr.offset + s.shdr.size <= |c.raw.value|)
    else forall d :: d in s.data ==> ToFile(c, d).Some?
  }

  lemma {:induction false} EncodedIff(c: Context, ds: seq<Data>, n: nat)
    requires n <= |ds|
    ensures Encoded(c, ds, n).Some? <==> forall j :: 0 <= j < n ==> ToFile(c, ds[j]).Some?
  {
    if n > 0 {
      EncodedIff(c, ds, n - 1);
    }
  }

  lemma SectionBytesIff(c: Context, s: Scn)
    requires s.data == [] ==> RawInFile(c, s)
    ensures SectionBytes(c, s).Some? <==> Available(c, s)
  {
    EncodedIff(c, s.data, |s.data|);
  }

  lemma {:induction false} ImageIff(c: Context, o: Object, exts: seq<Extent>, k: nat)
    requires Readable(c, o) && (forall x :: x in exts ==> Refers(o, x)) && k <= |exts|
    ensures ImageUpTo(c, o, exts, k).Some? <==> forall i :: 0 <= i < k ==> ExtentBytes(c, o, exts[i]).Some?
  {
    hide ExtentBytes, Readable;
    if k > 0 {
      ImageIff(c, o, exts, k - 1);
    }
  }

  /**
   * Writing a laid-out object succeeds exactly if the contents of every section are available.  For an untouched
   * section whose raw data was not fetched before, that depends on its new place in the file: elf_rawdata()
   * compares the rewritten header with the size of the old file.
   */
  lemma WriteSucceedsIff(c: Context, lo: LaidOut)
    requires Laid(c, lo) && Readable(c, lo.obj)
    ensures Buildable(c, lo) <==> forall s :: s in lo.obj.scns && s.Occupies() ==> Available(c, s)
  {
    hide Laid, SectionBytes, Available, ImageUpTo, Readable, ExtentBytes;
    var o := lo.obj;
    LaidRefers(c, lo);
    ImageIff(c, o, lo.exts, |lo.exts|);
    if Buildable(c, lo) {
      forall s | s in o.scns && s.Occupies()
        ensures Available(c, s)
      {
        var i :| 0 <= i < |o.scns| && o.scns[i] == s;
        ScnHasExtent(c, lo, i);
        var k :| 0 <= k < |lo.exts| && lo.exts[k] == Extent(s.offset, s.size, SectionExtent(i));
        ExtentBytesIff(c, o, lo.exts[k]);
      }
    }
    if forall s :: s in o.scns && s.Occupies() ==> Available(c, s) {
      forall k | 0 <= k < |lo.exts|
        ensures ExtentBytes(c, o, lo.exts[k]).Some?
      {
        ExtentBytesIff(c, o, lo.exts[k]);
      }
    }
  }

  lemma LaidRefers(c: Context, lo: LaidOut)
    requires Laid(c, lo)
    ensures forall x :: x in lo.exts ==> Refers(lo.obj, x)
  {
    hide Laid;
    forall x | x in lo.exts
      ensures Refers(lo.obj, x)
    {
      ExtentKinds(c, lo, x);
    }
  }

  lemma ScnHasExtent(c: Context, lo: LaidOut, i: nat)
    requires Laid(c, lo) && i < |lo.obj.scns| && lo.obj.scns[i].Occupies()
    ensures Extent(lo.obj.scns[i].offset, lo.obj.scns[i].size, SectionExtent(i)) in lo.exts
  {
    hide Packed, WellFormed, DataPlaced, SectionExtents;
    SectionEndsFit(lo.obj.scns, |lo.obj.scns|, i);
  }

  lemma ExtentBytesIff(c: Context, o: Object, x: Extent)
    requires Readable(c, o) && Refers(o, x)
    ensures ExtentBytes(c, o, x).Some? <==> x.kind.SectionExtent? ==> Available(c, o.scns[x.kind.ndx])
  {
    hide SectionBytes, Available;
    if x.kind.SectionExtent? {
      SectionBytesIff(c, o.scns[x.kind.ndx]);
    }
  }
}
