/** What the library's layout guarantees: no overlap, alignment, and that laying out again changes nothing. */
module ElfLayoutFacts {
  import opened Arith
  import opened Extents
  import opened Options
  import opened ElfObject
  import opened ElfLayout

  // ----- data descriptors

  lemma {:induction false} SoundAt(c: Context, ds: seq<Data>, n: nat, i: nat)
    requires c.codec.Valid() && i < n <= |ds| && FirstError(c, ds, n).None?
    ensures DataError(c, ds[i]).None?
    ensures ds[i].align > 0 && PowerOfTwo(ds[i].align)
  {
    if i < n - 1 {
      SoundAt(c, ds, n - 1, i);
    }
  }

  lemma {:induction false} MaxAlignCovers(ds: seq<Data>, n: nat, i: nat)
    requires i < n <= |ds|
    ensures ds[i].align <= MaxAlign(ds, n)
  {
    if i < n - 1 {
      MaxAlignCovers(ds, n - 1, i);
    }
  }

  lemma {:induction false} MaxAlignIsOne(ds: seq<Data>, n: nat)
    requires n <= |ds|
    ensures MaxAlign(ds, n) == 0 || exists i :: 0 <= i < n && ds[i].align == MaxAlign(ds, n)
  {
    if n > 0 {
      MaxAlignIsOne(ds, n - 1);
    }
  }

  /** Layout does not depend on the offsets that were there before. */
  lemma {:induction false} OffsetsIgnored(c: Context, ds: seq<Data>, es: seq<Data>, n: nat)
    requires c.codec.Valid() && n <= |ds| == |es|
    requires forall i :: 0 <= i < |ds| ==> es[i] == ds[i].(off := es[i].off)
    ensures DataSize(c, ds, n) == DataSize(c, es, n)
    ensures FirstError(c, ds, n) == FirstError(c, es, n)
    ensures MaxAlign(ds, n) == MaxAlign(es, n)
    ensures n < |ds| ==> DataOff(c, ds, n) == DataOff(c, es, n)
  {
    if n > 0 {
      OffsetsIgnored(c, ds, es, n - 1);
      assert es[n - 1] == ds[n - 1].(off := es[n - 1].off);
      assert c.FileSize(es[n - 1]) == c.FileSize(ds[n - 1]);
    }
    if n < |ds| {
      assert es[n] == ds[n].(off := es[n].off);
    }
  }

  lemma PlacedTwice(c: Context, ds: seq<Data>)
    requires c.codec.Valid()
    ensures Placed(c, Placed(c, ds)) == Placed(c, ds)
    ensures DataSize(c, Placed(c, ds), |ds|) == DataSize(c, ds, |ds|)
    ensures FirstError(c, Placed(c, ds), |ds|) == FirstError(c, ds, |ds|)
    ensures MaxAlign(Placed(c, ds), |ds|) == MaxAlign(ds, |ds|)
  {
    var es := Placed(c, ds);
    forall i: nat | i <= |ds|
      ensures DataSize(c, es, i) == DataSize(c, ds, i)
      ensures i < |ds| ==> DataOff(c, es, i) == DataOff(c, ds, i)
    {
      OffsetsIgnored(c, ds, es, i);
    }
    OffsetsIgnored(c, ds, es, |ds|);
  }

  /** Descriptors follow one another, each at a multiple of its own alignment. */
  lemma {:induction false} DataInOrder(c: Context, ds: seq<Data>, n: nat, i: nat)
    requires c.codec.Valid() && Sound(c, ds) && i < n <= |ds|
    ensures DataSize(c, ds, i) <= DataOff(c, ds, i)
    ensures ds[i].align > 0 && DataOff(c, ds, i) % ds[i].align == 0
    ensures DataOff(c, ds, i) + c.FileSize(ds[i]) == DataSize(c, ds, i + 1) <= DataSize(c, ds, n)
  {
    SoundAt(c, ds, |ds|, i);
    RoundUpIsLeast(DataSize(c, ds, i), ds[i].align);
    if i < n - 1 {
      DataInOrder(c, ds, n - 1, i);
      SoundAt(c, ds, |ds|, n - 1);
      RoundUpIsLeast(DataSize(c, ds, n - 1), ds[n - 1].align);
    }
  }

  // ----- sections

  lemma StoreOnce(c: Context, x: nat)
    ensures c.Store(c.Store(x)) == c.Store(x) <= x
    ensures !c.is64 ==> c.Store(x) < TWO32
    ensures c.is64 || x < TWO32 ==> c.Store(x) == x
  {}

  /** The alignment a section with data `ds` gets. */
  function ScnAlign(c: Context, s: Scn, ds: seq<Data>): (r: nat)
    requires s.shdr.shtype.Contents? && Known(c, s)
    ensures r > 0
  {
    if MaxAlign(ds, |ds|) > StartAlign(c, s) then MaxAlign(ds, |ds|) else StartAlign(c, s)
  }

  /** What a layout stores as alignment and entry size is what the next layout starts from. */
  lemma FieldsTwice(c: Context, s: Scn, ds: seq<Data>, s': Scn)
    requires c.codec.Valid() && Known(c, s) && s.shdr.shtype.Contents?
    requires s'.shdr.shtype == s.shdr.shtype
    requires s'.shdr.addralign == c.Store(ScnAlign(c, s, ds))
    requires s'.shdr.entsize == c.Store(EntrySize(c, s))
    requires !c.is64 ==> s'.shdr.size < TWO32
    ensures Known(c, s') && ScnAlign(c, s', ds) == ScnAlign(c, s, ds)
    ensures c.Store(EntrySize(c, s')) == c.Store(EntrySize(c, s))
  {
    StoreOnce(c, ScnAlign(c, s, ds));
    StoreOnce(c, EntrySize(c, s));
  }

  /** A section that holds its data is laid out from the data alone. */
  lemma LayoutWithData(c: Context, s: Scn, rc: nat)
    requires c.codec.Valid() && Known(c, s) && s.shdr.shtype.Contents?
    requires (s.data != [] || s.dirty) && Loaded(c, s).Ok? && Sound(c, Loaded(c, s).value.data)
    ensures var ds := Loaded(c, s).value.data;
      LayoutScn(c, s, rc) == Ok(Place(c, s.(data := Placed(c, ds)), ScnAlign(c, s, ds), EntrySize(c, s),
                                      DataSize(c, ds, |ds|), rc))
  {
    hide RoundUp, Place, DataSize, Placed, MaxAlign;
  }

  /** Laying out a section that was just laid out, at the same place, changes nothing. */
  lemma LayoutScnTwice(c: Context, s: Scn, rc: nat)
    requires c.codec.Valid() && Known(c, s) && s.shdr.shtype.Contents?
    requires LayoutScn(c, s, rc).Ok?
    ensures var s' := LayoutScn(c, s, rc).value;
      s'.shdr.shtype == s.shdr.shtype && Known(c, s') && LayoutScn(c, s', rc) == Ok(s')
  {
    hide RoundUp, Context.Store, DataSize, Placed, MaxAlign;
    var s' := LayoutScn(c, s, rc).value;
    StoreOnce(c, s'.size);
    if s.data == [] && !s.dirty {
      StoreOnce(c, StartAlign(c, s));
      StoreOnce(c, s.shdr.addralign);
      StoreOnce(c, s.shdr.entsize);
    } else {
      var ds := Loaded(c, s).value.data;
      LayoutWithData(c, s, rc);
      PlacedTwice(c, ds);
      assert Loaded(c, s') == Ok(s');
      FieldsTwice(c, s, s'.data, s') by {
        assert MaxAlign(ds, |ds|) == MaxAlign(s'.data, |s'.data|);
      }
      LayoutWithData(c, s', rc);
    }
  }

  lemma LayoutScnPlaces(c: Context, s: Scn, rc: nat)
    requires c.codec.Valid() && Known(c, s) && s.shdr.shtype.Contents?
    requires LayoutScn(c, s, rc).Ok?
    ensures LayoutScn(c, s, rc).value.offset >= rc
  {
    if s.data == [] && !s.dirty {
      RoundUpIsLeast(rc, StartAlign(c, s));
    } else {
      var ds := Loaded(c, s).value.data;
      var m := MaxAlign(ds, |ds|);
      RoundUpIsLeast(rc, if m > StartAlign(c, s) then m else StartAlign(c, s));
    }
  }

  /** A section keeps its data, placed in order, and its size is where the data ends. */
  ghost predicate DataPlaced(c: Context, s: Scn)
    requires c.codec.Valid()
  {
    && Sound(c, s.data)
    && s.data == Placed(c, s.data)
    && (s.data != [] || s.dirty ==> s.size == DataSize(c, s.data, |s.data|))
  }

  lemma LayoutScnData(c: Context, s: Scn, rc: nat)
    requires c.codec.Valid() && Known(c, s) && s.shdr.shtype.Contents?
    requires LayoutScn(c, s, rc).Ok?
    ensures DataPlaced(c, LayoutScn(c, s, rc).value)
    ensures var s' := LayoutScn(c, s, rc).value;
      s'.rawoff == s.rawoff && s'.raw == s.raw && s'.dirty == s.dirty && s'.ndx == s.ndx &&
      s'.shdr == s.shdr.(addralign := s'.shdr.addralign, entsize := s'.shdr.entsize,
                         offset := c.Store(s'.offset), size := c.Store(s'.size)) &&
      (s.data == [] && !s.dirty ==> s'.data == [] && s'.size == s.shdr.size)
  {
    if s.data == [] && !s.dirty {
    } else {
      PlacedTwice(c, Loaded(c, s).value.data);
    }
  }

  lemma FAlignIsPower(t: ElfType, is64: bool)
    ensures FAlign(t, is64) > 0 ==> PowerOfTwo(FAlign(t, is64))
  {
    assert PowerOfTwo(1) && PowerOfTwo(2) && PowerOfTwo(4) && PowerOfTwo(8);
  }

  lemma WidestIsPower(c: Context, s: Scn, ds: seq<Data>)
    requires c.codec.Valid() && Known(c, s) && s.shdr.shtype.Contents? && FirstError(c, ds, |ds|).None?
    requires s.shdr.addralign == 0 || PowerOfTwo(s.shdr.addralign)
    ensures PowerOfTwo(if MaxAlign(ds, |ds|) > StartAlign(c, s) then MaxAlign(ds, |ds|) else StartAlign(c, s))
  {
    hide PowerOfTwo, FAlign, MaxAlign, DataError;
    FAlignIsPower(s.shdr.shtype.t, c.is64);
    MaxAlignIsOne(ds, |ds|);
    if MaxAlign(ds, |ds|) > StartAlign(c, s) {
      var j :| 0 <= j < |ds| && ds[j].align == MaxAlign(ds, |ds|);
      SoundAt(c, ds, |ds|, j);
    }
  }

  /** With a power of two in the header, every descriptor lands in the file at its own alignment. */
  lemma DataAlignedInFile(c: Context, s: Scn, rc: nat, i: nat)
    requires c.codec.Valid() && Known(c, s) && s.shdr.shtype.Contents?
    requires s.shdr.addralign == 0 || PowerOfTwo(s.shdr.addralign)
    requires LayoutScn(c, s, rc).Ok? && i < |LayoutScn(c, s, rc).value.data|
    ensures var s' := LayoutScn(c, s, rc).value;
      s'.data[i].align > 0 && (s'.offset + s'.data[i].off) % s'.data[i].align == 0
  {
    hide DataOff, MaxAlign, DataSize, RoundUp, PowerOfTwo, FAlign, DataError;
    var s' := LayoutScn(c, s, rc).value;
    var ds := Loaded(c, s).value.data;
    var d := ds[i];
    SoundAt(c, ds, |ds|, i);
    DataInOrder(c, ds, |ds|, i);
    var m := MaxAlign(ds, |ds|);
    var align := if m > StartAlign(c, s) then m else StartAlign(c, s);
    MaxAlignCovers(ds, |ds|, i);
    WidestIsPower(c, s, ds);
    PowersDivide(d.align, align);
    RoundUpIsLeast(rc, align);
    ModTrans(s'.offset, align, d.align);
    SumMod(s'.offset, DataOff(c, ds, i), d.align);
  }

  // ----- the section list

  /** The extents are sorted, end within the layout, and the last one ends it. */
  ghost predicate Packed(l: Layout) {
    && Sorted(l.exts)
    && (forall x :: x in l.exts ==> x.End() <= l.end && x.size > 0)
    && |l.exts| > 0 && l.exts[|l.exts| - 1].End() == l.end
  }

  lemma PackedAppend(l: Layout, x: Extent)
    requires Packed(l) && x.size > 0 && l.end <= x.start
    ensures Packed(l.(exts := l.exts + [x], end := x.End()))
  {}

  lemma NoSections(c: Context, scns: seq<Scn>, start: Layout)
    requires c.codec.Valid() && (forall s :: s in scns ==> Known(c, s))
    ensures LayoutScns(c, scns, 0, start) == Ok(start.(scns := []))
  {}

  /** One more section. */
  lemma LayoutOne(c: Context, scns: seq<Scn>, i: nat, start: Layout)
    requires c.codec.Valid() && (forall s :: s in scns ==> Known(c, s))
    requires i < |scns| && LayoutScns(c, scns, i, start).Ok?
    ensures var l := LayoutScns(c, scns, i, start).value;
      LayoutScns(c, scns, i + 1, start) ==
        if !scns[i].shdr.shtype.Contents? then Ok(l.(scns := l.scns + [scns[i]]))
        else
          match LayoutScn(c, scns[i], l.end)
          case Err(e) => Err(e)
          case Ok(s) =>
            if s.size == 0 then Ok(l.(scns := l.scns + [s]))
            else Ok(Layout(l.scns + [s], s.offset + s.size,
                           l.exts + [Extent(s.offset, s.size, SectionExtent(i))]))
  {
    hide LayoutScn;
  }

  lemma EarlierOk(c: Context, scns: seq<Scn>, n: nat, start: Layout)
    requires c.codec.Valid() && (forall s :: s in scns ==> Known(c, s)) && n < |scns|
    requires LayoutScns(c, scns, n + 1, start).Ok?
    ensures LayoutScns(c, scns, n, start).Ok?
  {
    hide LayoutScn;
  }

  lemma {:induction false} LayoutScnsPacked(c: Context, scns: seq<Scn>, n: nat, start: Layout)
    requires c.codec.Valid() && (forall s :: s in scns ==> Known(c, s)) && n <= |scns|
    requires Packed(start) && LayoutScns(c, scns, n, start).Ok?
    ensures var l := LayoutScns(c, scns, n, start).value;
      Packed(l) && |l.scns| == n && start.end <= l.end && start.exts <= l.exts
  {
    hide LayoutScn, LayoutScns, Packed;
    NoSections(c, scns, start);
    if n == 0 {
      SamePacked(start, []);
    } else {
      EarlierOk(c, scns, n - 1, start);
      LayoutScnsPacked(c, scns, n - 1, start);
      LayoutOne(c, scns, n - 1, start);
      var l, s := LayoutScns(c, scns, n - 1, start).value, scns[n - 1];
      var l' := LayoutScns(c, scns, n, start).value;
      if s.shdr.shtype.Contents? && LayoutScn(c, s, l.end).value.size > 0 {
        var s' := LayoutScn(c, s, l.end).value;
        LayoutScnPlaces(c, s, l.end);
        PackedAppend(l, Extent(s'.offset, s'.size, SectionExtent(n - 1)));
        SamePacked(l.(exts := l'.exts, end := l'.end), l'.scns);
      } else {
        SamePacked(l, l'.scns);
      }
    }
  }

  lemma SamePacked(l: Layout, scns: seq<Scn>)
    ensures Packed(l.(scns := scns)) == Packed(l)
  {}

  /** The extents of the sections, among the first `n`, that have contents in the image. */
  function SectionExtents(scns: seq<Scn>, n: nat): seq<Extent>
    requires n <= |scns|
  {
    if n == 0 then []
    else
      var s := scns[n - 1];
      SectionExtents(scns, n - 1) + (if s.Occupies() then [Extent(s.offset, s.size, SectionExtent(n - 1))] else [])
  }

  lemma {:induction false} SectionExtentsPrefix(scns: seq<Scn>, more: seq<Scn>, n: nat)
    requires n <= |scns| && scns <= more
    ensures SectionExtents(more, n) == SectionExtents(scns, n)
  {
    if n > 0 {
      SectionExtentsPrefix(scns, more, n - 1);
    }
  }

  /** The layout lists the header extents and then one extent for each section with contents, in order. */
  lemma {:induction false} LayoutScnsLists(c: Context, scns: seq<Scn>, n: nat, start: Layout)
    requires c.codec.Valid() && (forall s :: s in scns ==> Known(c, s)) && n <= |scns|
    requires Packed(start) && LayoutScns(c, scns, n, start).Ok?
    ensures var l := LayoutScns(c, scns, n, start).value;
      |l.scns| == n && l.exts == start.exts + SectionExtents(l.scns, n)
  {
    hide LayoutScn, LayoutScns, Packed;
    NoSections(c, scns, start);
    if n > 0 {
      LayoutScnsEach(c, scns, n, start, n - 1);
      LayoutScnsLists(c, scns, n - 1, start);
      LayoutOne(c, scns, n - 1, start);
      var l := LayoutScns(c, scns, n - 1, start).value;
      var l' := LayoutScns(c, scns, n, start).value;
      SectionExtentsPrefix(l.scns, l'.scns, n - 1);
      if scns[n - 1].shdr.shtype.Contents? {
        LayoutScnData(c, scns[n - 1], l.end);
      }
    }
  }

  /** Every section was laid out from the section at its place in the list. */
  lemma {:induction false} LayoutScnsEach(c: Context, scns: seq<Scn>, n: nat, start: Layout, i: nat)
    requires c.codec.Valid() && (forall s :: s in scns ==> Known(c, s)) && i < n <= |scns|
    requires Packed(start) && LayoutScns(c, scns, n, start).Ok?
    ensures LayoutScns(c, scns, i, start).Ok?
    ensures |LayoutScns(c, scns, n, start).value.scns| == n
    ensures var s' := LayoutScns(c, scns, n, start).value.scns[i];
      if scns[i].shdr.shtype.Contents? then
        LayoutScn(c, scns[i], LayoutScns(c, scns, i, start).value.end) == Ok(s')
      else s' == scns[i]
  {
    hide LayoutScn, Packed;
    LayoutScnsPacked(c, scns, n, start);
    LayoutScnsPacked(c, scns, n - 1, start);
    if i < n - 1 {
      LayoutScnsEach(c, scns, n - 1, start, i);
    }
  }

  /** Laying out the sections of a layout again gives the same layout. */
  lemma {:induction false} LayoutScnsTwice(c: Context, scns: seq<Scn>, n: nat, start: Layout, again: seq<Scn>)
    requires c.codec.Valid() && (forall s :: s in scns ==> Known(c, s)) && n <= |scns|
    requires (forall s :: s in again ==> Known(c, s)) && n <= |again|
    requires Packed(start) && LayoutScns(c, scns, n, start).Ok?
    requires |LayoutScns(c, scns, n, start).value.scns| == n
    requires forall i :: 0 <= i < n ==>
      if scns[i].shdr.shtype.Contents? then again[i] == LayoutScns(c, scns, n, start).value.scns[i]
      else !again[i].shdr.shtype.Contents?
    ensures LayoutScns(c, again, n, start) == Ok(LayoutScns(c, scns, n, start).value.(scns := again[..n]))
  {
    hide LayoutScn, LayoutScns, Packed;
    NoSections(c, scns, start);
    NoSections(c, again, start);
    if n > 0 {
      LayoutScnsEach(c, scns, n, start, n - 1);
      LayoutScnsPacked(c, scns, n - 1, start);
      LayoutOne(c, scns, n - 1, start);
      var l := LayoutScns(c, scns, n - 1, start).value;
      assert forall i :: 0 <= i < n - 1 ==> l.scns[i] == LayoutScns(c, scns, n, start).value.scns[i];
      LayoutScnsTwice(c, scns, n - 1, start, again);
      LayoutOne(c, again, n - 1, start);
      assert again[..n] == again[..n - 1] + [again[n - 1]];
      if scns[n - 1].shdr.shtype.Contents? {
        LayoutScnTwice(c, scns[n - 1], l.end);
      }
    }
  }

  // ----- the object

  lemma HeadersPacked(c: Context, o: Object)
    requires WellFormed(c, o)
    ensures Packed(Headers(c, o))
  {
    RoundUpIsLeast(c.codec.ehsz, FAlign(Phdr, c.is64));
    if |o.phdrs| > 0 {
      assert c.codec.phsz * |o.phdrs| > 0;
    }
  }

  lemma TablePacked(c: Context, l: Layout)
    requires c.codec.Valid() && Packed(l)
    ensures Packed(WithTable(c, l)) && l.exts <= WithTable(c, l).exts
  {
    RoundUpIsLeast(l.end, FAlign(Shdr, c.is64));
    if |l.scns| > 0 {
      assert c.codec.shsz * |l.scns| > 0;
      PackedAppend(l, Extent(RoundUp(l.end, FAlign(Shdr, c.is64)), c.codec.shsz * |l.scns|, ShdrExtent));
    }
  }

  /** No two extents of an object that was laid out share a byte, and the image ends with the last one. */
  lemma NoOverlap(c: Context, o: Object)
    requires WellFormed(c, o) && LayoutObject(c, o).Ok?
    ensures var lo := LayoutObject(c, o).value;
      Packed(Layout(lo.obj.scns, lo.size, lo.exts)) &&
      forall i: nat, j: nat :: i < |lo.exts| && j < |lo.exts| && i != j ==> !SharesByte(lo.exts[i], lo.exts[j])
  {
    HeadersPacked(c, o);
    LayoutScnsPacked(c, o.scns, |o.scns|, Headers(c, o));
    var l := LayoutScns(c, o.scns, |o.scns|, Headers(c, o)).value;
    TablePacked(c, l);
    var lo := LayoutObject(c, o).value;
    forall i: nat, j: nat | i < |lo.exts| && j < |lo.exts| && i != j
      ensures !SharesByte(lo.exts[i], lo.exts[j])
    {
      SortedIsDisjoint(lo.exts, i, j);
    }
  }

  lemma LaidOutWellFormed(c: Context, o: Object)
    requires WellFormed(c, o) && LayoutObject(c, o).Ok?
    ensures WellFormed(c, LayoutObject(c, o).value.obj)
    ensures |LayoutObject(c, o).value.obj.scns| == |o.scns|
  {
    HeadersPacked(c, o);
    var start := Headers(c, o);
    LayoutScnsPacked(c, o.scns, |o.scns|, start);
    var o' := LayoutObject(c, o).value.obj;
    forall i: nat | i < |o.scns|
      ensures Known(c, o'.scns[i]) && o'.scns[i].ndx == i && o'.scns[i].shdr.shtype == o.scns[i].shdr.shtype
    {
      LayoutScnsEach(c, o.scns, |o.scns|, start, i);
      if o.scns[i].shdr.shtype.Contents? {
        var rc := LayoutScns(c, o.scns, i, start).value.end;
        LayoutScnTwice(c, o.scns[i], rc);
        LayoutScnData(c, o.scns[i], rc);
      }
    }
  }

  lemma StoredOffsets(c: Context, o: Object)
    requires WellFormed(c, o) && LayoutObject(c, o).Ok?
    ensures LayoutScns(c, o.scns, |o.scns|, Headers(c, o)).Ok?
    ensures var lo := LayoutObject(c, o).value;
      var l := LayoutScns(c, o.scns, |o.scns|, Headers(c, o)).value;
      && lo.obj.ehdr.phoff == c.Store(if |o.phdrs| == 0 then 0 else PhdrOff(c, o))
      && lo.obj.ehdr.shoff == c.Store(if |l.scns| == 0 then 0 else RoundUp(l.end, FAlign(Shdr, c.is64)))
      && lo.size == WithTable(c, l).end
  {
    hide RoundUp, LayoutScns, Headers, WithTable, HeaderError, ExtendedScns, Context.Store;
  }

  lemma HeadersEnd(c: Context, o: Object)
    ensures |o.phdrs| > 0 ==> PhdrOff(c, o) <= Headers(c, o).end
  {}

  /** Offsets in an image that is not too large are stored whole. */
  lemma HeaderOffsetsFit(c: Context, o: Object)
    requires WellFormed(c, o) && LayoutObject(c, o).Ok?
    requires LayoutObject(c, o).value.size <= c.Limit()
    ensures var lo := LayoutObject(c, o).value;
      var l := LayoutScns(c, o.scns, |o.scns|, Headers(c, o)).value;
      && lo.obj.ehdr.phoff == (if |o.phdrs| == 0 then 0 else PhdrOff(c, o)) <= lo.size
      && lo.obj.ehdr.shoff == (if |o.scns| == 0 then 0 else RoundUp(l.end, FAlign(Shdr, c.is64))) <= lo.size
  {
    hide RoundUp, LayoutScns, LayoutObject, Headers, Context.Store, Packed;
    StoredOffsets(c, o);
    HeadersPacked(c, o);
    LayoutScnsPacked(c, o.scns, |o.scns|, Headers(c, o));
    HeadersEnd(c, o);
    var l := LayoutScns(c, o.scns, |o.scns|, Headers(c, o)).value;
    RoundUpIsLeast(l.end, FAlign(Shdr, c.is64));
    StoreOnce(c, PhdrOff(c, o));
    StoreOnce(c, RoundUp(l.end, FAlign(Shdr, c.is64)));
    StoreOnce(c, 0);
  }

  lemma SameHeaders(c: Context, o: Object)
    requires WellFormed(c, o) && LayoutObject(c, o).Ok?
    ensures WellFormed(c, LayoutObject(c, o).value.obj)
    ensures Headers(c, LayoutObject(c, o).value.obj) == Headers(c, o)
  {
    hide RoundUp, LayoutScns, Sorted, Context.Store, WellFormed;
    LaidOutWellFormed(c, o);
  }

  /** The sections of the laid-out object differ from the section layout at most in the counts kept in section zero. */
  lemma ScnsTwice(c: Context, o: Object)
    requires WellFormed(c, o) && LayoutObject(c, o).Ok?
    ensures var l := LayoutScns(c, o.scns, |o.scns|, Headers(c, o)).value;
      var o' := LayoutObject(c, o).value.obj;
      && WellFormed(c, o') && Headers(c, o') == Headers(c, o) && |o'.scns| == |o.scns| == |l.scns|
      && LayoutScns(c, o'.scns, |o'.scns|, Headers(c, o)) == Ok(l.(scns := o'.scns))
  {
    hide RoundUp, LayoutScn, Sorted, Context.Store, HeaderError, UpdatedHeader, WithTable, Headers;
    var start := Headers(c, o);
    var o' := LayoutObject(c, o).value.obj;
    var n := |o.scns|;
    LaidOutWellFormed(c, o);
    SameHeaders(c, o);
    HeadersPacked(c, o);
    LayoutScnsPacked(c, o.scns, n, start);
    forall i | 0 <= i < n
      ensures if o.scns[i].shdr.shtype.Contents? then o'.scns[i] == LayoutScns(c, o.scns, n, start).value.scns[i]
        else !o'.scns[i].shdr.shtype.Contents?
    {
      LayoutScnsEach(c, o.scns, n, start, i);
    }
    LayoutScnsTwice(c, o.scns, n, start, o'.scns);
    assert o'.scns[..n] == o'.scns;
  }

  /** Laying out an object that the library has laid out gives it back, with the same size and extents. */
  lemma LayoutIsFixedPoint(c: Context, o: Object)
    requires WellFormed(c, o) && LayoutObject(c, o).Ok?
    requires LayoutObject(c, o).value.size <= c.Limit()
    ensures WellFormed(c, LayoutObject(c, o).value.obj)
    ensures LayoutObject(c, LayoutObject(c, o).value.obj) == LayoutObject(c, o)
  {
    hide RoundUp, LayoutScns, Sorted, Context.Store, Headers, WellFormed;
    ScnsTwice(c, o);
    HeaderOffsetsFit(c, o);
    var o' := LayoutObject(c, o).value.obj;
    assert ExtendedScns(o', o'.scns) == o'.scns;
    assert HeaderError(c, o'.ehdr).None?;
  }

  /** The library never has a reason to refuse an extent of its own layout. */
  lemma NeverRefused(c: Context, o: Object, i: nat)
    requires WellFormed(c, o) && i < |o.scns| && o.scns[i].shdr.shtype.Contents?
    requires LayoutScns(c, o.scns, i, Headers(c, o)).Ok?
    requires LayoutScn(c, o.scns[i], LayoutScns(c, o.scns, i, Headers(c, o)).value.end).Ok?
    ensures var l := LayoutScns(c, o.scns, i, Headers(c, o)).value;
      var s := LayoutScn(c, o.scns[i], l.end).value;
      Sorted(l.exts) && !ClashesWith(l.exts, Extent(s.offset, s.size, SectionExtent(i)))
  {
    hide LayoutScn, LayoutScns, RoundUp, HeaderError;
    HeadersPacked(c, o);
    LayoutScnsPacked(c, o.scns, i, Headers(c, o));
    LayoutScnPlaces(c, o.scns[i], LayoutScns(c, o.scns, i, Headers(c, o)).value.end);
  }

  /** The table offset kept in the executable header is the real one exactly while it fits the class. */
  lemma TableOffsetIff(c: Context, o: Object)
    requires WellFormed(c, o) && LayoutObject(c, o).Ok? && |o.scns| > 0
    ensures var lo := LayoutObject(c, o).value;
      var end := LayoutScns(c, o.scns, |o.scns|, Headers(c, o)).value.end;
      lo.obj.ehdr.shoff == RoundUp(end, FAlign(Shdr, c.is64)) <==>
        c.is64 || RoundUp(end, FAlign(Shdr, c.is64)) < TWO32
  {
    hide LayoutScns, RoundUp, LayoutObject, Headers, WithTable, Context.Store, Packed;
    StoredOffsets(c, o);
    HeadersPacked(c, o);
    LayoutScnsPacked(c, o.scns, |o.scns|, Headers(c, o));
    StoreOnce(c, RoundUp(LayoutScns(c, o.scns, |o.scns|, Headers(c, o)).value.end, FAlign(Shdr, c.is64)));
  }
}
