/** What updatenull achieves: order, alignment, disjointness, and which sections it marks as dirty. */
module EuLayoutFacts {
  import opened Arith
  import opened EuObject
  import opened EuLayout

  // ----- dirty flags

  /** What the layout may change about the place of a section and its data. */
  ghost predicate Differs(s: Section, s': Section) {
    || s.shdr.offset != s'.shdr.offset || s.shdr.size != s'.shdr.size
    || (s.listed && (|s.data| != |s'.data| || exists k :: 0 <= k < |s.data| && s.data[k].off != s'.data[k].off))
  }

  lemma ChangesAreDifferences(size: nat, changed: bool, s: Section)
    ensures ScnChanges(size, s) <==> Differs(s, PlacedScn(size, changed, s))
  {
    hide DataEnd, ScnStart, Word, ScnAlign, Contents, Entsize;
    var s' := PlacedScn(size, changed, s);
    if s.listed {
      forall k | 0 <= k < |s.data|
        ensures s'.data[k].off == DataStart(s.data, k)
      {}
    }
  }

  lemma {:induction false} ChangedBeforeIff(scns: seq<Section>, start: nat, n: nat)
    requires n <= |scns|
    ensures ChangedBefore(scns, start, n) <==>
      exists j :: 1 <= j < n && ScnChanges(Running(scns, start, j), scns[j])
  {
    hide ScnChanges, Running;
    if n > 1 {
      ChangedBeforeIff(scns, start, n - 1);
    }
  }

  /** Section `i` after a layout pass */
  lemma PlacedAt(c: Format, o: Object, i: nat)
    requires 1 <= i < |o.scns|
    ensures var before, start := Numbered(o.scns), HeaderEnd(c, o);
      LaidOut(c, o).scns[i] == PlacedScn(Running(before, start, i), ChangedBefore(before, start, i), before[i])
  {
    hide PlacedScn, Running, ChangedBefore, Numbered;
  }

  lemma PlacedDirty(size: nat, changed: bool, s: Section)
    ensures PlacedScn(size, changed, s).dirty == (s.dirty || changed || ScnChanges(size, s))
  {
    hide ScnChanges, DataEnd, Word, ScnAlign, Contents, Entsize, ScnStart, PlacedData;
  }

  /** A section is left dirty exactly if it was, or if it or one before it has been moved, resized or rearranged. */
  lemma DirtyIff(c: Format, o: Object, i: nat)
    requires 1 <= i < |o.scns|
    ensures var before, after := Numbered(o.scns), LaidOut(c, o).scns;
      after[i].dirty <==> before[i].dirty || exists j :: 1 <= j <= i && Differs(before[j], after[j])
  {
    hide ScnChanges, Running, Differs, Numbered, PlacedScn, LaidOut, ChangedBefore;
    var before, after, start := Numbered(o.scns), LaidOut(c, o).scns, HeaderEnd(c, o);
    LaidOutLength(c, o);
    ChangedBeforeIff(before, start, i);
    forall j | 1 <= j <= i
      ensures Differs(before[j], after[j]) <==> ScnChanges(Running(before, start, j), before[j])
    {
      PlacedAt(c, o, j);
      ChangesAreDifferences(Running(before, start, j), ChangedBefore(before, start, j), before[j]);
    }
    PlacedAt(c, o, i);
    PlacedDirty(Running(before, start, i), ChangedBefore(before, start, i), before[i]);
  }

  lemma LaidOutLength(c: Format, o: Object)
    ensures |LaidOut(c, o).scns| == |o.scns|
  {}

  // ----- data blocks

  lemma {:induction false} DataEndGrows(data: seq<Data>, n: nat, m: nat)
    requires n <= m <= |data| && forall k :: 0 <= k < |data| ==> data[k].align >= 1
    ensures DataEnd(data, n) <= DataEnd(data, m)
    decreases m
  {
    if n < m {
      DataEndGrows(data, n, m - 1);
      RoundUpIsLeast(DataEnd(data, m - 1), data[m - 1].align);
    }
  }

  /** The data blocks of a section follow each other, aligned, from its start. */
  lemma DataInOrder(data: seq<Data>, k: nat)
    requires k < |data| && forall k :: 0 <= k < |data| ==> data[k].align >= 1
    ensures DataStart(data, k) % data[k].align == 0 && (k == 0 ==> DataStart(data, k) == 0)
    ensures DataEnd(data, k) <= DataStart(data, k) <= DataStart(data, k) + data[k].size <= DataEnd(data, |data|)
  {
    RoundUpIsLeast(DataEnd(data, k), data[k].align);
    DataEndGrows(data, k + 1, |data|);
    if k == 0 {
      RoundUpFixed(0, data[k].align);
    }
  }

  /** No data block starts before the end of those in front of it. */
  ghost predicate NoneBack(data: seq<Data>) {
    forall k :: 0 <= k < |data| ==> DataEnd(data, k) <= DataStart(data, k)
  }

  /** Blocks are kept apart exactly if those with an alignment of zero have nothing in front of them. */
  lemma ZeroAlignIff(data: seq<Data>)
    ensures NoneBack(data) <==> forall k :: 0 <= k < |data| && data[k].align == 0 ==> DataEnd(data, k) == 0
  {
    hide RoundUp;
    forall k | 0 <= k < |data| && data[k].align > 0
      ensures DataEnd(data, k) <= DataStart(data, k)
    {
      RoundUpIsLeast(DataEnd(data, k), data[k].align);
    }
    forall k | 0 <= k < |data| && data[k].align == 0
      ensures DataStart(data, k) == 0
    {}
  }

  /** Two blocks that the layout accepts and puts in the same place. */
  lemma ZeroAlignOverlaps(a: Data, b: Data)
    requires a.align == 1 && b.align == 0 && a.size > 0 && a.version == b.version == 1
    ensures DataError([a, b], 2).None? && DataStart([a, b], 0) == DataStart([a, b], 1) == 0 && !NoneBack([a, b])
  {
    var data := [a, b];
    assert DataError(data, 0).None? && DataError(data, 1).None?;
    assert DataEnd(data, 0) == 0 && DataStart(data, 0) == 0 && DataEnd(data, 1) == a.size;
    assert DataStart(data, 1) == 0;
  }

  // ----- alignment of sections

  ghost predicate AlignsFit(s: Section) {
    && s.shdr.addralign < TWO32
    && (s.listed ==> forall k :: 0 <= k < |s.data| ==> 1 <= s.data[k].align < TWO32)
  }

  lemma WidenOnce(w: nat, a: nat)
    requires w < TWO32 && a < TWO32
    ensures Word(Max(w, a)) == Max(w, a)
  {}

  lemma {:induction false} WidenedFits(a: nat, data: seq<Data>, n: nat)
    requires n <= |data| && PowerOfTwo(a) && a < TWO32 && DataError(data, n).None?
    requires forall k :: 0 <= k < n ==> 1 <= data[k].align < TWO32
    ensures PowerOfTwo(Widened(a, data, n)) && a <= Widened(a, data, n) < TWO32
    ensures forall k :: 0 <= k < n ==> PowerOfTwo(data[k].align) && data[k].align <= Widened(a, data, n)
  {
    hide PowerOfTwo, Word;
    if n > 0 {
      WidenedFits(a, data, n - 1);
      WidenOnce(Widened(a, data, n - 1), data[n - 1].align);
    }
  }

  /** The alignment of a section is a power of two that all of its data blocks' alignments divide. */
  lemma ScnAlignFits(s: Section, relocatable: bool, permissive: bool)
    requires ScnError(s, relocatable, permissive).None? && AlignsFit(s)
    ensures PowerOfTwo(ScnAlign(s)) && s.shdr.addralign <= ScnAlign(s) < TWO32
    ensures s.listed ==> forall k :: 0 <= k < |s.data| ==> ScnAlign(s) % s.data[k].align == 0
  {
    hide DataError, Widened;
    if s.listed {
      WidenedFits(FirstAlign(s.shdr), s.data, |s.data|);
      forall k | 0 <= k < |s.data|
        ensures ScnAlign(s) % s.data[k].align == 0
      {
        PowersDivide(s.data[k].align, ScnAlign(s));
      }
    }
  }

  // ----- offsets without the 32-bit variables

  /** The running size before section `n`, in unbounded arithmetic */
  function IdealEnd(scns: seq<Section>, start: nat, n: nat): nat
    requires n <= |scns|
    decreases n, 0
  {
    if n <= 1 then start
    else IdealStart(scns, start, n - 1) + if scns[n - 1].shdr.kind.NoBits? then 0 else Contents(scns[n - 1])
  }

  function IdealStart(scns: seq<Section>, start: nat, i: nat): nat
    requires i < |scns|
    decreases i, 1
  {
    Align(IdealEnd(scns, start, i), ScnAlign(scns[i]))
  }

  function IdealTable(c: Format, o: Object): nat {
    RoundUp(IdealEnd(Numbered(o.scns), HeaderEnd(c, o), |o.scns|), TableAlign(c))
  }

  /** What a successful pass has checked, and alignments that fit their 32-bit variables. */
  ghost predicate Layoutable(scns: seq<Section>) {
    forall i :: 1 <= i < |scns| ==> AlignsFit(scns[i]) && PowerOfTwo(ScnAlign(scns[i])) && ScnAlign(scns[i]) < TWO32
  }

  lemma {:induction false} IdealGrows(scns: seq<Section>, start: nat, n: nat, m: nat)
    requires 1 <= n <= m <= |scns| && Layoutable(scns)
    ensures IdealEnd(scns, start, n) <= IdealEnd(scns, start, m)
    ensures n < m ==> IdealStart(scns, start, n) <= IdealEnd(scns, start, m)
    decreases m
  {
    hide ScnAlign, Contents, RoundUp, AlignsFit;
    if n < m {
      IdealGrows(scns, start, n, m - 1);
      RoundUpIsLeast(IdealEnd(scns, start, m - 1), ScnAlign(scns[m - 1]));
    }
  }

  lemma AlignSizeFits(size: nat, a: nat)
    requires a > 0
    ensures AlignSize(size, a) == Align(size, a) <==> Align(size, a) < TWO32
  {}

  lemma {:induction false} RunningIsIdeal(scns: seq<Section>, start: nat, n: nat)
    requires n <= |scns| && Layoutable(scns) && forall i :: 1 <= i < n ==> IdealStart(scns, start, i) < TWO32
    ensures Running(scns, start, n) == IdealEnd(scns, start, n)
  {
    hide ScnAlign, Contents, AlignSize, AlignsFit, Align;
    if n > 1 {
      RunningIsIdeal(scns, start, n - 1);
      AlignSizeFits(IdealEnd(scns, start, n - 1), ScnAlign(scns[n - 1]));
    }
  }

  /** The offsets that are stored, and the one of the section header table, are the intended ones. */
  ghost predicate OffsetsTrue(c: Format, o: Object) {
    var o' := LaidOut(c, o);
    && o'.ehdr.shoff == IdealTable(c, o)
    && forall i :: 1 <= i < |o.scns| ==> o'.scns[i].shdr.offset == IdealStart(Numbered(o.scns), HeaderEnd(c, o), i)
  }

  /** The offsets come out right exactly if the section header table starts below 4 GiB, for either file class. */
  lemma OffsetsTrueIff(c: Format, o: Object)
    requires |o.scns| > 0 && Layoutable(Numbered(o.scns))
    ensures OffsetsTrue(c, o) <==> IdealTable(c, o) < TWO32
  {
    hide PlacedScn, Running, ScnAlign, Numbered, Align, RoundUp, AlignsFit, Contents;
    if IdealTable(c, o) < TWO32 {
      SmallOffsets(c, o);
    }
  }

  /** A section of 4 GiB, in a file of either class */
  lemma FarTable(c: Format, o: Object)
    requires c.ehsz > 0 && o.phdr.None? && |o.scns| == 2
    requires var s := o.scns[1]; !s.listed && s.raw.size == TWO32 && !s.shdr.kind.NoBits? && s.shdr.addralign == 1
    ensures Layoutable(Numbered(o.scns)) && !OffsetsTrue(c, o)
  {
    hide OffsetsTrue, RoundUp;
    var scns, start := Numbered(o.scns), HeaderEnd(c, o);
    assert PowerOfTwo(1);
    assert IdealEnd(scns, start, 1) == start;
    RoundUpIsLeast(start, 1);
    RoundUpIsLeast(IdealEnd(scns, start, 2), TableAlign(c));
    OffsetsTrueIff(c, o);
  }

  lemma StartsBelowTable(c: Format, o: Object, i: nat)
    requires 1 <= i < |o.scns| && Layoutable(Numbered(o.scns))
    ensures IdealStart(Numbered(o.scns), HeaderEnd(c, o), i) <= IdealEnd(Numbered(o.scns), HeaderEnd(c, o), |o.scns|)
      <= IdealTable(c, o)
  {
    hide ScnAlign, Contents, RoundUp, AlignsFit, Numbered;
    IdealGrows(Numbered(o.scns), HeaderEnd(c, o), i, |o.scns|);
    RoundUpIsLeast(IdealEnd(Numbered(o.scns), HeaderEnd(c, o), |o.scns|), TableAlign(c));
  }

  lemma SmallOffsets(c: Format, o: Object)
    requires |o.scns| > 0 && Layoutable(Numbered(o.scns)) && IdealTable(c, o) < TWO32
    ensures OffsetsTrue(c, o)
    ensures var scns, start := Numbered(o.scns), HeaderEnd(c, o);
      Running(scns, start, |scns|) == IdealEnd(scns, start, |scns|)
  {
    hide PlacedScn, ScnAlign, Contents, RoundUp, AlignsFit, Numbered, Running, LaidOut, Align;
    var scns, start := Numbered(o.scns), HeaderEnd(c, o);
    forall i | 1 <= i < |scns|
      ensures IdealStart(scns, start, i) < TWO32
    {
      StartsBelowTable(c, o, i);
    }
    RunningIsIdeal(scns, start, |scns|);
    TableStored(c, o);
    LaidOutLength(c, o);
    forall i | 1 <= i < |o.scns|
      ensures LaidOut(c, o).scns[i].shdr.offset == IdealStart(scns, start, i)
    {
      RunningIsIdeal(scns, start, i);
      PlacedAt(c, o, i);
      PlacedOffset(Running(scns, start, i), ChangedBefore(scns, start, i), scns[i]);
      AlignSizeFits(IdealEnd(scns, start, i), ScnAlign(scns[i]));
    }
  }

  lemma TableStored(c: Format, o: Object)
    requires |o.scns| > 0
    ensures LaidOut(c, o).ehdr.shoff == Word(TableStart(c, o))
  {}

  lemma PlacedOffset(size: nat, changed: bool, s: Section)
    ensures PlacedScn(size, changed, s).shdr.offset == AlignSize(size, ScnAlign(s))
    ensures PlacedScn(size, changed, s).shdr.size == Word(Contents(s))
    ensures PlacedScn(size, changed, s).shdr.kind == s.shdr.kind
    ensures PlacedScn(size, changed, s).shdr.addralign == ScnAlign(s)
  {}

  // ----- the layout

  lemma {:induction false} NoScnError(scns: seq<Section>, relocatable: bool, permissive: bool, i: nat, n: nat)
    requires 1 <= i < n <= |scns| && FirstError(scns, relocatable, permissive, n).None?
    ensures ScnError(scns[i], relocatable, permissive).None?
    decreases n
  {
    if i < n - 1 {
      NoScnError(scns, relocatable, permissive, i, n - 1);
    }
  }

  /** The pass succeeds, alignments fit their variables, and the header table starts below 4 GiB. */
  ghost predicate Fits(c: Format, o: Object, permissive: bool) {
    && |o.scns| > 0 && LayoutError(o, permissive).None? && IdealTable(c, o) < TWO32
    && forall i :: 1 <= i < |o.scns| ==> AlignsFit(o.scns[i])
  }

  lemma FitsIsLayoutable(c: Format, o: Object, permissive: bool)
    requires Fits(c, o, permissive)
    ensures Layoutable(Numbered(o.scns))
  {
    hide ScnAlign, AlignsFit, ScnError, PowerOfTwo, IdealTable;
    var scns := Numbered(o.scns);
    forall i | 1 <= i < |scns|
      ensures AlignsFit(scns[i]) && PowerOfTwo(ScnAlign(scns[i])) && ScnAlign(scns[i]) < TWO32
    {
      assert scns[i] == o.scns[i];
      NoScnError(scns, o.ehdr.relocatable, permissive, i, |scns|);
      ScnAlignFits(scns[i], o.ehdr.relocatable, permissive);
    }
  }

  /** The part of the file that a section takes */
  function FileSize(s: Section): nat {
    if s.shdr.kind.NoBits? then 0 else s.shdr.size
  }

  lemma ScnPlace(c: Format, o: Object, permissive: bool, i: nat)
    requires Fits(c, o, permissive) && 1 <= i < |o.scns|
    ensures |LaidOut(c, o).scns| == |o.scns| && Layoutable(Numbered(o.scns))
    ensures var s', scns, start := LaidOut(c, o).scns[i], Numbered(o.scns), HeaderEnd(c, o);
      && s'.shdr.offset == IdealStart(scns, start, i) && s'.shdr.offset + FileSize(s') == IdealEnd(scns, start, i + 1)
      && s'.shdr.addralign == ScnAlign(scns[i]) && s'.shdr.kind == o.scns[i].shdr.kind
      && (!s'.shdr.kind.NoBits? ==> s'.shdr.size == Contents(o.scns[i]))
  {
    hide ScnAlign, AlignsFit, PowerOfTwo, PlacedScn, LaidOut, Contents, RoundUp, Running, ChangedBefore, FirstError;
    hide Align;
    FitsIsLayoutable(c, o, permissive);
    SmallOffsets(c, o);
    LaidOutLength(c, o);
    var scns, start := Numbered(o.scns), HeaderEnd(c, o);
    PlacedAt(c, o, i);
    PlacedOffset(Running(scns, start, i), ChangedBefore(scns, start, i), scns[i]);
    IdealGrows(scns, start, i + 1, |scns|);
    RoundUpIsLeast(IdealEnd(scns, start, |scns|), TableAlign(c));
  }

  /**
   * The layout: sections are aligned and follow each other and the headers in index order without overlap, those
   * without contents in the file take no space, and the header table comes last.
   */
  lemma LayoutInOrder(c: Format, o: Object, permissive: bool)
    requires Fits(c, o, permissive)
    ensures var o' := LaidOut(c, o);
      && |o'.scns| == |o.scns| && o'.ehdr.shoff % TableAlign(c) == 0
      && TotalSize(c, o) == o'.ehdr.shoff + |o'.scns| * c.shsz && HeaderEnd(c, o) <= o'.ehdr.shoff
      && (forall i :: 1 <= i < |o'.scns| ==>
            && o'.scns[i].shdr.addralign > 0 && o'.scns[i].shdr.offset % o'.scns[i].shdr.addralign == 0
            && HeaderEnd(c, o) <= o'.scns[i].shdr.offset
            && o'.scns[i].shdr.offset + FileSize(o'.scns[i]) <= o'.ehdr.shoff)
      && (forall i, j :: 1 <= i < j < |o'.scns| ==>
            o'.scns[i].shdr.offset + FileSize(o'.scns[i]) <= o'.scns[j].shdr.offset)
  {
    hide ScnAlign, AlignsFit, PowerOfTwo, PlacedScn, LaidOut, Contents, RoundUp, Running, Fits, IdealStart, IdealEnd;
    hide Numbered, FileSize;
    var o', scns, start := LaidOut(c, o), Numbered(o.scns), HeaderEnd(c, o);
    FitsTable(c, o, permissive);
    forall i | 1 <= i < |o'.scns|
      ensures o'.scns[i].shdr.addralign > 0 && o'.scns[i].shdr.offset % o'.scns[i].shdr.addralign == 0
      ensures HeaderEnd(c, o) <= o'.scns[i].shdr.offset
      ensures o'.scns[i].shdr.offset + FileSize(o'.scns[i]) <= o'.ehdr.shoff
    {
      ScnPlace(c, o, permissive, i);
      StartAligned(scns, start, i);
      IdealGrows(scns, start, 1, i);
      IdealGrows(scns, start, i + 1, |scns|);
    }
    forall i, j | 1 <= i < j < |o'.scns|
      ensures o'.scns[i].shdr.offset + FileSize(o'.scns[i]) <= o'.scns[j].shdr.offset
    {
      ScnPlace(c, o, permissive, i);
      ScnPlace(c, o, permissive, j);
      IdealGrows(scns, start, i + 1, j);
      StartAligned(scns, start, j);
    }
  }

  lemma StartAligned(scns: seq<Section>, start: nat, i: nat)
    requires 1 <= i < |scns| && Layoutable(scns)
    ensures ScnAlign(scns[i]) > 0 && IdealStart(scns, start, i) % ScnAlign(scns[i]) == 0
    ensures IdealEnd(scns, start, i) <= IdealStart(scns, start, i) && IdealEnd(scns, start, 1) == start
  {
    hide ScnAlign, AlignsFit, RoundUp;
    RoundUpIsLeast(IdealEnd(scns, start, i), ScnAlign(scns[i]));
  }

  lemma FitsTable(c: Format, o: Object, permissive: bool)
    requires Fits(c, o, permissive)
    ensures var o' := LaidOut(c, o);
      && |o'.scns| == |o.scns| == |Numbered(o.scns)| > 0 && Layoutable(Numbered(o.scns))
      && o'.ehdr.shoff == IdealTable(c, o) && o'.ehdr.shoff % TableAlign(c) == 0
      && HeaderEnd(c, o) <= IdealEnd(Numbered(o.scns), HeaderEnd(c, o), |o.scns|) <= o'.ehdr.shoff
      && TotalSize(c, o) == o'.ehdr.shoff + |o'.scns| * c.shsz
  {
    hide ScnAlign, AlignsFit, PowerOfTwo, PlacedScn, LaidOut, Contents, RoundUp, FirstError, Numbered;
    FitsIsLayoutable(c, o, permissive);
    SmallOffsets(c, o);
    LaidOutLength(c, o);
    IdealGrows(Numbered(o.scns), HeaderEnd(c, o), 1, |o.scns|);
    RoundUpIsLeast(IdealEnd(Numbered(o.scns), HeaderEnd(c, o), |o.scns|), TableAlign(c));
  }

  /**
   * Every data block lies in its section, after those before it, and starts at a file offset that is aligned for it.
   */
  lemma DataAligned(c: Format, o: Object, permissive: bool, i: nat, k: nat)
    requires Fits(c, o, permissive) && 1 <= i < |o.scns| && o.scns[i].listed && k < |o.scns[i].data|
    ensures var s, s' := o.scns[i], LaidOut(c, o).scns[i];
      && s'.listed && |s'.data| == |s.data| && s'.data[k] == s.data[k].(off := s'.data[k].off)
      && (s'.shdr.offset + s'.data[k].off) % s.data[k].align == 0
      && (k == 0 ==> s'.data[0].off == 0)
      && (forall j :: 0 <= j < k ==> s'.data[j].off + s'.data[j].size <= s'.data[k].off)
      && (!s'.shdr.kind.NoBits? ==> s'.data[k].off + s'.data[k].size <= s'.shdr.size)
  {
    hide RoundUp, Running, IdealStart, IdealEnd, PowerOfTwo, DataEnd, DataStart, PlacedScn, LaidOut, ScnAlign;
    hide Contents, Numbered;
    hide FirstError, ScnError, ChangedBefore, Layoutable, TableAlign, IdealTable, Word;
    LaidOutLength(c, o);
    var s, s', scns := o.scns[i], LaidOut(c, o).scns[i], Numbered(o.scns);
    ScnPlace(c, o, permissive, i);
    StartAligned(scns, HeaderEnd(c, o), i);
    SameScn(o, i);
    NoScnError(scns, o.ehdr.relocatable, permissive, i, |scns|);
    ScnAlignFits(s, o.ehdr.relocatable, permissive);
    PlacedAt(c, o, i);
    PlacedListed(Running(scns, HeaderEnd(c, o), i), ChangedBefore(scns, HeaderEnd(c, o), i), s, k);
    forall j | 0 <= j < |s.data|
      ensures s'.data[j] == s.data[j].(off := DataStart(s.data, j))
    {
      PlacedListed(Running(scns, HeaderEnd(c, o), i), ChangedBefore(scns, HeaderEnd(c, o), i), s, j);
    }
    DataInOrder(s.data, k);
    BlockAligned(s'.shdr.offset, ScnAlign(s), s'.data[k].off, s.data[k].align);
    forall j | 0 <= j < k
      ensures s'.data[j].off + s'.data[j].size <= s'.data[k].off
    {
      DataEndGrows(s.data, j + 1, k);
      EndOne(s.data, j);
    }
  }

  lemma SameScn(o: Object, i: nat)
    requires 1 <= i < |o.scns|
    ensures |Numbered(o.scns)| == |o.scns| && Numbered(o.scns)[i] == o.scns[i]
  {}

  lemma BlockAligned(offset: nat, scnAlign: nat, off: nat, align: nat)
    requires align > 0 && scnAlign > 0 && offset % scnAlign == 0 && scnAlign % align == 0 && off % align == 0
    ensures (offset + off) % align == 0
  {
    ModTrans(offset, scnAlign, align);
    SumMod(offset, off, align);
  }

  lemma PlacedListed(size: nat, changed: bool, s: Section, j: nat)
    requires s.listed && j < |s.data|
    ensures var s' := PlacedScn(size, changed, s);
      s'.listed && |s'.data| == |s.data| && s'.data[j] == s.data[j].(off := DataStart(s.data, j))
    ensures Contents(s) == DataEnd(s.data, |s.data|)
  {}

  lemma EndOne(data: seq<Data>, j: nat)
    requires j < |data|
    ensures DataEnd(data, j + 1) == DataStart(data, j) + data[j].size
  {}
}
