/** Writing when nothing is dirty: what each of elfutils' two writers does to a file that is up to date. */
module EuClean {
  import opened Memory
  import opened Options
  import opened EuObject
  import opened EuImage
  import opened EuImageFacts
  import opened EuTheorems
  import opened EuPlaces

  ghost predicate CleanScn(s: Section) {
    !s.dirty && !s.shdrDirty && forall k :: 0 <= k < |s.data| ==> !s.data[k].dirty
  }

  ghost predicate IsClean(o: Object) {
    !o.ehdrDirty && !o.phdrDirty && forall i :: 0 <= i < |o.scns| ==> CleanScn(o.scns[i])
  }

  /** So far the output is what the file held. */
  predicate IsOld(v: Env, out: seq<byte>) {
    |out| <= |v.orig| && out == v.orig[..|out|]
  }

  /** What the file holds between two positions is fill. */
  predicate Filled(v: Env, from: nat, to: nat) {
    from < to <= |v.orig| ==> v.orig[from..to] == Repeat(v.fill, to - from)
  }

  /** The gap in front of section `n`, if it has a data list, holds fill bytes. */
  predicate GapFilled(v: Env, c: Format, o: Object, order: seq<Key>, n: nat)
    requires n < |order| && forall i :: 0 <= i < |order| ==> order[i].ndx < |o.scns|
  {
    var s := o.scns[order[n].ndx];
    Occupies(s) && s.listed ==> Filled(v, EndBefore(c, o, order, n), s.shdr.offset)
  }

  ghost predicate GapsFilled(v: Env, c: Format, o: Object) {
    SortedKeys(o.scns);
    forall n :: 0 <= n < |o.scns| ==> GapFilled(v, c, o, Sorted(o.scns), n)
  }

  // ----- one gap, one block, one section

  /** Filling a gap keeps the file as it was exactly if it was filled before. */
  lemma GapOldIff(v: Env, out: seq<byte>, to: nat, filled: bool)
    requires |out| <= to <= |v.orig|
    ensures IsOld(v, Gap(v, out, to, filled)) <==> IsOld(v, out) && (!filled || Filled(v, |out|, to))
  {
    var gap, from := Gap(v, out, to, filled), |out|;
    assert |gap| == to && gap[..from] == out;
    assert gap[from..] == if filled then Repeat(v.fill, to - from) else v.orig[from..to];
    assert v.orig[..to] == v.orig[..from] + v.orig[from..to];
    assert gap == gap[..from] + gap[from..];
    assert v.orig[..to][..from] == v.orig[..from] && v.orig[..to][from..] == v.orig[from..to];
  }

  lemma BlockOldIff(v: Env, out: seq<byte>, bytes: seq<byte>, n: nat)
    requires |out| + n <= |v.orig|
    ensures |Block(v, out, bytes, n, false)| == |out| + n
    ensures IsOld(v, Block(v, out, bytes, n, false)) <==> IsOld(v, out)
  {
    assert Block(v, out, bytes, n, false) == Gap(v, out, |out| + n, false);
    GapOldIff(v, out, |out| + n, false);
  }

  /** The first block decides: the others have no gap that would be filled. */
  lemma {:induction false} DataOldIff(v: Env, s: Section, n: nat, low: nat, out: seq<byte>)
    requires !v.dirty && CleanScn(s) && s.listed && ScnOk(s, low, |v.orig|) && 0 < n <= |s.data|
    requires |out| <= s.shdr.offset && s.shdr.offset + s.shdr.size <= |v.orig|
    ensures IsOld(v, DataOut(v, s, n, out, false)) <==>
      IsOld(v, out) && (!v.mapped || Filled(v, |out|, s.shdr.offset))
    ensures !ScnWritten(v, s, n)
  {
    hide ScnOk, BufOk, Source, IsOld, Filled, Gap, Block;
    var d, before := s.data[n - 1], DataOut(v, s, n - 1, out, false);
    var at, fills := s.shdr.offset + d.off, FillsGap(v, s, d, false);
    BlockFits(s, n - 1, low, |v.orig|);
    DataOutLength(v, s, n - 1, low, out, false);
    if n > 1 {
      DataOldIff(v, s, n - 1, low, out);
    }
    GapOldIff(v, before, at, fills);
    BlockOldIff(v, Gap(v, before, at, fills), Source(d, v.orig), d.size);
    NoGap(v, at);
  }

  lemma NoGap(v: Env, at: nat)
    ensures Filled(v, at, at)
  {}

  /** A section that takes space in the file. */
  lemma ScnOldIff(v: Env, s: Section, low: nat, out: seq<byte>)
    requires !v.dirty && CleanScn(s) && Occupies(s) && ScnOk(s, low, |v.orig|)
    requires |out| <= s.shdr.offset && s.shdr.offset + s.shdr.size <= |v.orig|
    ensures var st := ScnOut(v, s, State(out, false));
      && |st.out| == ScnEnd(s) && !st.prev
      && (IsOld(v, st.out) <==> IsOld(v, out) && (v.mapped && s.listed ==> Filled(v, |out|, s.shdr.offset)))
  {
    hide ScnOk, IsOld, Filled, Gap, DataOut, ScnWritten;
    if s.listed {
      ListedNotEmpty(s, low, |v.orig|);
      DataOutLength(v, s, |s.data|, low, out, false);
      DataOldIff(v, s, |s.data|, low, out);
    } else {
      var gap := Gap(v, out, s.shdr.offset, false);
      GapOldIff(v, out, s.shdr.offset, false);
      GapOldIff(v, gap, s.shdr.offset + s.shdr.size, false);
    }
  }

  // ----- the whole file

  lemma CleanOne(o: Object, i: nat)
    requires IsClean(o) && i < |o.scns|
    ensures CleanScn(o.scns[i])
  {}

  lemma {:induction false} ScnsOldIff(v: Env, c: Format, o: Object, n: nat, st: State)
    requires Writable(c, o, |v.orig|) && !v.dirty && IsClean(o) && n <= |o.scns|
    requires |st.out| == HeadEnd(c, o) && !st.prev
    requires |Sorted(o.scns)| == |o.scns| && forall i :: 0 <= i < |o.scns| ==> Sorted(o.scns)[i].ndx < |o.scns|
    ensures var after := ScnsOut(v, o.scns, Sorted(o.scns), n, st);
      && |after.out| == EndBefore(c, o, Sorted(o.scns), n) && !after.prev
      && (IsOld(v, after.out) <==>
            IsOld(v, st.out) && (v.mapped ==> forall j :: 0 <= j < n ==> GapFilled(v, c, o, Sorted(o.scns), j)))
  {
    hide Sorted, ScnOk, Writable, IsClean, CleanScn, ScnOut, ScnEnd, IsOld, Filled;
    if n > 0 {
      ScnsOldIff(v, c, o, n - 1, st);
      var ndx := Sorted(o.scns)[n - 1].ndx;
      var s, before := o.scns[ndx], ScnsOut(v, o.scns, Sorted(o.scns), n - 1, st);
      if Occupies(s) {
        CleanOne(o, ndx);
        ScnsOutLength(v, c, o, n - 1, st);
        WritableScn(c, o, |v.orig|, ndx);
        ScnOldIff(v, s, HeadEnd(c, o), before.out);
        assert before == State(before.out, false);
        assert GapFilled(v, c, o, Sorted(o.scns), n - 1) <==> (s.listed ==> Filled(v, |before.out|, s.shdr.offset));
        ScnsOne(v, o.scns, Sorted(o.scns), n - 1, st);
      } else {
        SkippedScn(v, s, before);
      }
    }
  }

  lemma HeadIsOld(v: Env, c: Format, o: Object)
    requires Writable(c, o, |v.orig|) && !v.dirty && IsClean(o)
    ensures IsOld(v, HeadOut(v, c, o).out) && !HeadOut(v, c, o).prev && |HeadOut(v, c, o).out| == HeadEnd(c, o)
  {
    hide ScnOk, TableSize, IsOld, Gap, Block, CleanScn, Apart;
    HeadOutLength(v, c, o);
    NothingIsOld(v);
    BlockOldIff(v, [], EhdrBytes(c, o.ehdr), c.ehsz);
    if o.phdr.Some? {
      GapOldIff(v, EhdrOut(v, c, o), o.ehdr.phoff, false);
      BlockOldIff(v, Gap(v, EhdrOut(v, c, o), o.ehdr.phoff, false), o.phdr.value, |o.phdr.value|);
    }
  }

  lemma NothingIsOld(v: Env)
    ensures IsOld(v, [])
  {}

  lemma {:induction false} TableOldIff(v: Env, c: Format, o: Object, n: nat, out: seq<byte>)
    requires !v.dirty && IsClean(o) && n <= |o.scns| && |out| + TableSize(c, n) <= |v.orig|
    ensures |TableOut(v, c, o.scns, n, out)| == |out| + TableSize(c, n)
    ensures IsOld(v, TableOut(v, c, o.scns, n, out)) <==> IsOld(v, out)
  {
    hide TableSize, IsOld, Block, EntryBytes;
    TableSizes(c, 0);
    if n > 0 {
      TableSizes(c, n - 1);
      TableOldIff(v, c, o, n - 1, out);
      BlockOldIff(v, TableOut(v, c, o.scns, n - 1, out), EntryBytes(v, c, o.scns, n - 1), c.shsz);
    }
  }

  /**
   * With nothing dirty a writer leaves the file as it was, always through a descriptor, in place if gaps are filled.
   */
  lemma CleanOldIff(v: Env, c: Format, o: Object)
    requires Writable(c, o, |v.orig|) && !v.dirty && IsClean(o)
    ensures |FileOut(v, c, o)| == FileEnd(c, o)
    ensures IsOld(v, FileOut(v, c, o)) <==> !v.mapped || GapsFilled(v, c, o)
  {
    hide ScnOk, TableSize, Apart, Sorted, ScnsOut, TableOut, HeadOut, Gap, Writable, IsOld, GapFilled, IsClean;
    HeadIsOld(v, c, o);
    if |o.scns| > 0 {
      SortedKeys(o.scns);
      var head := HeadOut(v, c, o);
      ScnsOldIff(v, c, o, |o.scns|, head);
      ScnsOutLength(v, c, o, |o.scns|, head);
      WritableEnd(c, o, |v.orig|);
      var out := ScnsOut(v, o.scns, Sorted(o.scns), |o.scns|, head).out;
      GapOldIff(v, out, o.ehdr.shoff, false);
      GapEmpty(v, out, o.ehdr.shoff, false);
      TableOldIff(v, c, o, |o.scns|, Gap(v, out, o.ehdr.shoff, false));
    }
  }

  /**
   * Both writers leave a file alone when nothing is dirty, and so agree, exactly if each gap in front of a section with
   * a data list already holds fill bytes: the mapped writer fills it in any case, the other one never does.
   */
  lemma CleanWritersAgreeIff(v: Env, v': Env, c: Format, o: Object)
    requires v == v'.(mapped := true) && !v'.mapped && !v.dirty
    requires Writable(c, o, |v.orig|) && IsClean(o)
    ensures IsOld(v', FileOut(v', c, o))
    ensures FileOut(v, c, o) == FileOut(v', c, o) <==> GapsFilled(v, c, o)
  {
    hide Writable, IsClean, FileOut, GapsFilled;
    CleanOldIff(v, c, o);
    CleanOldIff(v', c, o);
  }

  // ----- an input

  /** A section zero, and one byte of contents after a gap of four bytes. */
  function Gapped(): Object {
    var byte1 := Data(0, 1, 1, 1, Heap([1]), false);
    var zero := Section(0, Shdr(Other, 0, 0, 0, 0, 0), None, false, [], byte1, false, false);
    var text := Section(1, Shdr(Other, 56, 1, 1, 0, 0), None, true, [byte1], byte1, false, false);
    Object(Ehdr(true, 0, 60, 2, 52, 40, 0), false, None, false, [zero, text], false)
  }

  /** Nothing is dirty, and the gap holds other bytes than fill: only the mapped writer changes the file. */
  lemma GapDiffers(v: Env, v': Env)
    requires v == v'.(mapped := true) && !v'.mapped && !v.dirty && |v.orig| == 140 && v.orig[52] != v.fill
    ensures Writable(Elf32(), Gapped(), 140) && IsClean(Gapped())
    ensures FileOut(v, Elf32(), Gapped()) != FileOut(v', Elf32(), Gapped())
  {
    hide Writable, FileOut, IsClean, GapsFilled, Gapped;
    GappedWritable();
    CleanWritersAgreeIff(v, v', Elf32(), Gapped());
    GapIsThere(v);
  }

  lemma GapIsThere(v: Env)
    requires |v.orig| == 140 && v.orig[52] != v.fill
    ensures !GapsFilled(v, Elf32(), Gapped())
  {
    hide Sorted;
    var o := Gapped();
    var n := OrderPosition(o.scns, 1);
    SortedKeys(o.scns);
    NoOccupier(o.scns, Sorted(o.scns), n);
    assert v.orig[52..56][0] != Repeat(v.fill, 4)[0];
    assert !GapFilled(v, Elf32(), o, Sorted(o.scns), n);
  }

  lemma GappedWritable()
    ensures Writable(Elf32(), Gapped(), 140) && IsClean(Gapped())
  {
    assert TableSize(Elf32(), 2) == 80;
  }

  lemma {:induction false} NoOccupier(scns: seq<Section>, order: seq<Key>, n: nat)
    requires n <= |order| && forall i :: 0 <= i < |order| ==> order[i].ndx < |scns|
    requires forall i :: 0 <= i < n ==> !Occupies(scns[order[i].ndx])
    ensures LastOccupier(scns, order, n).None?
  {
    if n > 0 {
      NoOccupier(scns, order, n - 1);
    }
  }
}
