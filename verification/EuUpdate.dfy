/** From layout to file: what updatenull lays out, the writers can write. */
module EuUpdate {
  import opened Memory
  import opened EuObject
  import opened EuLayout
  import opened EuLayoutFacts
  import EuImage
  import EuTheorems

  /** The bytes of all blocks are at hand, in memory or in the mapping behind the headers. */
  ghost predicate Supplied(c: Format, o: Object, length: nat) {
    && Indexed(o.scns) && c.Valid() && (|o.scns| > 0 ==> !o.scns[0].dirty)
    && forall i :: 0 <= i < |o.scns| ==> ScnSupplied(o.scns[i], HeaderEnd(c, o), length)
  }

  ghost predicate ScnSupplied(s: Section, low: nat, high: nat) {
    if s.listed then
      |s.data| > 0 && forall k :: 0 <= k < |s.data| ==> EuImage.BufOk(s.data[k], k == 0, low, high)
    else s.raw.off == 0 && EuImage.BufOk(s.raw, true, low, high)
  }

  lemma PlacedSupplied(size: nat, changed: bool, s: Section, low: nat, high: nat)
    requires ScnSupplied(s, low, high) && AlignsFit(s)
    requires Word(Contents(s)) == Contents(s)
    ensures EuImage.ScnOk(PlacedScn(size, changed, s), low, high)
  {
    hide ScnStart, ScnAlign, Entsize, DataEnd, DataStart, Word, EuImage.BufOk;
    var s' := PlacedScn(size, changed, s);
    if s.listed {
      forall k | 0 <= k < |s.data|
        ensures s'.data[k] == s.data[k].(off := DataStart(s.data, k))
        ensures s'.data[k].off + s'.data[k].size <= s'.shdr.size
        ensures EuImage.BufOk(s'.data[k], k == 0, low, high) && (k == 0 ==> s'.data[k].off == 0)
      {
        DataInOrder(s.data, k);
        MovedBufOk(s.data[k], DataStart(s.data, k), k == 0, low, high);
      }
      forall j, k | 0 <= j < k < |s.data|
        ensures s'.data[j].off + s'.data[j].size <= s'.data[k].off
      {
        DataInOrder(s.data, k);
        DataEndGrows(s.data, j + 1, k);
        EndOne(s.data, j);
      }
    }
  }

  lemma MovedBufOk(d: Data, off: nat, first: bool, low: nat, high: nat)
    requires EuImage.BufOk(d, first, low, high)
    ensures EuImage.BufOk(d.(off := off), first, low, high)
  {}

  /** A laid-out object can be written to any file that its size fits. */
  lemma LayoutIsWritable(c: Format, o: Object, permissive: bool, length: nat)
    requires Fits(c, o, permissive) && Supplied(c, o, length) && TotalSize(c, o) <= length
    ensures EuImage.Writable(c, LaidOut(c, o), length)
    ensures EuTheorems.FileEnd(c, LaidOut(c, o)) == TotalSize(c, o)
  {
    hide EuImage.ScnOk, ScnSupplied, Fits, EuImage.Apart, LaidOut, EuImage.TableSize, TotalSize, Format.Valid;
    hide EuImage.Occupies, FileSize, HeaderEnd, EuImage.HeadEnd;
    var o' := LaidOut(c, o);
    LayoutInOrder(c, o, permissive);
    HasScns(c, o, permissive);
    LaidOutHeader(c, o);
    FirstScn(c, o);
    TotalIsEnd(c, o);
    forall i | 0 <= i < |o'.scns|
      ensures o'.scns[i].ndx == i && (EuImage.Occupies(o'.scns[i]) ==> i > 0)
      ensures EuImage.Occupies(o'.scns[i]) ==>
        EuImage.ScnOk(o'.scns[i], EuImage.HeadEnd(c, o'), length) && FileSize(o'.scns[i]) == o'.scns[i].shdr.size
    {
      if i > 0 {
        LaidOutScn(c, o, permissive, length, i);
      } else {
        ZeroIsIdle(o'.scns[0]);
      }
    }
    forall i, j | 0 <= i < j < |o'.scns| && EuImage.Occupies(o'.scns[i]) && EuImage.Occupies(o'.scns[j])
      ensures EuImage.Apart(o'.scns[i].shdr, o'.scns[j].shdr)
    {
      ApartFrom(o'.scns[i].shdr, o'.scns[j].shdr);
    }
  }

  lemma ZeroIsIdle(s: Section)
    ensures s.ndx == 0 ==> !EuImage.Occupies(s)
  {}

  lemma HasScns(c: Format, o: Object, permissive: bool)
    requires Fits(c, o, permissive)
    ensures |o.scns| > 0
  {}

  lemma TotalIsEnd(c: Format, o: Object)
    requires |o.scns| > 0 && |LaidOut(c, o).scns| == |o.scns|
    requires TotalSize(c, o) == LaidOut(c, o).ehdr.shoff + |o.scns| * c.shsz
    ensures TotalSize(c, o) == LaidOut(c, o).ehdr.shoff + EuImage.TableSize(c, |o.scns|)
    ensures EuTheorems.FileEnd(c, LaidOut(c, o)) == TotalSize(c, o)
  {
    hide LaidOut, TotalSize;
  }

  lemma ApartFrom(s: Shdr, t: Shdr)
    requires s.offset + s.size <= t.offset
    ensures EuImage.Apart(s, t)
  {}

  lemma LaidOutHeader(c: Format, o: Object)
    requires |o.scns| > 0
    ensures var o' := LaidOut(c, o);
      && o'.ehdr.ehsize == c.ehsz && o'.ehdr.shentsize == c.shsz && o'.phdr == o.phdr
      && o'.ehdr.phoff == (if o.phdr.Some? then c.ehsz else 0) && c.ehsz <= HeaderEnd(c, o)
      && EuImage.HeadEnd(c, o') == HeaderEnd(c, o)
  {}

  lemma FirstScn(c: Format, o: Object)
    requires |o.scns| > 0
    ensures LaidOut(c, o).scns[0].ndx == o.scns[0].ndx && LaidOut(c, o).scns[0].dirty == o.scns[0].dirty
  {}

  lemma LaidOutScn(c: Format, o: Object, permissive: bool, length: nat, i: nat)
    requires Fits(c, o, permissive) && Supplied(c, o, length) && 1 <= i < |o.scns|
    ensures |LaidOut(c, o).scns| == |o.scns| && LaidOut(c, o).scns[i].ndx == i
    ensures var s' := LaidOut(c, o).scns[i];
      EuImage.Occupies(s') ==>
        EuImage.ScnOk(s', EuImage.HeadEnd(c, LaidOut(c, o)), length) && FileSize(s') == s'.shdr.size
  {
    hide PlacedScn, EuImage.ScnOk, ScnSupplied, EuImage.BufOk, AlignsFit, LaidOut, Contents, IdealTable, IdealStart;
    hide IdealEnd, Running;
    ScnPlace(c, o, permissive, i);
    PlacedAt(c, o, i);
    SameScn(o, i);
    LaidOutHeader(c, o);
    var size := Running(Numbered(o.scns), HeaderEnd(c, o), i);
    var changed := ChangedBefore(Numbered(o.scns), HeaderEnd(c, o), i);
    PlacedOffset(size, changed, o.scns[i]);
    PlacedIndex(size, changed, o.scns[i]);
    if !LaidOut(c, o).scns[i].shdr.kind.NoBits? {
      PlacedSupplied(size, changed, o.scns[i], HeaderEnd(c, o), length);
    }
  }

  lemma PlacedIndex(size: nat, changed: bool, s: Section)
    ensures PlacedScn(size, changed, s).ndx == s.ndx
  {}

  lemma ListedIsCovered(o: Object)
    requires forall i :: 0 <= i < |o.scns| && EuImage.Occupies(o.scns[i]) ==> o.scns[i].listed
    ensures EuTheorems.Covered(o)
  {
    EuImage.SortedKeys(o.scns);
    hide EuImage.Sorted, EuImage.Occupies;
  }

  lemma StaysListed(c: Format, o: Object, i: nat)
    requires i < |o.scns| && (i > 0 ==> o.scns[i].listed)
    ensures |LaidOut(c, o).scns| == |o.scns| && (i > 0 ==> LaidOut(c, o).scns[i].listed)
  {
    hide ScnStart, Word, ScnAlign, Contents, Running, ChangedBefore;
  }

  /** If every section has been read, none misses its gap. */
  lemma ReadIsCovered(c: Format, o: Object, permissive: bool, length: nat)
    requires Fits(c, o, permissive) && Supplied(c, o, length) && TotalSize(c, o) <= length
    requires forall i :: 1 <= i < |o.scns| ==> o.scns[i].listed
    ensures EuTheorems.Covered(LaidOut(c, o))
  {
    hide Fits, Supplied, LaidOut, EuImage.Writable, TotalSize, EuTheorems.Covered;
    LayoutIsWritable(c, o, permissive, length);
    LaidOutLength(c, o);
    var o' := LaidOut(c, o);
    IndexedLaidOut(c, o');
    forall i | 0 <= i < |o'.scns| && EuImage.Occupies(o'.scns[i])
      ensures o'.scns[i].listed
    {
      StaysListed(c, o, i);
    }
    ListedIsCovered(o');
  }

  /**
   * Layout and writing together, with everything dirty: an object laid out by updatenull and written by either writer
   * is the image of the laid-out object, of exactly the size it was given, if no gap between two sections that were not
   * read is missed; and only then whatever the file held before.
   */
  lemma LaidOutImage(c: Format, o: Object, permissive: bool, v: EuImage.Env)
    requires Fits(c, o, permissive) && Supplied(c, o, |v.orig|) && TotalSize(c, o) <= |v.orig| && v.dirty
    ensures EuImage.Writable(c, LaidOut(c, o), |v.orig|)
    ensures EuTheorems.FileEnd(c, LaidOut(c, o)) == TotalSize(c, o)
    ensures EuTheorems.Covered(LaidOut(c, o)) ==>
      EuTheorems.IsImage(c, LaidOut(c, o), v.orig, v.fill, EuImage.FileOut(v, c, LaidOut(c, o)))
    ensures EuTheorems.Covered(LaidOut(c, o)) <==>
      forall orig: seq<byte> :: |orig| == |v.orig| ==>
        EuTheorems.IsImage(c, LaidOut(c, o), orig, v.fill, EuImage.FileOut(v.(orig := orig), c, LaidOut(c, o)))
  {
    hide Fits, Supplied, LaidOut, EuImage.Writable, EuTheorems.IsImage, EuImage.FileOut, TotalSize, EuTheorems.Covered;
    LayoutIsWritable(c, o, permissive, |v.orig|);
    if EuTheorems.Covered(LaidOut(c, o)) {
      EuTheorems.DirtyWritesImage(v, c, LaidOut(c, o));
    }
    EuTheorems.CoveredIff(v, c, LaidOut(c, o));
  }

  lemma IndexedLaidOut(c: Format, o: Object)
    ensures forall length :: EuImage.Writable(c, o, length) ==>
      forall i :: 0 <= i < |o.scns| && EuImage.Occupies(o.scns[i]) ==> i > 0
  {}
}
