/**
 * What the file of elfutils' writers means: every part is in its place, sections that were not read are as they were,
 * and everything else is fill.
 */
module EuTheorems {
  import opened Memory
  import opened Options
  import opened EuObject
  import opened EuImage
  import opened EuImageFacts

  // ----- the image

  function FileEnd(c: Format, o: Object): nat {
    if |o.scns| == 0 then HeadEnd(c, o) else o.ehdr.shoff + TableSize(c, |o.scns|)
  }

  /** The blocks that make up the contents of a section: its data blocks, or all that is in the file. */
  function Blocks(s: Section): nat {
    if s.listed then |s.data| else 1
  }

  function BlockStart(s: Section, k: nat): nat
    requires k < Blocks(s)
  {
    if s.listed then s.shdr.offset + s.data[k].off else s.shdr.offset
  }

  function BlockSize(s: Section, k: nat): nat
    requires k < Blocks(s)
  {
    if s.listed then s.data[k].size else s.shdr.size
  }

  function BlockBytes(s: Section, k: nat, orig: seq<byte>): seq<byte>
    requires k < Blocks(s)
  {
    if s.listed then Source(s.data[k], orig) else Part(orig, s.shdr.offset, s.shdr.offset + s.shdr.size)
  }

  /** Position `p` belongs to block `k` of section `i`. */
  predicate InBlock(o: Object, i: nat, k: nat, p: nat) {
    && i < |o.scns| && Occupies(o.scns[i]) && k < Blocks(o.scns[i])
    && BlockStart(o.scns[i], k) <= p < BlockStart(o.scns[i], k) + BlockSize(o.scns[i], k)
  }

  predicate InPhdr(o: Object, p: nat) {
    o.phdr.Some? && o.ehdr.phoff <= p < o.ehdr.phoff + |o.phdr.value|
  }

  predicate InEntry(c: Format, o: Object, i: nat, p: nat) {
    i < |o.scns| && o.ehdr.shoff + TableSize(c, i) <= p < o.ehdr.shoff + TableSize(c, i) + c.shsz
  }

  ghost predicate InNothing(c: Format, o: Object, p: nat) {
    && c.ehsz <= p && !InPhdr(o, p)
    && (forall i: nat, k: nat :: !InBlock(o, i, k, p)) && (forall i: nat :: !InEntry(c, o, i, p))
  }

  /** `b` is the byte that belongs at position `p`. */
  ghost predicate Right(c: Format, o: Object, orig: seq<byte>, fill: byte, p: nat, b: byte) {
    && (p < c.ehsz && c.ehsz == |EhdrBytes(c, o.ehdr)| ==> b == EhdrBytes(c, o.ehdr)[p])
    && (InPhdr(o, p) ==> b == o.phdr.value[p - o.ehdr.phoff])
    && (forall i: nat, k: nat ::
          InBlock(o, i, k, p) && |BlockBytes(o.scns[i], k, orig)| == BlockSize(o.scns[i], k) ==>
            b == BlockBytes(o.scns[i], k, orig)[p - BlockStart(o.scns[i], k)])
    && (forall i: nat :: InEntry(c, o, i, p) && |ShdrBytes(c, o.scns[i].shdr)| == c.shsz ==>
          b == ShdrBytes(c, o.scns[i].shdr)[p - o.ehdr.shoff - TableSize(c, i)])
    && (InNothing(c, o, p) ==> b == fill)
  }

  /** Headers, contents and table in their places, fill bytes elsewhere. */
  ghost predicate IsImage(c: Format, o: Object, orig: seq<byte>, fill: byte, image: seq<byte>) {
    |image| == FileEnd(c, o) && forall p :: 0 <= p < |image| ==> Right(c, o, orig, fill, p, image[p])
  }

  /** There is only one such image. */
  lemma ImageUnique(c: Format, o: Object, orig: seq<byte>, fill: byte, a: seq<byte>, b: seq<byte>)
    requires Writable(c, o, |orig|) && IsImage(c, o, orig, fill, a) && IsImage(c, o, orig, fill, b)
    ensures a == b
  {
    hide TableSize;
    forall p | 0 <= p < |a|
      ensures a[p] == b[p]
    {
      assert Right(c, o, orig, fill, p, a[p]) && Right(c, o, orig, fill, p, b[p]);
      OneRight(c, o, orig, fill, p, a[p], b[p]);
    }
  }

  lemma OneRight(c: Format, o: Object, orig: seq<byte>, fill: byte, p: nat, a: byte, b: byte)
    requires Writable(c, o, |orig|) && Right(c, o, orig, fill, p, a) && Right(c, o, orig, fill, p, b)
    ensures a == b
  {
    hide TableSize, BlockBytes, InPhdr, Apart;
    if i: nat, k: nat :| InBlock(o, i, k, p) {
      BytesSize(c, o, orig, i, k, p);
    } else if i: nat :| InEntry(c, o, i, p) {
      assert |ShdrBytes(c, o.scns[i].shdr)| == c.shsz;
    } else {
      assert |EhdrBytes(c, o.ehdr)| == c.ehsz;
    }
  }

  // ----- where positions are

  lemma BlockBounds(c: Format, o: Object, length: nat, i: nat, k: nat, p: nat)
    requires Writable(c, o, length) && InBlock(o, i, k, p)
    ensures HeadEnd(c, o) <= o.scns[i].shdr.offset <= p < o.scns[i].shdr.offset + o.scns[i].shdr.size <= o.ehdr.shoff
  {
    WritableScn(c, o, length, i);
    if o.scns[i].listed {
      BlockFits(o.scns[i], k, HeadEnd(c, o), length);
    }
  }

  lemma BytesSize(c: Format, o: Object, orig: seq<byte>, i: nat, k: nat, p: nat)
    requires Writable(c, o, |orig|) && InBlock(o, i, k, p)
    ensures |BlockBytes(o.scns[i], k, orig)| == BlockSize(o.scns[i], k)
  {
    hide Source;
    WritableScn(c, o, |orig|, i);
    if o.scns[i].listed {
      BlockFits(o.scns[i], k, HeadEnd(c, o), |orig|);
      SourceSize(o.scns[i].data[k], k == 0, HeadEnd(c, o), orig);
    }
  }

  lemma EarlierBlock(s: Section, j: nat, k: nat, low: nat, high: nat)
    requires ScnOk(s, low, high) && j < k < Blocks(s)
    ensures BlockStart(s, j) + BlockSize(s, j) <= BlockStart(s, k)
  {}

  lemma BlockEnds(s: Section, k: nat, low: nat, high: nat)
    requires s.listed && ScnOk(s, low, high) && k < |s.data|
    ensures BlockStart(s, k) + s.data[k].size <= BlockStart(s, |s.data| - 1) + s.data[|s.data| - 1].size
  {
    if k < |s.data| - 1 {
      EarlierBlock(s, k, |s.data| - 1, low, high);
    }
  }

  lemma StepLength(v: Env, c: Format, o: Object, n: nat, st: State)
    requires Writable(c, o, |v.orig|) && n < |o.scns| && |st.out| == HeadEnd(c, o)
    requires |Sorted(o.scns)| == |o.scns| && forall i :: 0 <= i < |o.scns| ==> Sorted(o.scns)[i].ndx < |o.scns|
    ensures |ScnsOut(v, o.scns, Sorted(o.scns), n, st).out| <= |ScnsOut(v, o.scns, Sorted(o.scns), n + 1, st).out|
  {
    hide Sorted, ScnOut, ScnOk, Occupies, Writable;
    ScnsOutLength(v, c, o, n, st);
    var s, before := o.scns[Sorted(o.scns)[n].ndx], ScnsOut(v, o.scns, Sorted(o.scns), n, st);
    if Occupies(s) {
      WritableScn(c, o, |v.orig|, Sorted(o.scns)[n].ndx);
      ScnOutLength(v, s, HeadEnd(c, o), before);
    } else {
      SkippedScn(v, s, before);
    }
  }

  /** The blocks of sections that have been dealt with lie in the output. */
  lemma {:induction false} DoneEnds(v: Env, c: Format, o: Object, j: nat, n: nat, st: State, k: nat)
    requires Writable(c, o, |v.orig|) && j < n <= |o.scns| && |st.out| == HeadEnd(c, o)
    requires |Sorted(o.scns)| == |o.scns| && forall i :: 0 <= i < |o.scns| ==> Sorted(o.scns)[i].ndx < |o.scns|
    requires var s := o.scns[Sorted(o.scns)[j].ndx]; Occupies(s) && k < Blocks(s)
    ensures var s := o.scns[Sorted(o.scns)[j].ndx];
      BlockStart(s, k) + BlockSize(s, k) <= |ScnsOut(v, o.scns, Sorted(o.scns), n, st).out|
    decreases n
  {
    hide Sorted, ScnOk, Writable, DataOut, ScnWritten;
    if j < n - 1 {
      DoneEnds(v, c, o, j, n - 1, st, k);
      StepLength(v, c, o, n - 1, st);
    } else {
      var ndx := Sorted(o.scns)[j].ndx;
      var s, before := o.scns[ndx], ScnsOut(v, o.scns, Sorted(o.scns), j, st);
      ScnsOutLength(v, c, o, j, st);
      WritableScn(c, o, |v.orig|, ndx);
      if s.listed {
        DataOutLength(v, s, |s.data|, HeadEnd(c, o), before.out, before.prev);
        BlockEnds(s, k, HeadEnd(c, o), |v.orig|);
      } else {
        GapEmpty(v, before.out, s.shdr.offset, before.prev);
        GapEmpty(v, Gap(v, before.out, s.shdr.offset, before.prev), s.shdr.offset + s.shdr.size, false);
      }
    }
  }

  /** From the end of the output to the end of the next section, there are only blocks of that section. */
  lemma OnlyThis(v: Env, c: Format, o: Object, n: nat, st: State, i: nat, k: nat, p: nat)
    requires Writable(c, o, |v.orig|) && n < |o.scns| && |st.out| == HeadEnd(c, o)
    requires |Sorted(o.scns)| == |o.scns| && forall i :: 0 <= i < |o.scns| ==> Sorted(o.scns)[i].ndx < |o.scns|
    requires var s := o.scns[Sorted(o.scns)[n].ndx];
      Occupies(s) && |ScnsOut(v, o.scns, Sorted(o.scns), n, st).out| <= p < s.shdr.offset + s.shdr.size
    requires InBlock(o, i, k, p)
    ensures i == Sorted(o.scns)[n].ndx
  {
    hide Sorted, ScnOk, Writable, ScnsOut;
    AllDone(o.scns);
    BlockBounds(c, o, |v.orig|, i, k, p);
    assert Done(Sorted(o.scns), |o.scns|, i);
    var j :| 0 <= j < |o.scns| && Sorted(o.scns)[j].ndx == i;
    if j < n {
      DoneEnds(v, c, o, j, n, st, k);
    } else if j > n {
      Ascending(c, o, |v.orig|, n, j);
    }
  }

  // ----- the output is right as far as it goes

  ghost predicate RightUpTo(c: Format, o: Object, orig: seq<byte>, fill: byte, out: seq<byte>) {
    forall p :: 0 <= p < |out| ==> Right(c, o, orig, fill, p, out[p])
  }

  /** More of the output is right if what has been added is. */
  lemma RightExtends(c: Format, o: Object, orig: seq<byte>, fill: byte, out: seq<byte>, more: seq<byte>)
    requires RightUpTo(c, o, orig, fill, out) && out <= more
    requires forall p :: |out| <= p < |more| ==> Right(c, o, orig, fill, p, more[p])
    ensures RightUpTo(c, o, orig, fill, more)
  {
    hide Right;
    forall p | 0 <= p < |more|
      ensures Right(c, o, orig, fill, p, more[p])
    {
      assert p < |out| ==> out[p] == more[p];
    }
  }

  lemma GapExtends(c: Format, o: Object, v: Env, out: seq<byte>, to: nat)
    requires RightUpTo(c, o, v.orig, v.fill, out) && |out| <= to <= |v.orig|
    requires forall p :: |out| <= p < to ==> Right(c, o, v.orig, v.fill, p, v.fill)
    ensures RightUpTo(c, o, v.orig, v.fill, Gap(v, out, to, true))
  {
    hide Right;
    RightExtends(c, o, v.orig, v.fill, out, Gap(v, out, to, true));
  }

  /** A position between the headers and the table that is in no block takes the fill byte. */
  lemma FillIsRight(c: Format, o: Object, orig: seq<byte>, fill: byte, p: nat)
    requires Writable(c, o, |orig|) && HeadEnd(c, o) <= p && (|o.scns| > 0 ==> p < o.ehdr.shoff)
    requires forall i: nat, k: nat :: !InBlock(o, i, k, p)
    ensures Right(c, o, orig, fill, p, fill)
  {
    hide TableSize, InBlock;
  }

  /** A position in a block takes the block's byte. */
  lemma BlockIsRight(c: Format, o: Object, orig: seq<byte>, fill: byte, i: nat, k: nat, p: nat)
    requires Writable(c, o, |orig|) && InBlock(o, i, k, p)
    requires forall i': nat, k': nat :: InBlock(o, i', k', p) ==> i' == i && k' == k
    ensures |BlockBytes(o.scns[i], k, orig)| == BlockSize(o.scns[i], k)
    ensures Right(c, o, orig, fill, p, BlockBytes(o.scns[i], k, orig)[p - BlockStart(o.scns[i], k)])
  {
    hide TableSize, BlockBytes, ScnOk;
    BlockBounds(c, o, |orig|, i, k, p);
    BytesSize(c, o, orig, i, k, p);
  }

  /** One data block, and the gap in front of it. */
  lemma BlockStep(v: Env, c: Format, o: Object, n: nat, st: State, k: nat)
    requires Writable(c, o, |v.orig|) && n < |o.scns| && |st.out| == HeadEnd(c, o) && v.dirty
    requires |Sorted(o.scns)| == |o.scns| && forall i :: 0 <= i < |o.scns| ==> Sorted(o.scns)[i].ndx < |o.scns|
    requires var s, before := o.scns[Sorted(o.scns)[n].ndx], ScnsOut(v, o.scns, Sorted(o.scns), n, st);
      && Occupies(s) && s.listed && k < |s.data|
      && RightUpTo(c, o, v.orig, v.fill, DataOut(v, s, k, before.out, before.prev))
    ensures var s, before := o.scns[Sorted(o.scns)[n].ndx], ScnsOut(v, o.scns, Sorted(o.scns), n, st);
      RightUpTo(c, o, v.orig, v.fill, DataOut(v, s, k + 1, before.out, before.prev))
  {
    hide Sorted, ScnOk, Writable, Right, RightUpTo, ScnsOut, Source, Gap, Block, InBlock;
    var ndx := Sorted(o.scns)[n].ndx;
    var s, before := o.scns[ndx], ScnsOut(v, o.scns, Sorted(o.scns), n, st);
    var d, out := s.data[k], DataOut(v, s, k, before.out, before.prev);
    ScnsOutLength(v, c, o, n, st);
    WritableScn(c, o, |v.orig|, ndx);
    DataOutLength(v, s, k, HeadEnd(c, o), before.out, before.prev);
    BlockFits(s, k, HeadEnd(c, o), |v.orig|);
    assert |before.out| <= |out| <= BlockStart(s, k);
    forall p | |out| <= p < BlockStart(s, k)
      ensures Right(c, o, v.orig, v.fill, p, v.fill)
    {
      NothingInGap(v, c, o, n, st, k, p);
      FillIsRight(c, o, v.orig, v.fill, p);
    }
    GapExtends(c, o, v, out, BlockStart(s, k));
    var gap := Gap(v, out, BlockStart(s, k), true);
    GapEmpty(v, out, BlockStart(s, k), true);
    SourceSize(d, k == 0, HeadEnd(c, o), v.orig);
    var more := gap + Source(d, v.orig);
    BlockOutDirty(v, s, d, out, before.prev);
    forall p | |gap| <= p < |more|
      ensures Right(c, o, v.orig, v.fill, p, more[p])
    {
      OnlyBlock(v, c, o, n, st, k, p);
      BlockIsRight(c, o, v.orig, v.fill, ndx, k, p);
    }
    RightExtends(c, o, v.orig, v.fill, gap, more);
  }

  lemma BlockOutDirty(v: Env, s: Section, d: Data, out: seq<byte>, prev: bool)
    requires v.dirty
    ensures BlockOut(v, s, d, out, prev) == Gap(v, out, s.shdr.offset + d.off, true) + Source(d, v.orig)
  {}

  /** No block has a position in front of a block that the blocks before it do not reach. */
  lemma NothingInGap(v: Env, c: Format, o: Object, n: nat, st: State, k: nat, p: nat)
    requires Writable(c, o, |v.orig|) && n < |o.scns| && |st.out| == HeadEnd(c, o)
    requires |Sorted(o.scns)| == |o.scns| && forall i :: 0 <= i < |o.scns| ==> Sorted(o.scns)[i].ndx < |o.scns|
    requires var s, before := o.scns[Sorted(o.scns)[n].ndx], ScnsOut(v, o.scns, Sorted(o.scns), n, st);
      Occupies(s) && s.listed && k < |s.data| && |DataOut(v, s, k, before.out, before.prev)| <= p < BlockStart(s, k)
    ensures forall i: nat, m: nat :: !InBlock(o, i, m, p)
    ensures HeadEnd(c, o) <= p < o.ehdr.shoff
  {
    hide Sorted, ScnOk, Writable, ScnsOut, DataOut;
    var ndx := Sorted(o.scns)[n].ndx;
    var s, before := o.scns[ndx], ScnsOut(v, o.scns, Sorted(o.scns), n, st);
    ScnsOutLength(v, c, o, n, st);
    WritableScn(c, o, |v.orig|, ndx);
    DataOutLength(v, s, k, HeadEnd(c, o), before.out, before.prev);
    BlockFits(s, k, HeadEnd(c, o), |v.orig|);
    forall i: nat, m: nat
      ensures !InBlock(o, i, m, p)
    {
      if InBlock(o, i, m, p) {
        OnlyThis(v, c, o, n, st, i, m, p);
        if m < k - 1 {
          EarlierBlock(s, m, k - 1, HeadEnd(c, o), |v.orig|);
        } else if m > k {
          EarlierBlock(s, k, m, HeadEnd(c, o), |v.orig|);
        }
      }
    }
  }

  lemma OnlyBlock(v: Env, c: Format, o: Object, n: nat, st: State, k: nat, p: nat)
    requires Writable(c, o, |v.orig|) && n < |o.scns| && |st.out| == HeadEnd(c, o)
    requires |Sorted(o.scns)| == |o.scns| && forall i :: 0 <= i < |o.scns| ==> Sorted(o.scns)[i].ndx < |o.scns|
    requires var s := o.scns[Sorted(o.scns)[n].ndx];
      Occupies(s) && s.listed && k < |s.data| && BlockStart(s, k) <= p < BlockStart(s, k) + s.data[k].size
    ensures InBlock(o, Sorted(o.scns)[n].ndx, k, p)
    ensures forall i: nat, m: nat :: InBlock(o, i, m, p) ==> i == Sorted(o.scns)[n].ndx && m == k
  {
    hide Sorted, ScnOk, Writable, ScnsOut;
    var ndx := Sorted(o.scns)[n].ndx;
    var s := o.scns[ndx];
    ScnsOutLength(v, c, o, n, st);
    WritableScn(c, o, |v.orig|, ndx);
    BlockFits(s, k, HeadEnd(c, o), |v.orig|);
    forall i: nat, m: nat | InBlock(o, i, m, p)
      ensures i == ndx && m == k
    {
      OnlyThis(v, c, o, n, st, i, m, p);
      if m < k {
        EarlierBlock(s, m, k, HeadEnd(c, o), |v.orig|);
      } else if m > k {
        EarlierBlock(s, k, m, HeadEnd(c, o), |v.orig|);
      }
    }
  }

  lemma {:induction false} DataRight(v: Env, c: Format, o: Object, n: nat, st: State, k: nat)
    requires Writable(c, o, |v.orig|) && n < |o.scns| && |st.out| == HeadEnd(c, o) && v.dirty
    requires |Sorted(o.scns)| == |o.scns| && forall i :: 0 <= i < |o.scns| ==> Sorted(o.scns)[i].ndx < |o.scns|
    requires var s, before := o.scns[Sorted(o.scns)[n].ndx], ScnsOut(v, o.scns, Sorted(o.scns), n, st);
      Occupies(s) && s.listed && k <= |s.data| && RightUpTo(c, o, v.orig, v.fill, before.out)
    ensures var s, before := o.scns[Sorted(o.scns)[n].ndx], ScnsOut(v, o.scns, Sorted(o.scns), n, st);
      RightUpTo(c, o, v.orig, v.fill, DataOut(v, s, k, before.out, before.prev))
  {
    hide Sorted, ScnOk, Writable, Right, RightUpTo, ScnsOut, BlockOut;
    if k > 0 {
      DataRight(v, c, o, n, st, k - 1);
      BlockStep(v, c, o, n, st, k - 1);
    }
  }

  // ----- sections without a data list

  /** The last of the first `n` sections in sorted order that takes space in the file. */
  function LastOccupier(scns: seq<Section>, order: seq<Key>, n: nat): (r: Option<nat>)
    requires n <= |order| && forall i :: 0 <= i < |order| ==> order[i].ndx < |scns|
    ensures r.Some? ==> r.value < |scns| && Occupies(scns[r.value])
  {
    if n == 0 then None
    else if Occupies(scns[order[n - 1].ndx]) then Some(order[n - 1].ndx)
    else LastOccupier(scns, order, n - 1)
  }

  /** A section without a data list starts where the one before it ends if that has no data list either. */
  predicate ScnCovered(scns: seq<Section>, order: seq<Key>, n: nat)
    requires n < |order| && forall i :: 0 <= i < |order| ==> order[i].ndx < |scns|
  {
    var s, last := scns[order[n].ndx], LastOccupier(scns, order, n);
    Occupies(s) && !s.listed && last.Some? && !scns[last.value].listed ==>
      scns[last.value].shdr.offset + scns[last.value].shdr.size == s.shdr.offset
  }

  ghost predicate Covered(o: Object) {
    SortedKeys(o.scns);
    forall n :: 0 <= n < |o.scns| ==> ScnCovered(o.scns, Sorted(o.scns), n)
  }

  /** When everything is dirty, the last section has changed unless it has no data list. */
  lemma {:induction false} LastChanged(v: Env, c: Format, o: Object, n: nat, st: State)
    requires Writable(c, o, |v.orig|) && n <= |o.scns| && |st.out| == HeadEnd(c, o) && v.dirty && st.prev
    requires |Sorted(o.scns)| == |o.scns| && forall i :: 0 <= i < |o.scns| ==> Sorted(o.scns)[i].ndx < |o.scns|
    ensures var last, after := LastOccupier(o.scns, Sorted(o.scns), n), ScnsOut(v, o.scns, Sorted(o.scns), n, st);
      if last.None? || o.scns[last.value].listed then after.prev
      else !after.prev && |after.out| == o.scns[last.value].shdr.offset + o.scns[last.value].shdr.size
  {
    hide Sorted, ScnOk, Writable, DataOut;
    if n > 0 {
      LastChanged(v, c, o, n - 1, st);
      var ndx := Sorted(o.scns)[n - 1].ndx;
      var s, before := o.scns[ndx], ScnsOut(v, o.scns, Sorted(o.scns), n - 1, st);
      if Occupies(s) {
        ScnsOutLength(v, c, o, n - 1, st);
        WritableScn(c, o, |v.orig|, ndx);
        if s.listed {
          ListedNotEmpty(s, HeadEnd(c, o), |v.orig|);
        }
      }
    }
  }

  lemma ListlessStep(v: Env, c: Format, o: Object, n: nat, st: State)
    requires Writable(c, o, |v.orig|) && n < |o.scns| && |st.out| == HeadEnd(c, o) && v.dirty && st.prev
    requires |Sorted(o.scns)| == |o.scns| && forall i :: 0 <= i < |o.scns| ==> Sorted(o.scns)[i].ndx < |o.scns|
    requires var s := o.scns[Sorted(o.scns)[n].ndx]; Occupies(s) && !s.listed && ScnCovered(o.scns, Sorted(o.scns), n)
    requires RightUpTo(c, o, v.orig, v.fill, ScnsOut(v, o.scns, Sorted(o.scns), n, st).out)
    ensures RightUpTo(c, o, v.orig, v.fill, ScnsOut(v, o.scns, Sorted(o.scns), n + 1, st).out)
  {
    hide Sorted, ScnOk, Writable, Right, RightUpTo, Part, LastOccupier;
    var ndx := Sorted(o.scns)[n].ndx;
    var s, before := o.scns[ndx], ScnsOut(v, o.scns, Sorted(o.scns), n, st);
    LastChanged(v, c, o, n, st);
    ScnsOutLength(v, c, o, n, st);
    WritableScn(c, o, |v.orig|, ndx);
    GapEmpty(v, before.out, s.shdr.offset, before.prev);
    var gap := Gap(v, before.out, s.shdr.offset, before.prev);
    GapEmpty(v, gap, s.shdr.offset, false);
    if before.prev {
      forall p | |before.out| <= p < s.shdr.offset
        ensures Right(c, o, v.orig, v.fill, p, v.fill)
      {
        forall i: nat, k: nat
          ensures !InBlock(o, i, k, p)
        {
          if InBlock(o, i, k, p) {
            OnlyThis(v, c, o, n, st, i, k, p);
          }
        }
        FillIsRight(c, o, v.orig, v.fill, p);
      }
      GapExtends(c, o, v, before.out, s.shdr.offset);
    }
    var more := Gap(v, gap, s.shdr.offset + s.shdr.size, false);
    forall p | |gap| <= p < |more|
      ensures Right(c, o, v.orig, v.fill, p, more[p])
    {
      KeptIsRight(v, c, o, n, st, p);
      assert more[p] == v.orig[p];
    }
    RightExtends(c, o, v.orig, v.fill, gap, more);
  }

  /** A byte of a section without a data list is what it was. */
  lemma KeptIsRight(v: Env, c: Format, o: Object, n: nat, st: State, p: nat)
    requires Writable(c, o, |v.orig|) && n < |o.scns| && |st.out| == HeadEnd(c, o)
    requires |Sorted(o.scns)| == |o.scns| && forall i :: 0 <= i < |o.scns| ==> Sorted(o.scns)[i].ndx < |o.scns|
    requires var s := o.scns[Sorted(o.scns)[n].ndx];
      Occupies(s) && !s.listed && s.shdr.offset <= p < s.shdr.offset + s.shdr.size
    ensures p < |v.orig| && Right(c, o, v.orig, v.fill, p, v.orig[p])
  {
    hide Sorted, ScnOk, Writable, Right, ScnsOut;
    var ndx := Sorted(o.scns)[n].ndx;
    ScnsOutLength(v, c, o, n, st);
    WritableScn(c, o, |v.orig|, ndx);
    assert InBlock(o, ndx, 0, p);
    forall i: nat, k: nat | InBlock(o, i, k, p)
      ensures i == ndx && k == 0
    {
      OnlyThis(v, c, o, n, st, i, k, p);
    }
    BlockIsRight(c, o, v.orig, v.fill, ndx, 0, p);
  }

  lemma {:induction false} ScnsRight(v: Env, c: Format, o: Object, n: nat, st: State)
    requires Writable(c, o, |v.orig|) && n <= |o.scns| && |st.out| == HeadEnd(c, o) && v.dirty && st.prev && Covered(o)
    requires |Sorted(o.scns)| == |o.scns| && forall i :: 0 <= i < |o.scns| ==> Sorted(o.scns)[i].ndx < |o.scns|
    requires RightUpTo(c, o, v.orig, v.fill, st.out)
    ensures RightUpTo(c, o, v.orig, v.fill, ScnsOut(v, o.scns, Sorted(o.scns), n, st).out)
  {
    hide Sorted, ScnOk, Writable, Right, RightUpTo, DataOut, ScnWritten, ScnCovered;
    if n > 0 {
      ScnsRight(v, c, o, n - 1, st);
      var ndx := Sorted(o.scns)[n - 1].ndx;
      var s, before := o.scns[ndx], ScnsOut(v, o.scns, Sorted(o.scns), n - 1, st);
      if Occupies(s) && s.listed {
        DataRight(v, c, o, n - 1, st, |s.data|);
      } else if Occupies(s) {
        assert ScnCovered(o.scns, Sorted(o.scns), n - 1);
        ListlessStep(v, c, o, n - 1, st);
      }
    }
  }

  // ----- headers and table

  lemma HeadRight(v: Env, c: Format, o: Object)
    requires Writable(c, o, |v.orig|) && v.dirty
    ensures RightUpTo(c, o, v.orig, v.fill, HeadOut(v, c, o).out) && HeadOut(v, c, o).prev
  {
    hide ScnOk, TableSize;
    HeadOutLength(v, c, o);
    var out := HeadOut(v, c, o).out;
    if o.phdr.Some? {
      GapEmpty(v, EhdrOut(v, c, o), o.ehdr.phoff, true);
    }
    forall p | 0 <= p < |out|
      ensures Right(c, o, v.orig, v.fill, p, out[p])
    {
      HeadOnly(c, o, |v.orig|, p);
    }
  }

  lemma HeadOnly(c: Format, o: Object, length: nat, p: nat)
    requires Writable(c, o, length) && p < HeadEnd(c, o)
    ensures forall i: nat, k: nat :: !InBlock(o, i, k, p)
    ensures forall i: nat :: !InEntry(c, o, i, p)
  {
    hide ScnOk, TableSize;
    forall i: nat, k: nat
      ensures !InBlock(o, i, k, p)
    {
      if InBlock(o, i, k, p) {
        BlockBounds(c, o, length, i, k, p);
      }
    }
  }

  lemma EntryIsRight(c: Format, o: Object, orig: seq<byte>, fill: byte, i: nat, p: nat)
    requires Writable(c, o, |orig|) && InEntry(c, o, i, p)
    ensures |ShdrBytes(c, o.scns[i].shdr)| == c.shsz
    ensures Right(c, o, orig, fill, p, ShdrBytes(c, o.scns[i].shdr)[p - o.ehdr.shoff - TableSize(c, i)])
  {
    hide ScnOk, InBlock;
    assert |ShdrBytes(c, o.scns[i].shdr)| == c.shsz;
    forall j: nat | InEntry(c, o, j, p)
      ensures j == i
    {
      SameEntry(c, i, j, p - o.ehdr.shoff);
    }
    forall j: nat, k: nat
      ensures !InBlock(o, j, k, p)
    {
      if InBlock(o, j, k, p) {
        BlockBounds(c, o, |orig|, j, k, p);
      }
    }
  }

  lemma SameEntry(c: Format, i: nat, j: nat, q: nat)
    requires TableSize(c, i) <= q < TableSize(c, i) + c.shsz && TableSize(c, j) <= q < TableSize(c, j) + c.shsz
    ensures i == j
  {
    hide TableSize;
    if i < j {
      TableSizeOrder(c, i, j);
    } else if j < i {
      TableSizeOrder(c, j, i);
    }
  }

  lemma {:induction false} TableRight(v: Env, c: Format, o: Object, n: nat, out: seq<byte>)
    requires Writable(c, o, |v.orig|) && v.dirty && n <= |o.scns| && |o.scns| > 0
    requires |out| == o.ehdr.shoff && RightUpTo(c, o, v.orig, v.fill, out)
    ensures RightUpTo(c, o, v.orig, v.fill, TableOut(v, c, o.scns, n, out))
    ensures |TableOut(v, c, o.scns, n, out)| == o.ehdr.shoff + TableSize(c, n)
  {
    hide ScnOk, Right, RightUpTo, TableSize, Apart;
    TableSizes(c, 0);
    if n > 0 {
      TableRight(v, c, o, n - 1, out);
      TableSizes(c, n - 1);
      var before, after := TableOut(v, c, o.scns, n - 1, out), TableOut(v, c, o.scns, n, out);
      assert |ShdrBytes(c, o.scns[n - 1].shdr)| == c.shsz;
      forall p | |before| <= p < |after|
        ensures Right(c, o, v.orig, v.fill, p, after[p])
      {
        EntryIsRight(c, o, v.orig, v.fill, n - 1, p);
      }
      RightExtends(c, o, v.orig, v.fill, before, after);
    }
  }

  /** With everything dirty, either writer leaves exactly the image if it misses no gap, whatever was there before. */
  lemma DirtyWritesImage(v: Env, c: Format, o: Object)
    requires Writable(c, o, |v.orig|) && v.dirty && Covered(o)
    ensures IsImage(c, o, v.orig, v.fill, FileOut(v, c, o))
  {
    hide ScnOk, Right, RightUpTo, TableSize, Apart, Sorted, ScnsOut, TableOut, HeadOut, Covered, Gap, Writable;
    HeadRight(v, c, o);
    HeadOutLength(v, c, o);
    var head := HeadOut(v, c, o);
    if |o.scns| == 0 {
      ImageFrom(c, o, v.orig, v.fill, head.out);
    } else {
      SortedKeys(o.scns);
      ScnsRight(v, c, o, |o.scns|, head);
      ScnsOutLength(v, c, o, |o.scns|, head);
      var out := ScnsOut(v, o.scns, Sorted(o.scns), |o.scns|, head).out;
      TailRight(v, c, o, head);
      WritableEnd(c, o, |v.orig|);
      GapEmpty(v, out, o.ehdr.shoff, true);
      TableRight(v, c, o, |o.scns|, Gap(v, out, o.ehdr.shoff, true));
      ImageFrom(c, o, v.orig, v.fill, FileOut(v, c, o));
    }
  }

  lemma WritableEnd(c: Format, o: Object, length: nat)
    requires Writable(c, o, length) && |o.scns| > 0
    ensures o.ehdr.shoff + TableSize(c, |o.scns|) <= length
  {
    hide ScnOk, Apart, TableSize;
  }

  lemma ImageFrom(c: Format, o: Object, orig: seq<byte>, fill: byte, image: seq<byte>)
    requires RightUpTo(c, o, orig, fill, image) && |image| == FileEnd(c, o)
    ensures IsImage(c, o, orig, fill, image)
  {
    hide Right;
  }

  lemma TailRight(v: Env, c: Format, o: Object, st: State)
    requires Writable(c, o, |v.orig|) && |st.out| == HeadEnd(c, o) && |o.scns| > 0
    requires |Sorted(o.scns)| == |o.scns| && forall i :: 0 <= i < |o.scns| ==> Sorted(o.scns)[i].ndx < |o.scns|
    requires RightUpTo(c, o, v.orig, v.fill, ScnsOut(v, o.scns, Sorted(o.scns), |o.scns|, st).out)
    ensures var out := ScnsOut(v, o.scns, Sorted(o.scns), |o.scns|, st).out;
      RightUpTo(c, o, v.orig, v.fill, Gap(v, out, o.ehdr.shoff, true))
  {
    hide ScnOk, Right, RightUpTo, TableSize, Apart, Sorted, ScnsOut, Writable;
    var out := ScnsOut(v, o.scns, Sorted(o.scns), |o.scns|, st).out;
    ScnsOutLength(v, c, o, |o.scns|, st);
    WritableEnd(c, o, |v.orig|);
    forall p | |out| <= p < o.ehdr.shoff
      ensures Right(c, o, v.orig, v.fill, p, v.fill)
    {
      forall i: nat, k: nat
        ensures !InBlock(o, i, k, p)
      {
        if InBlock(o, i, k, p) {
          AllDone(o.scns);
          assert Done(Sorted(o.scns), |o.scns|, i);
          var j :| 0 <= j < |o.scns| && Sorted(o.scns)[j].ndx == i;
          DoneEnds(v, c, o, j, |o.scns|, st, k);
        }
      }
      FillIsRight(c, o, v.orig, v.fill, p);
    }
    GapExtends(c, o, v, out, o.ehdr.shoff);
  }

  // ----- what has been written stays

  lemma {:induction false} DataPrefix(v: Env, s: Section, n: nat, m: nat, out: seq<byte>, prev: bool)
    requires n <= m <= |s.data|
    ensures DataOut(v, s, n, out, prev) <= DataOut(v, s, m, out, prev)
    decreases m
  {
    hide BlockOut;
    if n < m {
      DataPrefix(v, s, n, m - 1, out, prev);
      BlockPrefix(v, s, s.data[m - 1], DataOut(v, s, m - 1, out, prev), prev);
      PrefixOf(DataOut(v, s, n, out, prev), DataOut(v, s, m - 1, out, prev), DataOut(v, s, m, out, prev));
    }
  }

  lemma PrefixOf(a: seq<byte>, b: seq<byte>, c: seq<byte>)
    requires a <= b <= c
    ensures a <= c
  {}

  lemma PrefixSlice(a: seq<byte>, b: seq<byte>, i: nat, j: nat)
    requires a <= b && i <= j <= |a|
    ensures b[i..j] == a[i..j]
  {}

  lemma BlockPrefix(v: Env, s: Section, d: Data, out: seq<byte>, prev: bool)
    ensures out <= BlockOut(v, s, d, out, prev)
  {
    hide Source, Part, Repeat;
  }

  lemma ScnPrefix(v: Env, s: Section, st: State)
    ensures st.out <= ScnOut(v, s, st).out
  {
    hide Part, Repeat, BlockOut;
    if s.listed {
      DataPrefix(v, s, 0, |s.data|, st.out, st.prev);
    }
  }

  lemma {:induction false} ScnsPrefix(v: Env, scns: seq<Section>, order: seq<Key>, n: nat, m: nat, st: State)
    requires n <= m <= |order| && forall i :: 0 <= i < |order| ==> order[i].ndx < |scns|
    ensures ScnsOut(v, scns, order, n, st).out <= ScnsOut(v, scns, order, m, st).out
    decreases m
  {
    hide ScnOut;
    if n < m {
      ScnsPrefix(v, scns, order, n, m - 1, st);
      ScnPrefix(v, scns[order[m - 1].ndx], ScnsOut(v, scns, order, m - 1, st));
    }
  }

  lemma {:induction false} TablePrefix(v: Env, c: Format, scns: seq<Section>, n: nat, out: seq<byte>)
    requires n <= |scns|
    ensures out <= TableOut(v, c, scns, n, out)
  {
    hide EntryWritten, EntryBytes, Part;
    if n > 0 {
      TablePrefix(v, c, scns, n - 1, out);
    }
  }

  /** The output after some of the sections is where the whole output starts. */
  lemma FilePrefix(v: Env, c: Format, o: Object, n: nat)
    requires |o.scns| > 0 && n <= |o.scns|
    ensures |Sorted(o.scns)| == |o.scns| && forall i :: 0 <= i < |o.scns| ==> Sorted(o.scns)[i].ndx < |o.scns|
    ensures ScnsOut(v, o.scns, Sorted(o.scns), n, HeadOut(v, c, o)).out <= FileOut(v, c, o)
  {
    SortedKeys(o.scns);
    hide Sorted, ScnsOut, TableOut, HeadOut, Part, Repeat;
    ScnsPrefix(v, o.scns, Sorted(o.scns), n, |o.scns|, HeadOut(v, c, o));
    var out := ScnsOut(v, o.scns, Sorted(o.scns), |o.scns|, HeadOut(v, c, o)).out;
    TablePrefix(v, c, o.scns, |o.scns|, Gap(v, out, o.ehdr.shoff, v.dirty));
  }

  /**
   * In either writer, and whatever is dirty: a dirty data block ends up with the bytes it had when writing began, even
   * if they were in the file that is written; one that is not dirty leaves what was in its place.
   */
  lemma DataInPlace(v: Env, c: Format, o: Object, i: nat, k: nat)
    requires Writable(c, o, |v.orig|) && i < |o.scns| && Occupies(o.scns[i]) && o.scns[i].listed && k < |o.scns[i].data|
    ensures var s, out := o.scns[i], FileOut(v, c, o);
      && BlockStart(s, k) + s.data[k].size <= |out|
      && out[BlockStart(s, k)..BlockStart(s, k) + s.data[k].size]
        == if BlockDirty(v, s, s.data[k]) then Source(s.data[k], v.orig)
           else Part(v.orig, BlockStart(s, k), BlockStart(s, k) + s.data[k].size)
  {
    hide Sorted, ScnOk, Writable, HeadOut, Source, Part, FileOut, ScnOut, DataOut, BlockDirty, Occupies, ScnsOut;
    var st, s := HeadOut(v, c, o), o.scns[i];
    var n := OrderPosition(o.scns, i);
    FilePrefix(v, c, o, n + 1);
    HeadOutLength(v, c, o);
    ScnsOutLength(v, c, o, n, st);
    var before := ScnsOut(v, o.scns, Sorted(o.scns), n, st);
    WritableScn(c, o, |v.orig|, i);
    BlockInData(v, s, k, HeadEnd(c, o), before.out, before.prev);
    ListedOut(v, s, before);
    ScnsOne(v, o.scns, Sorted(o.scns), n, st);
    var out := DataOut(v, s, |s.data|, before.out, before.prev);
    PrefixSlice(out, FileOut(v, c, o), BlockStart(s, k), BlockStart(s, k) + s.data[k].size);
  }

  /** In either writer, and whatever is dirty, the contents of a section that was not read stay. */
  lemma ListlessInPlace(v: Env, c: Format, o: Object, i: nat)
    requires Writable(c, o, |v.orig|) && i < |o.scns| && Occupies(o.scns[i]) && !o.scns[i].listed
    ensures var h, out := o.scns[i].shdr, FileOut(v, c, o);
      && h.offset + h.size <= |out|
      && out[h.offset..h.offset + h.size] == Part(v.orig, h.offset, h.offset + h.size)
  {
    hide Sorted, ScnOk, Writable, HeadOut, Part, FileOut, ScnOut, Occupies, ScnsOut;
    var st, s := HeadOut(v, c, o), o.scns[i];
    var n := OrderPosition(o.scns, i);
    FilePrefix(v, c, o, n + 1);
    HeadOutLength(v, c, o);
    ScnsOutLength(v, c, o, n, st);
    var before := ScnsOut(v, o.scns, Sorted(o.scns), n, st);
    WritableScn(c, o, |v.orig|, i);
    ScnsOne(v, o.scns, Sorted(o.scns), n, st);
    ListlessOut(v, s, before);
    var after := ScnOut(v, s, before).out;
    assert after[s.shdr.offset..|after|] == after[s.shdr.offset..];
    PrefixSlice(after, FileOut(v, c, o), s.shdr.offset, |after|);
  }

  lemma ListlessOut(v: Env, s: Section, st: State)
    requires Occupies(s) && !s.listed && |st.out| <= s.shdr.offset && s.shdr.offset + s.shdr.size <= |v.orig|
    ensures var after := ScnOut(v, s, st).out;
      && |after| == s.shdr.offset + s.shdr.size
      && after[s.shdr.offset..] == Part(v.orig, s.shdr.offset, s.shdr.offset + s.shdr.size)
  {
    hide Part;
    GapEmpty(v, st.out, s.shdr.offset, st.prev);
    GapEmpty(v, Gap(v, st.out, s.shdr.offset, st.prev), s.shdr.offset + s.shdr.size, false);
  }

  lemma OrderPosition(scns: seq<Section>, i: nat) returns (n: nat)
    requires i < |scns|
    ensures |Sorted(scns)| == |scns| && n < |scns| && Sorted(scns)[n].ndx == i
  {
    AllDone(scns);
    hide Sorted;
    assert Done(Sorted(scns), |scns|, i);
    n :| n < |scns| && Sorted(scns)[n].ndx == i;
  }

  lemma BlockInData(v: Env, s: Section, k: nat, low: nat, out: seq<byte>, prev: bool)
    requires s.listed && k < |s.data| && ScnOk(s, low, |v.orig|)
    requires |out| <= s.shdr.offset && s.shdr.offset + s.shdr.size <= |v.orig|
    ensures var all := DataOut(v, s, |s.data|, out, prev);
      && BlockStart(s, k) + s.data[k].size <= |all|
      && all[BlockStart(s, k)..BlockStart(s, k) + s.data[k].size]
        == if BlockDirty(v, s, s.data[k]) then Source(s.data[k], v.orig)
           else Part(v.orig, BlockStart(s, k), BlockStart(s, k) + s.data[k].size)
  {
    hide ScnOk, BufOk, Source, Part, BlockOut, BlockDirty, DataOut;
    BlockFits(s, k, low, |v.orig|);
    DataOutLength(v, s, k, low, out, prev);
    if k > 0 {
      BlockFits(s, k - 1, low, |v.orig|);
    }
    DataOne(v, s, k, out, prev);
    BlockAtEnd(v, s, k, low, DataOut(v, s, k, out, prev), prev);
    DataPrefix(v, s, k + 1, |s.data|, out, prev);
    var short := DataOut(v, s, k + 1, out, prev);
    assert short[BlockStart(s, k)..|short|] == short[BlockStart(s, k)..];
    PrefixSlice(short, DataOut(v, s, |s.data|, out, prev), BlockStart(s, k), |short|);
  }

  lemma DataOne(v: Env, s: Section, k: nat, out: seq<byte>, prev: bool)
    requires k < |s.data|
    ensures DataOut(v, s, k + 1, out, prev) == BlockOut(v, s, s.data[k], DataOut(v, s, k, out, prev), prev)
  {
    hide BlockOut;
  }

  lemma ListedOut(v: Env, s: Section, st: State)
    requires Occupies(s) && s.listed
    ensures ScnOut(v, s, st).out == DataOut(v, s, |s.data|, st.out, st.prev)
  {
    hide DataOut, ScnWritten;
  }

  lemma BlockAtEnd(v: Env, s: Section, k: nat, low: nat, out: seq<byte>, prev: bool)
    requires s.listed && k < |s.data| && BufOk(s.data[k], k == 0, low, |v.orig|)
    requires |out| <= BlockStart(s, k) && BlockStart(s, k) + s.data[k].size <= |v.orig|
    ensures var d, after := s.data[k], BlockOut(v, s, s.data[k], out, prev);
      && |after| == BlockStart(s, k) + d.size
      && after[BlockStart(s, k)..]
        == if BlockDirty(v, s, d) then Source(d, v.orig) else Part(v.orig, BlockStart(s, k), BlockStart(s, k) + d.size)
  {
    SourceSize(s.data[k], k == 0, low, v.orig);
    hide Source, Part;
    GapEmpty(v, out, BlockStart(s, k), FillsGap(v, s, s.data[k], prev));
  }

  // ----- exactly when every gap is filled

  /** Between two sections without a data list a byte of the old file is left in a place that should be fill. */
  lemma UncoveredKeeps(v: Env, c: Format, o: Object, n: nat) returns (p: nat)
    requires Writable(c, o, |v.orig|) && v.dirty && n < |o.scns|
    requires |Sorted(o.scns)| == |o.scns| && forall i :: 0 <= i < |o.scns| ==> Sorted(o.scns)[i].ndx < |o.scns|
    requires !ScnCovered(o.scns, Sorted(o.scns), n)
    ensures p < |FileOut(v, c, o)| && p < |v.orig| && FileOut(v, c, o)[p] == v.orig[p] && InNothing(c, o, p)
  {
    hide Sorted, ScnOk, Writable, HeadOut, FileOut, RightUpTo, InEntry, InPhdr, Right, InBlock;
    var st := HeadOut(v, c, o);
    HeadRight(v, c, o);
    HeadOutLength(v, c, o);
    LastChanged(v, c, o, n, st);
    ScnsOutLength(v, c, o, n, st);
    FilePrefix(v, c, o, n + 1);
    ScnsOne(v, o.scns, Sorted(o.scns), n, st);
    var ndx := Sorted(o.scns)[n].ndx;
    var s, before := o.scns[ndx], ScnsOut(v, o.scns, Sorted(o.scns), n, st);
    WritableScn(c, o, |v.orig|, ndx);
    ListlessKept(v, s, before);
    p := |before.out|;
    var short := ScnOut(v, s, before).out;
    PrefixSlice(short, FileOut(v, c, o), p, p + 1);
    assert short[p] == short[p..p + 1][0] == FileOut(v, c, o)[p..p + 1][0];
    forall i: nat, k: nat
      ensures !InBlock(o, i, k, p)
    {
      if InBlock(o, i, k, p) {
        OnlyThis(v, c, o, n, st, i, k, p);
        InBlockFrom(o, i, k, p);
      }
    }
    BetweenIsNothing(c, o, |v.orig|, p);
  }

  /** The first byte of the gap in front of a section without a data list, if the section before has none either. */
  lemma ListlessKept(v: Env, s: Section, st: State)
    requires Occupies(s) && !s.listed && !st.prev && |st.out| < s.shdr.offset
    requires s.shdr.offset + s.shdr.size <= |v.orig|
    ensures |st.out| < |ScnOut(v, s, st).out| && ScnOut(v, s, st).out[|st.out|] == v.orig[|st.out|]
  {
    GapEmpty(v, st.out, s.shdr.offset, st.prev);
    GapEmpty(v, Gap(v, st.out, s.shdr.offset, st.prev), s.shdr.offset + s.shdr.size, false);
  }

  lemma InBlockFrom(o: Object, i: nat, k: nat, p: nat)
    ensures InBlock(o, i, k, p) ==> i < |o.scns| && o.scns[i].shdr.offset <= p
  {}

  lemma BetweenIsNothing(c: Format, o: Object, length: nat, p: nat)
    requires Writable(c, o, length) && HeadEnd(c, o) <= p < o.ehdr.shoff
    requires forall i: nat, k: nat :: !InBlock(o, i, k, p)
    ensures InNothing(c, o, p)
  {
    hide ScnOk, InBlock, TableSize, Apart;
  }

  /**
   * The file is the image, whatever it held before, exactly if there is no gap between a section without a data list
   * and a following one without a data list.
   */
  lemma CoveredIff(v: Env, c: Format, o: Object)
    requires Writable(c, o, |v.orig|) && v.dirty
    ensures Covered(o) <==>
      forall orig: seq<byte> :: |orig| == |v.orig| ==> IsImage(c, o, orig, v.fill, FileOut(v.(orig := orig), c, o))
  {
    hide Writable, IsImage, FileOut, InNothing, Sorted, ScnCovered, Right;
    SortedKeys(o.scns);
    if Covered(o) {
      forall orig: seq<byte> | |orig| == |v.orig|
        ensures IsImage(c, o, orig, v.fill, FileOut(v.(orig := orig), c, o))
      {
        DirtyWritesImage(v.(orig := orig), c, o);
      }
    } else {
      var n: nat :| n < |o.scns| && !ScnCovered(o.scns, Sorted(o.scns), n);
      var other: byte := if v.fill == 0 then 1 else 0;
      var orig := Repeat(other, |v.orig|);
      var p := UncoveredKeeps(v.(orig := orig), c, o, n);
      NotImage(c, o, orig, v.fill, FileOut(v.(orig := orig), c, o), p);
    }
  }

  lemma NotImage(c: Format, o: Object, orig: seq<byte>, fill: byte, image: seq<byte>, p: nat)
    requires p < |image| && InNothing(c, o, p) && image[p] != fill
    ensures !IsImage(c, o, orig, fill, image)
  {
    hide InNothing, InEntry, InPhdr, InBlock;
    assert !Right(c, o, orig, fill, p, image[p]);
  }

  // ----- the two writers

  /** Two objects with the same headers and contents, which may be kept in different places. */
  ghost predicate SameContents(o: Object, orig: seq<byte>, o': Object, orig': seq<byte>) {
    && o.ehdr == o'.ehdr && o.phdr == o'.phdr && |o.scns| == |o'.scns|
    && forall i :: 0 <= i < |o.scns| ==> SameScn(o.scns[i], orig, o'.scns[i], orig')
  }

  ghost predicate SameScn(s: Section, orig: seq<byte>, s': Section, orig': seq<byte>) {
    && s.ndx == s'.ndx && s.shdr == s'.shdr && s.listed == s'.listed && Blocks(s) == Blocks(s')
    && forall k :: 0 <= k < Blocks(s) ==>
      && BlockStart(s, k) == BlockStart(s', k) && BlockSize(s, k) == BlockSize(s', k)
      && BlockBytes(s, k, orig) == BlockBytes(s', k, orig')
  }

  lemma SameBlocks(o: Object, orig: seq<byte>, o': Object, orig': seq<byte>, i: nat, k: nat, p: nat)
    requires SameContents(o, orig, o', orig')
    ensures InBlock(o, i, k, p) == InBlock(o', i, k, p)
    ensures InBlock(o, i, k, p) ==>
      && i < |o.scns| && k < Blocks(o.scns[i]) && i < |o'.scns| && k < Blocks(o'.scns[i])
      && BlockSize(o.scns[i], k) == BlockSize(o'.scns[i], k)
      && BlockBytes(o.scns[i], k, orig) == BlockBytes(o'.scns[i], k, orig')
      && BlockStart(o.scns[i], k) == BlockStart(o'.scns[i], k)
  {
    hide BlockBytes, BlockStart, BlockSize, Blocks;
    if i < |o.scns| {
      assert SameScn(o.scns[i], orig, o'.scns[i], orig');
    }
  }

  lemma SameRight(c: Format, o: Object, orig: seq<byte>, o': Object, orig': seq<byte>, fill: byte, p: nat, b: byte)
    requires SameContents(o, orig, o', orig') && Right(c, o, orig, fill, p, b)
    ensures Right(c, o', orig', fill, p, b)
  {
    hide BlockBytes, BlockStart, BlockSize, Blocks, InBlock, TableSize;
    forall i: nat, k: nat
      ensures InBlock(o, i, k, p) == InBlock(o', i, k, p)
      ensures InBlock(o, i, k, p) ==>
        && i < |o.scns| && k < Blocks(o.scns[i]) && i < |o'.scns| && k < Blocks(o'.scns[i])
        && BlockSize(o.scns[i], k) == BlockSize(o'.scns[i], k)
        && BlockBytes(o.scns[i], k, orig) == BlockBytes(o'.scns[i], k, orig')
        && BlockStart(o.scns[i], k) == BlockStart(o'.scns[i], k)
    {
      SameBlocks(o, orig, o', orig', i, k, p);
    }
    forall i: nat
      ensures InEntry(c, o, i, p) == InEntry(c, o', i, p)
      ensures InEntry(c, o, i, p) ==> o.scns[i].shdr == o'.scns[i].shdr
    {
      if i < |o.scns| {
        assert SameScn(o.scns[i], orig, o'.scns[i], orig');
      }
    }
  }

  lemma SameKeys(o: Object, orig: seq<byte>, o': Object, orig': seq<byte>)
    requires SameContents(o, orig, o', orig')
    ensures Sorted(o.scns) == Sorted(o'.scns)
  {
    hide BlockBytes, BlockStart, BlockSize, Blocks;
    assert forall i :: 0 <= i < |o.scns| ==> SameScn(o.scns[i], orig, o'.scns[i], orig');
    assert KeysOf(o.scns) == KeysOf(o'.scns);
  }

  lemma {:induction false} SameLast(o: Object, orig: seq<byte>, o': Object, orig': seq<byte>, order: seq<Key>, n: nat)
    requires SameContents(o, orig, o', orig')
    requires n <= |order| && forall i :: 0 <= i < |order| ==> order[i].ndx < |o.scns|
    ensures LastOccupier(o.scns, order, n) == LastOccupier(o'.scns, order, n)
  {
    hide BlockBytes, BlockStart, BlockSize, Blocks;
    if n > 0 {
      assert SameScn(o.scns[order[n - 1].ndx], orig, o'.scns[order[n - 1].ndx], orig');
      SameLast(o, orig, o', orig', order, n - 1);
    }
  }

  lemma SameCovered(o: Object, orig: seq<byte>, o': Object, orig': seq<byte>)
    requires SameContents(o, orig, o', orig') && Covered(o)
    ensures Covered(o')
  {
    SortedKeys(o.scns);
    SortedKeys(o'.scns);
    hide BlockBytes, BlockStart, BlockSize, Blocks, Sorted;
    SameKeys(o, orig, o', orig');
    forall n | 0 <= n < |o'.scns|
      ensures ScnCovered(o'.scns, Sorted(o'.scns), n)
    {
      var order := Sorted(o.scns);
      SameLast(o, orig, o', orig', order, n);
      assert ScnCovered(o.scns, order, n);
      assert SameScn(o.scns[order[n].ndx], orig, o'.scns[order[n].ndx], orig');
      var last := LastOccupier(o.scns, order, n);
      if last.Some? {
        assert SameScn(o.scns[last.value], orig, o'.scns[last.value], orig');
      }
    }
  }

  /**
   * Writing through a file descriptor, with all data in memory, and writing in place, with data in the mapping, leave
   * the same bytes when everything is dirty and no gap is missed, whatever the two files held elsewhere.
   */
  lemma WritersAgree(v: Env, v': Env, c: Format, o: Object, o': Object)
    requires v.dirty && v'.dirty && v.mapped && !v'.mapped && v.fill == v'.fill
    requires Writable(c, o, |v.orig|) && Writable(c, o', |v'.orig|) && Covered(o)
    requires SameContents(o, v.orig, o', v'.orig)
    ensures FileOut(v, c, o) == FileOut(v', c, o')
  {
    hide Writable, FileOut, Covered, Right, SameScn;
    SameCovered(o, v.orig, o', v'.orig);
    DirtyWritesImage(v, c, o);
    DirtyWritesImage(v', c, o');
    forall p | 0 <= p < |FileOut(v, c, o)|
      ensures Right(c, o', v'.orig, v.fill, p, FileOut(v, c, o)[p])
    {
      SameRight(c, o, v.orig, o', v'.orig, v.fill, p, FileOut(v, c, o)[p]);
    }
    SameEnd(c, o, v.orig, o', v'.orig);
    ImageUnique(c, o', v'.orig, v.fill, FileOut(v, c, o), FileOut(v', c, o'));
  }

  lemma SameEnd(c: Format, o: Object, orig: seq<byte>, o': Object, orig': seq<byte>)
    requires SameContents(o, orig, o', orig')
    ensures FileEnd(c, o) == FileEnd(c, o')
  {
    hide SameScn;
  }

  // ----- the two writers on the same old file

  lemma {:induction false} SameData(v: Env, v': Env, s: Section, s': Section, n: nat, out: seq<byte>, prev: bool)
    requires v.dirty && v'.dirty && v.fill == v'.fill && v.orig == v'.orig
    requires s.listed && SameScn(s, v.orig, s', v'.orig) && n <= |s.data|
    ensures |s'.data| == |s.data| && DataOut(v, s, n, out, prev) == DataOut(v', s', n, out, prev)
    ensures ScnWritten(v, s, n) == ScnWritten(v', s', n)
  {
    hide BlockOut, BlockDirty;
    SameSize(s, v.orig, s', v'.orig);
    if n > 0 {
      SameData(v, v', s, s', n - 1, out, prev);
      SameBlockOut(v, v', s, s', n - 1, DataOut(v, s, n - 1, out, prev), prev);
    }
  }

  lemma SameSize(s: Section, orig: seq<byte>, s': Section, orig': seq<byte>)
    requires s.listed && SameScn(s, orig, s', orig')
    ensures |s.data| == |s'.data| && s.shdr == s'.shdr
  {}

  lemma SameBlockOut(v: Env, v': Env, s: Section, s': Section, k: nat, out: seq<byte>, prev: bool)
    requires v.dirty && v'.dirty && v.fill == v'.fill && v.orig == v'.orig
    requires s.listed && SameScn(s, v.orig, s', v'.orig) && k < |s.data| == |s'.data|
    ensures BlockOut(v, s, s.data[k], out, prev) == BlockOut(v', s', s'.data[k], out, prev)
    ensures BlockDirty(v, s, s.data[k]) && BlockDirty(v', s', s'.data[k])
  {
    SameSize(s, v.orig, s', v'.orig);
    SameBlock(v, v', s, s', k);
    hide Source, SameScn, Part, Repeat;
  }

  lemma SameBlock(v: Env, v': Env, s: Section, s': Section, k: nat)
    requires s.listed && SameScn(s, v.orig, s', v'.orig) && k < |s.data|
    ensures k < |s'.data| && s.data[k].off == s'.data[k].off && s.data[k].size == s'.data[k].size
    ensures Source(s.data[k], v.orig) == Source(s'.data[k], v'.orig)
  {
    hide Source;
    assert BlockStart(s, k) == BlockStart(s', k) && BlockSize(s, k) == BlockSize(s', k);
    assert BlockBytes(s, k, v.orig) == BlockBytes(s', k, v'.orig);
  }

  lemma SameScnOut(v: Env, v': Env, s: Section, s': Section, st: State)
    requires v.dirty && v'.dirty && v.fill == v'.fill && v.orig == v'.orig && SameScn(s, v.orig, s', v'.orig)
    ensures ScnOut(v, s, st) == ScnOut(v', s', st)
  {
    hide DataOut, ScnWritten, BlockBytes, BlockStart, BlockSize, Repeat, Part;
    if s.listed {
      SameData(v, v', s, s', |s.data|, st.out, st.prev);
      SameSize(s, v.orig, s', v'.orig);
    }
  }

  lemma {:induction false} SameScns(v: Env, v': Env, o: Object, o': Object, order: seq<Key>, n: nat, st: State)
    requires v.dirty && v'.dirty && v.fill == v'.fill && v.orig == v'.orig && SameContents(o, v.orig, o', v'.orig)
    requires n <= |order| && forall i :: 0 <= i < |order| ==> order[i].ndx < |o.scns|
    ensures ScnsOut(v, o.scns, order, n, st) == ScnsOut(v', o'.scns, order, n, st)
  {
    hide ScnOut, SameScn;
    if n > 0 {
      SameScns(v, v', o, o', order, n - 1, st);
      var ndx := order[n - 1].ndx;
      SameScnOut(v, v', o.scns[ndx], o'.scns[ndx], ScnsOut(v, o.scns, order, n - 1, st));
    }
  }

  lemma {:induction false} SameTable(v: Env, v': Env, c: Format, o: Object, o': Object, n: nat, out: seq<byte>)
    requires v.dirty && v'.dirty && v.orig == v'.orig && SameContents(o, v.orig, o', v'.orig) && n <= |o.scns|
    ensures TableOut(v, c, o.scns, n, out) == TableOut(v', c, o'.scns, n, out)
  {
    hide BlockBytes, BlockStart, BlockSize, Blocks;
    if n > 0 {
      SameTable(v, v', c, o, o', n - 1, out);
      assert |o'.scns| == |o.scns| && EntryWritten(v, o.scns, n - 1) && EntryWritten(v', o'.scns, n - 1);
      assert SameScn(o.scns[n - 1], v.orig, o'.scns[n - 1], v'.orig);
    }
  }

  /** Started on the same old file, they leave the same bytes when everything is dirty, missed gaps included. */
  lemma WritersAgreeOnSameFile(v: Env, v': Env, c: Format, o: Object, o': Object)
    requires v.dirty && v'.dirty && v.fill == v'.fill && v.orig == v'.orig && SameContents(o, v.orig, o', v'.orig)
    ensures FileOut(v, c, o) == FileOut(v', c, o')
  {
    hide SameContents, ScnsOut, TableOut, Sorted;
    SameParts(o, v.orig, o', v'.orig);
    assert HeadOut(v, c, o) == HeadOut(v', c, o');
    if |o.scns| > 0 {
      SortedKeys(o.scns);
      SameKeys(o, v.orig, o', v'.orig);
      SameScns(v, v', o, o', Sorted(o.scns), |o.scns|, HeadOut(v, c, o));
      var out := ScnsOut(v, o.scns, Sorted(o.scns), |o.scns|, HeadOut(v, c, o)).out;
      SameTable(v, v', c, o, o', |o.scns|, Gap(v, out, o.ehdr.shoff, true));
    }
  }

  lemma SameParts(o: Object, orig: seq<byte>, o': Object, orig': seq<byte>)
    requires SameContents(o, orig, o', orig')
    ensures o.ehdr == o'.ehdr && o.phdr == o'.phdr && |o.scns| == |o'.scns|
  {}
}
