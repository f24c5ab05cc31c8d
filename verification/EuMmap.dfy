/** updatemmap: writes an ELF file in place in its mapping, from which the data may come. */
module EuMmap {
  import opened Memory
  import opened Options
  import opened EuObject
  import opened EuImage
  import opened EuImageFacts

  function Min(a: nat, b: nat): nat { if a < b then a else b }

  function Max(a: nat, b: nat): nat { if a < b then b else a }

  // ----- fill_mmap

  /** The positions that fill_mmap fills: up to the header table, and from its end or from the start of the section. */
  predicate MapFilled(p: nat, offset: nat, last: nat, scnStart: nat, shdrStart: nat, shdrEnd: nat) {
    var target := scnStart + offset;
    || last <= p < Min(target, shdrStart)
    || (target > shdrStart && shdrEnd < target && Max(shdrEnd, scnStart) <= p < target)
  }

  /** fill_mmap(): fills the gap between `last` and `scnStart + offset` but for the section header table in it. */
  method FillMmap(map_: array<byte>, offset: nat, last: nat, scnStart: nat, shdrStart: nat, shdrEnd: nat, fill: byte)
    requires last < scnStart + offset <= map_.Length && shdrStart <= shdrEnd
    modifies map_
    ensures forall p :: 0 <= p < map_.Length ==>
      map_[p] == if MapFilled(p, offset, last, scnStart, shdrStart, shdrEnd) then fill else old(map_[p])
  {
    var written := 0;
    if last < shdrStart {
      written := Min(scnStart + offset - last, shdrStart - last);
      MemSet(map_, last, fill, written);
    }
    ghost var m := map_[..];
    if last + written != scnStart + offset && shdrEnd < scnStart + offset {
      var fillStart := Max(shdrEnd, scnStart);
      MemSet(map_, fillStart, fill, scnStart + offset - fillStart);
      forall p | 0 <= p < map_.Length
        ensures map_[p] == if fillStart <= p < scnStart + offset then fill else m[p]
      {
        assert map_[p] == map_[..][p];
        assert fillStart <= p < scnStart + offset ==> map_[..][fillStart..scnStart + offset][p - fillStart] == fill;
      }
    }
    forall p | 0 <= p < map_.Length
      ensures m[p] == if last <= p < last + written then fill else old(map_[p])
    {
      assert last <= p < last + written ==> m[last..last + written][p - last] == fill;
      assert old(map_[p]) == old(map_[..])[p];
    }
  }

  /**
   * fill_mmap fills just the gap, and all of it, exactly if the table is not in front of its end, or the section starts
   * where filling has to go on after the table.  With an early table it can leave bytes out, or overwrite data.
   */
  lemma MapFillsGapIff(offset: nat, last: nat, scnStart: nat, shdrStart: nat, shdrEnd: nat)
    requires last < scnStart + offset && shdrStart <= shdrEnd
    ensures (forall p: nat :: MapFilled(p, offset, last, scnStart, shdrStart, shdrEnd) <==>
        last <= p < scnStart + offset && !(shdrStart <= p < shdrEnd)) <==>
      (scnStart + offset <= shdrEnd || Max(shdrEnd, scnStart) == Max(shdrEnd, last))
  {
    var a, b := Max(shdrEnd, scnStart), Max(shdrEnd, last);
    if scnStart + offset > shdrEnd && a != b {
      var p := Min(a, b);
      assert MapFilled(p, offset, last, scnStart, shdrStart, shdrEnd) <==>
        !(last <= p < scnStart + offset && !(shdrStart <= p < shdrEnd));
    }
  }

  /** The concrete damage: the table in front of a section with a hole between two data blocks */
  lemma EarlyTableOverwrites()
    ensures MapFilled(100, 20, 110, 100, 52, 92)
  {}

  lemma FillBeforeTable(now: seq<byte>, was: seq<byte>, offset: nat, last: nat, scnStart: nat, shdrStart: nat,
                        shdrEnd: nat, fill: byte)
    requires |now| == |was| && last < scnStart + offset <= shdrStart <= shdrEnd && scnStart + offset <= |was|
    requires forall p :: 0 <= p < |was| ==>
      now[p] == if MapFilled(p, offset, last, scnStart, shdrStart, shdrEnd) then fill else was[p]
    ensures now == Splice(was, last, Repeat(fill, scnStart + offset - last))
  {
    var want := Splice(was, last, Repeat(fill, scnStart + offset - last));
    forall p | 0 <= p < |was|
      ensures now[p] == want[p]
    {
      if last <= p < scnStart + offset {
        assert want[p] == want[last..scnStart + offset][p - last];
      }
    }
  }

  // ----- saving what is in the way

  /** A section after the save pass: its header and its first data block may have been copied out of the mapping. */
  function Saved(s: Section, m: seq<byte>, c: Format, shoff: nat): Section {
    var at := if s.at.Some? && s.at.value != shoff + TableSize(c, s.ndx) then None else s.at;
    var data := if |s.data| > 0 && s.data[0].buf.InMap? && s.shdr.offset > s.data[0].buf.from
      then s.data[0 := s.data[0].(buf := Heap(Part(m, s.data[0].buf.from, s.data[0].buf.from + s.data[0].size)))]
      else s.data;
    s.(at := at, data := data)
  }

  function SavedAll(scns: seq<Section>, m: seq<byte>, c: Format, shoff: nat): (r: seq<Section>)
    ensures |r| == |scns|
  {
    seq(|scns|, i requires 0 <= i < |scns| => Saved(scns[i], m, c, shoff))
  }

  /** A block that is still in the mapping starts where its section will, or after. */
  ghost predicate Settled(s: Section) {
    && (forall k :: 0 <= k < |s.data| && s.data[k].buf.InMap? ==> k == 0 && s.shdr.offset <= s.data[0].buf.from)
  }

  lemma SavedIsSettled(s: Section, m: seq<byte>, c: Format, shoff: nat)
    requires forall k :: 0 < k < |s.data| ==> !s.data[k].buf.InMap?
    ensures Settled(Saved(s, m, c, shoff))
  {}

  /** Copying leaves a section with the bytes it had. */
  lemma SavedSource(s: Section, orig: seq<byte>, c: Format, shoff: nat, k: nat)
    requires k < |s.data|
    ensures |Saved(s, orig, c, shoff).data| == |s.data|
    ensures Source(Saved(s, orig, c, shoff).data[k], orig) == Source(s.data[k], orig)
    ensures Saved(s, orig, c, shoff).data[k].(buf := NoBuf) == s.data[k].(buf := NoBuf)
  {}

  lemma SavedSize(s: Section, m: seq<byte>, c: Format, shoff: nat)
    ensures var s' := Saved(s, m, c, shoff); |s'.data| == |s.data| && s'.shdr == s.shdr && s'.dirty == s.dirty
  {}

  lemma {:induction false} SavedDataOut(v: Env, s: Section, c: Format, shoff: nat, n: nat, out: seq<byte>, prev: bool)
    requires n <= |s.data|
    ensures |Saved(s, v.orig, c, shoff).data| == |s.data|
    ensures DataOut(v, Saved(s, v.orig, c, shoff), n, out, prev) == DataOut(v, s, n, out, prev)
    ensures ScnWritten(v, Saved(s, v.orig, c, shoff), n) == ScnWritten(v, s, n)
  {
    hide BlockOut, BlockDirty, Source, Saved;
    SavedSize(s, v.orig, c, shoff);
    if n > 0 {
      SavedDataOut(v, s, c, shoff, n - 1, out, prev);
      SavedSource(s, v.orig, c, shoff, n - 1);
      var s' := Saved(s, v.orig, c, shoff);
      SameBlockOut(v, s, s', s.data[n - 1], s'.data[n - 1], DataOut(v, s, n - 1, out, prev), prev);
    }
  }

  lemma SameBlockOut(v: Env, s: Section, s': Section, d: Data, d': Data, out: seq<byte>, prev: bool)
    requires s'.shdr == s.shdr && s'.dirty == s.dirty
    requires d'.(buf := NoBuf) == d.(buf := NoBuf) && Source(d', v.orig) == Source(d, v.orig)
    ensures BlockOut(v, s', d', out, prev) == BlockOut(v, s, d, out, prev)
    ensures BlockDirty(v, s', d') == BlockDirty(v, s, d)
  {
    hide Gap, Block, Source;
    assert d'.off == d.off && d'.size == d.size && d'.dirty == d.dirty;
  }

  lemma SavedScnOut(v: Env, s: Section, c: Format, shoff: nat, st: State)
    ensures ScnOut(v, Saved(s, v.orig, c, shoff), st) == ScnOut(v, s, st)
  {
    hide DataOut, ScnWritten, Gap;
    SavedDataOut(v, s, c, shoff, |s.data|, st.out, st.prev);
  }

  // ----- writing in place

  /** The mapping, and how far it has been dealt with. */
  class Mapper {
    const map_: array<byte>
    const fillByte: byte
    const shdrStart: nat
    const shdrEnd: nat
    var last: nat

    constructor (map_: array<byte>, fillByte: byte, shdrStart: nat, shdrEnd: nat, last: nat)
      ensures this.map_ == map_ && this.fillByte == fillByte && this.last == last
      ensures this.shdrStart == shdrStart && this.shdrEnd == shdrEnd
    {
      this.map_, this.fillByte, this.shdrStart, this.shdrEnd, this.last := map_, fillByte, shdrStart, shdrEnd, last;
    }

    /** Fills up to `scnStart + offset`, which is in front of the table. */
    method Fill(offset: nat, scnStart: nat, ghost v: Env, ghost out: seq<byte>)
      requires HasOut(map_[..], v.orig, out) && last == |out| < scnStart + offset <= shdrStart <= shdrEnd
      requires v.fill == fillByte
      requires scnStart + offset <= |v.orig|
      modifies map_
      ensures HasOut(map_[..], v.orig, Gap(v, out, scnStart + offset, true))
    {
      ghost var was := map_[..];
      FillMmap(map_, offset, last, scnStart, shdrStart, shdrEnd, fillByte);
      FillBeforeTable(map_[..], was, offset, last, scnStart, shdrStart, shdrEnd, fillByte);
      WriteNext(v.orig, out, Repeat(fillByte, scnStart + offset - |out|));
    }

    /** memmove() of a data block to where it belongs; in the mapping its bytes have not been overwritten yet. */
    method Move(d: Data, ghost first: bool, ghost low: nat, ghost v: Env, ghost out: seq<byte>)
      requires HasOut(map_[..], v.orig, out) && last == |out| && |out| + d.size <= |v.orig|
      requires BufOk(d, first, low, |v.orig|) && (d.buf.InMap? ==> d.size == 0 || last <= d.buf.from)
      modifies map_
      ensures HasOut(map_[..], v.orig, out + Source(d, v.orig))
    {
      hide HasOut, Splice, Part;
      SourceSize(d, first, low, v.orig);
      WriteNext(v.orig, out, Source(d, v.orig));
      OutIs(map_[..], v.orig, out);
      if d.size != 0 {
        match d.buf {
          case Heap(bytes) => MemCpy(map_, last, bytes);
          case InMap(from) =>
            StillThere(map_[..], v.orig, out, from, d.size);
            assert map_[from..from + d.size] == map_[..][from..from + d.size];
            MemMove(map_, last, from, d.size);
          case NoBuf => assert false;
        }
      } else {
        assert out + Source(d, v.orig) == out;
      }
    }

    /** One data block of a section. */
    method WriteBlock(s: Section, d: Data, dirty: bool, ghost first: bool, ghost low: nat, ghost v: Env,
                      ghost out: seq<byte>, ghost prev: bool)
      requires HasOut(map_[..], v.orig, out) && last == |out| && v.fill == fillByte && v.mapped && v.dirty == dirty
      requires BufOk(d, first, low, |v.orig|) && (d.buf.InMap? ==> d.size == 0 || s.shdr.offset + d.off <= d.buf.from)
      requires |out| <= s.shdr.offset + d.off && s.shdr.offset + d.off + d.size <= |v.orig|
      requires d.off + d.size <= s.shdr.size && s.shdr.offset + s.shdr.size <= shdrStart <= shdrEnd
      modifies map_, this
      ensures HasOut(map_[..], v.orig, BlockOut(v, s, d, out, prev)) && last == |BlockOut(v, s, d, out, prev)|
    {
      hide HasOut, Repeat, Splice, Source, BufOk;
      assert d.off <= s.shdr.size && d.size <= s.shdr.size - d.off;
      var scnStart := s.shdr.offset;
      ghost var start, filled := scnStart + d.off, FillsGap(v, s, d, prev);
      ghost var gap := Gap(v, out, start, filled);
      BlockOutLength(v, s, d, first, low, out, prev);
      GapEmpty(v, out, start, filled);
      FileLength(v.orig, out);
      OutIs(map_[..], v.orig, out);
      if scnStart + d.off > last && (d.off == 0 || s.dirty || d.dirty || dirty) {
        Fill(d.off, scnStart, v, out);
      } else if scnStart + d.off > last {
        LeaveNext(v.orig, out, start);
      }
      assert HasOut(map_[..], v.orig, gap);
      last := scnStart + d.off;
      OutIs(map_[..], v.orig, gap);
      if s.dirty || d.dirty || dirty {
        SourceSize(d, first, low, v.orig);
        Move(d, first, low, v, gap);
      } else {
        LeaveNext(v.orig, gap, start + d.size);
      }
      last := last + d.size;
      assert s.shdr.offset + d.off + d.size == last;
    }

    /** The data blocks of a section. */
    method WriteData(s: Section, dirty: bool, ghost low: nat, ghost v: Env, ghost out: seq<byte>, ghost prev: bool)
      returns (data: seq<Data>, changed: bool)
      requires HasOut(map_[..], v.orig, out) && last == |out| && v.fill == fillByte && v.mapped && v.dirty == dirty
      requires s.listed && ScnOk(s, low, |v.orig|) && Settled(s)
      requires |out| <= s.shdr.offset && s.shdr.offset + s.shdr.size <= shdrStart <= shdrEnd && shdrStart <= |v.orig|
      modifies map_, this
      ensures HasOut(map_[..], v.orig, DataOut(v, s, |s.data|, out, prev))
      ensures last == |DataOut(v, s, |s.data|, out, prev)| && changed == ScnWritten(v, s, |s.data|)
      ensures data == Clean(s.data, |s.data|)
    {
      hide HasOut, ScnOk, BufOk, BlockOut, Clean;
      data, changed := s.data, false;
      ListedNotEmpty(s, low, |v.orig|);
      CleanOne(s.data, 0);
      var k := 0;
      while k < |s.data|
        invariant k <= |s.data| && data == Clean(s.data, k) && changed == ScnWritten(v, s, k)
        invariant HasOut(map_[..], v.orig, DataOut(v, s, k, out, prev)) && last == |DataOut(v, s, k, out, prev)|
      {
        BlockFits(s, k, low, |v.orig|);
        DataOutLength(v, s, k, low, out, prev);
        WriteBlock(s, s.data[k], dirty, k == 0, low, v, DataOut(v, s, k, out, prev), prev);
        changed := changed || s.dirty || s.data[k].dirty || dirty;
        CleanOne(s.data, k);
        data := data[k := data[k].(dirty := false)];
        k := k + 1;
      }
    }

    /** One turn of the loop over sections. */
    method WriteScn(s: Section, dirty: bool, prev: bool, ghost low: nat, ghost v: Env, ghost st: State)
      returns (s': Section, prev': bool)
      requires HasOut(map_[..], v.orig, st.out) && last == |st.out| && prev == st.prev
      requires v.fill == fillByte && v.mapped && v.dirty == dirty && (s.ndx == 0 ==> !s.dirty)
      requires Occupies(s) ==>
        && ScnOk(s, low, |v.orig|) && Settled(s) && |st.out| <= s.shdr.offset
        && s.shdr.offset + s.shdr.size <= shdrStart <= shdrEnd && shdrStart <= |v.orig|
      modifies map_, this
      ensures HasOut(map_[..], v.orig, ScnOut(v, s, st).out) && last == |ScnOut(v, s, st).out|
      ensures prev' == ScnOut(v, s, st).prev && s' == Cleared(s, true)
    {
      hide HasOut, ScnOk, DataOut, ScnWritten, Clean, Splice, Repeat;
      s', prev' := s, prev;
      if s.ndx == 0 {
        assert !s.dirty;
        return;
      }
      if !s.shdr.kind.NoBits? {
        if s.listed {
          var data;
          data, prev' := WriteData(s, dirty, low, v, st.out, st.prev);
          s' := s.(data := data);
        } else {
          var start := s.shdr.offset;
          ghost var gap := Gap(v, st.out, start, prev);
          GapEmpty(v, st.out, start, prev);
          OutIs(map_[..], v.orig, st.out);
          if start > last && prev {
            Fill(0, start, v, st.out);
          } else {
            LeaveNext(v.orig, st.out, start);
          }
          assert HasOut(map_[..], v.orig, gap);
          OutIs(map_[..], v.orig, gap);
          GapEmpty(v, gap, start + s.shdr.size, false);
          LeaveNext(v.orig, gap, start + s.shdr.size);
          last, prev' := start + s.shdr.size, false;
        }
      }
      s' := s'.(dirty := false);
    }
  }

  /** The output so far has not reached these bytes. */
  lemma StillThere(m: seq<byte>, orig: seq<byte>, out: seq<byte>, from: nat, n: nat)
    requires HasOut(m, orig, out) && |out| <= from && from + n <= |orig|
    ensures m[from..from + n] == Part(orig, from, from + n)
  {}
}
