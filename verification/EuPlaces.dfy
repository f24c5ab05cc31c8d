/**
 * The file of either writer, part by part and whatever is dirty: what is written where, and what is left, in terms of
 * the fields and flags of the object, the old file, and the bytes of records.
 */
module EuPlaces {
  import opened Memory
  import opened Options
  import opened EuObject
  import opened EuImage
  import opened EuImageFacts
  import opened EuTheorems

  // ----- headers

  lemma HeadIsPrefix(v: Env, c: Format, o: Object)
    requires Writable(c, o, |v.orig|)
    ensures HeadOut(v, c, o).out <= FileOut(v, c, o) && |HeadOut(v, c, o).out| == HeadEnd(c, o)
    ensures c.Valid() && c.ehsz <= HeadEnd(c, o) <= |v.orig|
  {
    hide Sorted, ScnsOut, TableOut, HeadOut, Apart, ScnOk;
    HeadOutLength(v, c, o);
    if |o.scns| > 0 {
      FilePrefix(v, c, o, 0);
      ScnsNone(v, o.scns, Sorted(o.scns), HeadOut(v, c, o));
    }
  }

  /** The bytes of a gap. */
  lemma GapBytes(v: Env, out: seq<byte>, to: nat, filled: bool)
    requires |out| <= to <= |v.orig|
    ensures |Gap(v, out, to, filled)| == to
    ensures forall p :: |out| <= p < to ==> Gap(v, out, to, filled)[p] == if filled then v.fill else v.orig[p]
    ensures forall p :: 0 <= p < |out| ==> Gap(v, out, to, filled)[p] == out[p]
  {}

  lemma PhdrOut(v: Env, c: Format, o: Object)
    requires o.phdr.Some?
    ensures var dirty := o.phdrDirty || v.dirty;
      var gap := Gap(v, EhdrOut(v, c, o), o.ehdr.phoff, dirty);
      HeadOut(v, c, o).out == Block(v, gap, o.phdr.value, |o.phdr.value|, dirty)
  {
    hide Block, Gap;
  }

  lemma RecordBytes(v: Env, out: seq<byte>, bytes: seq<byte>, written: bool)
    requires |out| + |bytes| <= |v.orig|
    ensures var b := Block(v, out, bytes, |bytes|, written);
      && out <= b && |b| == |out| + |bytes|
      && b[|out|..] == if written then bytes else v.orig[|out|..|out| + |bytes|]
  {}

  /** The ELF header is written exactly if it or the descriptor is dirty. */
  lemma EhdrInPlace(v: Env, c: Format, o: Object)
    requires Writable(c, o, |v.orig|)
    ensures c.ehsz <= |v.orig| && c.ehsz <= |FileOut(v, c, o)|
    ensures FileOut(v, c, o)[..c.ehsz] == if o.ehdrDirty || v.dirty then c.ehdrOut(o.ehdr) else v.orig[..c.ehsz]
  {
    HeadIsPrefix(v, c, o);
    hide Writable, FileOut;
    assert |EhdrBytes(c, o.ehdr)| == c.ehsz;
    var head := HeadOut(v, c, o).out;
    PrefixSlice(head, FileOut(v, c, o), 0, c.ehsz);
    assert head[..c.ehsz] == EhdrOut(v, c, o);
  }

  /** So is the program header table, and fill bytes are written in front of it. */
  lemma PhdrInPlace(v: Env, c: Format, o: Object)
    requires Writable(c, o, |v.orig|) && o.phdr.Some?
    ensures var start, end := o.ehdr.phoff, o.ehdr.phoff + |o.phdr.value|;
      && start <= end <= |FileOut(v, c, o)| && end <= |v.orig|
      && FileOut(v, c, o)[start..end] == if o.phdrDirty || v.dirty then o.phdr.value else v.orig[start..end]
  {
    HeadIsPrefix(v, c, o);
    PhdrPlaced(c, o, |v.orig|);
    EhdrLength(v, c, o);
    PhdrOut(v, c, o);
    hide Writable, FileOut, Gap, Block, EhdrOut, HeadOut, HeadEnd;
    var head, start := HeadOut(v, c, o).out, o.ehdr.phoff;
    var gap := Gap(v, EhdrOut(v, c, o), start, o.phdrDirty || v.dirty);
    GapEmpty(v, EhdrOut(v, c, o), start, o.phdrDirty || v.dirty);
    RecordBytes(v, gap, o.phdr.value, o.phdrDirty || v.dirty);
    PrefixSlice(head, FileOut(v, c, o), start, |head|);
    EndSlice(head, start);
  }

  lemma PhdrGap(v: Env, c: Format, o: Object, p: nat)
    requires Writable(c, o, |v.orig|) && o.phdr.Some? && c.ehsz <= p < o.ehdr.phoff
    ensures p < |FileOut(v, c, o)| && p < |v.orig|
    ensures FileOut(v, c, o)[p] == if o.phdrDirty || v.dirty then v.fill else v.orig[p]
  {
    HeadIsPrefix(v, c, o);
    PhdrPlaced(c, o, |v.orig|);
    EhdrLength(v, c, o);
    PhdrOut(v, c, o);
    hide Writable, FileOut, Gap, Block, EhdrOut, HeadOut, HeadEnd;
    var gap := Gap(v, EhdrOut(v, c, o), o.ehdr.phoff, o.phdrDirty || v.dirty);
    GapBytes(v, EhdrOut(v, c, o), o.ehdr.phoff, o.phdrDirty || v.dirty);
    RecordBytes(v, gap, o.phdr.value, o.phdrDirty || v.dirty);
    assert FileOut(v, c, o)[p] == HeadOut(v, c, o).out[p] == gap[p];
  }

  lemma EhdrLength(v: Env, c: Format, o: Object)
    requires Writable(c, o, |v.orig|)
    ensures |EhdrOut(v, c, o)| == c.ehsz
  {
    HeadOutLength(v, c, o);
  }

  lemma PhdrPlaced(c: Format, o: Object, length: nat)
    requires Writable(c, o, length) && o.phdr.Some?
    ensures c.ehsz <= o.ehdr.phoff && o.ehdr.phoff + |o.phdr.value| == HeadEnd(c, o) <= length
  {}

  // ----- what comes before a section

  /** One of the data blocks of a section is written. */
  predicate AnyWritten(v: Env, s: Section) {
    s.listed && exists k :: 0 <= k < |s.data| && (s.dirty || s.data[k].dirty || v.dirty)
  }

  /** Where the contents of a section end. */
  function ScnEnd(s: Section): nat {
    if s.listed && |s.data| > 0 then s.shdr.offset + s.data[|s.data| - 1].off + s.data[|s.data| - 1].size
    else s.shdr.offset + s.shdr.size
  }

  /** Where the last of the first `n` sections that takes space ends, or else the headers. */
  function EndBefore(c: Format, o: Object, order: seq<Key>, n: nat): nat
    requires n <= |order| && forall i :: 0 <= i < |order| ==> order[i].ndx < |o.scns|
  {
    var last := LastOccupier(o.scns, order, n);
    if last.None? then HeadEnd(c, o) else ScnEnd(o.scns[last.value])
  }

  /** Whether that section has been written, or else the last of the headers. */
  predicate WrittenBefore(v: Env, o: Object, order: seq<Key>, n: nat)
    requires n <= |order| && forall i :: 0 <= i < |order| ==> order[i].ndx < |o.scns|
  {
    var last := LastOccupier(o.scns, order, n);
    if last.Some? then AnyWritten(v, o.scns[last.value])
    else v.dirty || if o.phdr.None? then o.ehdrDirty else o.phdrDirty
  }

  lemma {:induction false} WrittenIff(v: Env, s: Section, n: nat)
    requires n <= |s.data|
    ensures ScnWritten(v, s, n) <==> exists k :: 0 <= k < n && (s.dirty || s.data[k].dirty || v.dirty)
  {
    if n > 0 {
      WrittenIff(v, s, n - 1);
    }
  }

  lemma ScnStateIs(v: Env, s: Section, low: nat, st: State)
    requires Occupies(s) && ScnOk(s, low, |v.orig|)
    requires |st.out| <= s.shdr.offset && s.shdr.offset + s.shdr.size <= |v.orig|
    ensures |ScnOut(v, s, st).out| == ScnEnd(s) && ScnOut(v, s, st).prev == AnyWritten(v, s)
  {
    hide ScnOk, Gap, DataOut, ScnWritten;
    if s.listed {
      ListedNotEmpty(s, low, |v.orig|);
      DataOutLength(v, s, |s.data|, low, st.out, st.prev);
      WrittenIff(v, s, |s.data|);
    } else {
      GapBytes(v, st.out, s.shdr.offset, st.prev);
      GapBytes(v, Gap(v, st.out, s.shdr.offset, st.prev), s.shdr.offset + s.shdr.size, false);
    }
  }

  lemma HeadChanged(v: Env, c: Format, o: Object)
    ensures HeadOut(v, c, o).prev == (v.dirty || if o.phdr.None? then o.ehdrDirty else o.phdrDirty)
  {
    hide Block, Gap;
  }

  /** The state of either writer before a section: how far it is, and whether the section before has been written. */
  lemma {:induction false} StateIs(v: Env, c: Format, o: Object, n: nat)
    requires Writable(c, o, |v.orig|) && n <= |o.scns|
    requires |Sorted(o.scns)| == |o.scns| && forall i :: 0 <= i < |o.scns| ==> Sorted(o.scns)[i].ndx < |o.scns|
    ensures var st := ScnsOut(v, o.scns, Sorted(o.scns), n, HeadOut(v, c, o));
      |st.out| == EndBefore(c, o, Sorted(o.scns), n) && st.prev == WrittenBefore(v, o, Sorted(o.scns), n)
  {
    hide Sorted, ScnOk, Writable, ScnOut, ScnEnd, AnyWritten, HeadOut;
    var st := HeadOut(v, c, o);
    HeadOutLength(v, c, o);
    HeadChanged(v, c, o);
    if n > 0 {
      StateIs(v, c, o, n - 1);
      var ndx := Sorted(o.scns)[n - 1].ndx;
      var before := ScnsOut(v, o.scns, Sorted(o.scns), n - 1, st);
      if Occupies(o.scns[ndx]) {
        ScnsOutLength(v, c, o, n - 1, st);
        WritableScn(c, o, |v.orig|, ndx);
        ScnStateIs(v, o.scns[ndx], HeadEnd(c, o), before);
      } else {
        SkippedScn(v, o.scns[ndx], before);
      }
    }
  }

  // ----- sections

  /**
   * One data block: its own bytes, as they were before anything was written, if the section, the block or the
   * descriptor is dirty, and else what was there.
   */
  lemma BlockInPlace(v: Env, c: Format, o: Object, i: nat, k: nat)
    requires Writable(c, o, |v.orig|) && i < |o.scns| && k < |o.scns[i].data|
    requires i != 0 && o.scns[i].shdr.kind != NoBits && o.scns[i].listed
    ensures var s, d, out := o.scns[i], o.scns[i].data[k], FileOut(v, c, o);
      var start, end := s.shdr.offset + d.off, s.shdr.offset + d.off + d.size;
      && end <= |out| && end <= |v.orig|
      && if !(s.dirty || d.dirty || v.dirty) then out[start..end] == v.orig[start..end]
         else
           && (d.size > 0 && d.buf.Heap? ==> out[start..end] == d.buf.bytes)
           && (d.size > 0 && d.buf.InMap? ==>
                 d.buf.from + d.size <= |v.orig| && out[start..end] == v.orig[d.buf.from..d.buf.from + d.size])
  {
    hide Writable, FileOut, ScnOk, Part;
    IndexIs(c, o, |v.orig|, i);
    DataInPlace(v, c, o, i, k);
    WritableScn(c, o, |v.orig|, i);
    BlockFits(o.scns[i], k, HeadEnd(c, o), |v.orig|);
    var d, start := o.scns[i].data[k], o.scns[i].shdr.offset + o.scns[i].data[k].off;
    if d.size > 0 {
      SourceIs(d, k == 0, HeadEnd(c, o), v.orig);
    }
    PartIs(v.orig, start, start + d.size);
  }

  lemma SourceIs(d: Data, first: bool, low: nat, orig: seq<byte>)
    requires BufOk(d, first, low, |orig|) && d.size > 0
    ensures d.buf.Heap? ==> Source(d, orig) == d.buf.bytes
    ensures d.buf.InMap? ==>
      d.buf.from + d.size <= |orig| && Source(d, orig) == orig[d.buf.from..d.buf.from + d.size]
  {}

  lemma PartIs(s: seq<byte>, from: nat, to: nat)
    requires from <= to <= |s|
    ensures Part(s, from, to) == s[from..to]
  {}

  lemma IndexIs(c: Format, o: Object, length: nat, i: nat)
    requires Writable(c, o, length) && i < |o.scns|
    ensures o.scns[i].ndx == i
  {
    hide ScnOk;
  }

  /**
   * The gap in front of a data block is filled if the section, the block or the descriptor is dirty, in front of the
   * first block also if the section before has been written, and in any case in the mapping; else it stays.
   */
  lemma GapInPlace(v: Env, c: Format, o: Object, n: nat, k: nat, p: nat)
    requires Writable(c, o, |v.orig|) && n < |o.scns|
    requires |Sorted(o.scns)| == |o.scns| && forall i :: 0 <= i < |o.scns| ==> Sorted(o.scns)[i].ndx < |o.scns|
    requires var s := o.scns[Sorted(o.scns)[n].ndx];
      && s.ndx != 0 && s.shdr.kind != NoBits && s.listed && k < |s.data| && p < s.shdr.offset + s.data[k].off
      && p >= if k > 0 then s.shdr.offset + s.data[k - 1].off + s.data[k - 1].size
              else EndBefore(c, o, Sorted(o.scns), n)
    ensures var s, out := o.scns[Sorted(o.scns)[n].ndx], FileOut(v, c, o);
      var before := v.mapped || WrittenBefore(v, o, Sorted(o.scns), n);
      && p < |out| && p < |v.orig|
      && out[p] == if s.dirty || s.data[k].dirty || v.dirty || (k == 0 && before) then v.fill else v.orig[p]
  {
    hide Sorted, ScnOk, Writable, HeadOut, FileOut, ScnOut, DataOut, ScnsOut, EndBefore, WrittenBefore, BlockOut;
    var st, s := HeadOut(v, c, o), o.scns[Sorted(o.scns)[n].ndx];
    FilePrefix(v, c, o, n + 1);
    HeadOutLength(v, c, o);
    ScnsOutLength(v, c, o, n, st);
    StateIs(v, c, o, n);
    var before := ScnsOut(v, o.scns, Sorted(o.scns), n, st);
    WritableScn(c, o, |v.orig|, Sorted(o.scns)[n].ndx);
    BlockFits(s, k, HeadEnd(c, o), |v.orig|);
    ScnsOne(v, o.scns, Sorted(o.scns), n, st);
    ListedOut(v, s, before);
    DataOutLength(v, s, k, HeadEnd(c, o), before.out, before.prev);
    DataOne(v, s, k, before.out, before.prev);
    DataPrefix(v, s, k + 1, |s.data|, before.out, before.prev);
    var short := DataOut(v, s, k + 1, before.out, before.prev);
    PrefixOf(short, DataOut(v, s, |s.data|, before.out, before.prev), FileOut(v, c, o));
    GapAt(v, s, s.data[k], DataOut(v, s, k, before.out, before.prev), before.prev, p);
    assert FileOut(v, c, o)[p] == short[p];
  }

  lemma GapAt(v: Env, s: Section, d: Data, out: seq<byte>, prev: bool, p: nat)
    requires |out| <= p < s.shdr.offset + d.off <= |v.orig|
    ensures p < |BlockOut(v, s, d, out, prev)|
    ensures BlockOut(v, s, d, out, prev)[p]
      == if s.dirty || d.dirty || v.dirty || (d.off == 0 && (v.mapped || prev)) then v.fill else v.orig[p]
  {
    hide Source, Part, Gap;
    GapBytes(v, out, s.shdr.offset + d.off, FillsGap(v, s, d, prev));
  }

  /** In front of a section without a data list it is filled exactly if the section before has been written. */
  lemma ListlessGap(v: Env, c: Format, o: Object, n: nat, p: nat)
    requires Writable(c, o, |v.orig|) && n < |o.scns|
    requires |Sorted(o.scns)| == |o.scns| && forall i :: 0 <= i < |o.scns| ==> Sorted(o.scns)[i].ndx < |o.scns|
    requires var s := o.scns[Sorted(o.scns)[n].ndx];
      && s.ndx != 0 && s.shdr.kind != NoBits && !s.listed
      && EndBefore(c, o, Sorted(o.scns), n) <= p < s.shdr.offset
    ensures p < |FileOut(v, c, o)| && p < |v.orig|
    ensures FileOut(v, c, o)[p] == if WrittenBefore(v, o, Sorted(o.scns), n) then v.fill else v.orig[p]
  {
    hide Sorted, ScnOk, Writable, HeadOut, FileOut, ScnsOut, EndBefore, WrittenBefore, Gap;
    var st, s := HeadOut(v, c, o), o.scns[Sorted(o.scns)[n].ndx];
    FilePrefix(v, c, o, n + 1);
    HeadOutLength(v, c, o);
    ScnsOutLength(v, c, o, n, st);
    StateIs(v, c, o, n);
    var before := ScnsOut(v, o.scns, Sorted(o.scns), n, st);
    WritableScn(c, o, |v.orig|, Sorted(o.scns)[n].ndx);
    ScnsOne(v, o.scns, Sorted(o.scns), n, st);
    GapBytes(v, before.out, s.shdr.offset, before.prev);
    var gap := Gap(v, before.out, s.shdr.offset, before.prev);
    GapBytes(v, gap, s.shdr.offset + s.shdr.size, false);
    assert FileOut(v, c, o)[p] == ScnOut(v, s, before).out[p] == gap[p];
  }

  // ----- the section header table

  /** Behind the last section up to the table there are fill bytes if the descriptor is dirty. */
  lemma TailInPlace(v: Env, c: Format, o: Object, p: nat)
    requires Writable(c, o, |v.orig|) && |o.scns| > 0
    requires |Sorted(o.scns)| == |o.scns| && forall i :: 0 <= i < |o.scns| ==> Sorted(o.scns)[i].ndx < |o.scns|
    requires EndBefore(c, o, Sorted(o.scns), |o.scns|) <= p < o.ehdr.shoff
    ensures p < |FileOut(v, c, o)| && p < |v.orig| && FileOut(v, c, o)[p] == if v.dirty then v.fill else v.orig[p]
  {
    SortedKeys(o.scns);
    hide Sorted, Writable, HeadOut, ScnsOut, EndBefore, WrittenBefore, Gap, TableOut;
    var st := HeadOut(v, c, o);
    HeadOutLength(v, c, o);
    StateIs(v, c, o, |o.scns|);
    WritableTable(c, o, |v.orig|);
    var out := ScnsOut(v, o.scns, Sorted(o.scns), |o.scns|, st).out;
    GapBytes(v, out, o.ehdr.shoff, v.dirty);
    var gap := Gap(v, out, o.ehdr.shoff, v.dirty);
    TablePrefix(v, c, o.scns, |o.scns|, gap);
    assert FileOut(v, c, o)[p] == gap[p];
  }

  lemma TableOne(v: Env, c: Format, scns: seq<Section>, n: nat, out: seq<byte>)
    requires n < |scns|
    ensures TableOut(v, c, scns, n + 1, out)
      == Block(v, TableOut(v, c, scns, n, out), EntryBytes(v, c, scns, n), c.shsz, EntryWritten(v, scns, n))
  {
    hide Block, EntryBytes, EntryWritten;
  }

  /** A table that starts at `start` has entry `i`. */
  predicate HasEntry(v: Env, c: Format, scns: seq<Section>, start: nat, out: seq<byte>, i: nat)
    requires i < |scns|
  {
    var at := start + TableSize(c, i);
    && at + c.shsz <= |out|
    && out[at..at + c.shsz]
       == if EntryWritten(v, scns, i) then EntryBytes(v, c, scns, i) else Part(v.orig, at, at + c.shsz)
  }

  lemma EntryKept(v: Env, c: Format, scns: seq<Section>, start: nat, out: seq<byte>, more: seq<byte>, i: nat)
    requires i < |scns| && HasEntry(v, c, scns, start, out, i) && out <= more
    ensures HasEntry(v, c, scns, start, more, i)
  {
    hide TableSize, EntryWritten, EntryBytes, Part;
    PrefixSlice(out, more, start + TableSize(c, i), start + TableSize(c, i) + c.shsz);
  }

  /** The last of the first `n` entries. */
  lemma LastEntry(v: Env, c: Format, scns: seq<Section>, n: nat, out: seq<byte>)
    requires c.Valid() && n < |scns| && |out| + TableSize(c, n + 1) <= |v.orig|
    requires v.shdrs.Some? ==> TableSize(c, n + 1) <= |v.shdrs.value|
    ensures var before, after := TableOut(v, c, scns, n, out), TableOut(v, c, scns, n + 1, out);
      before <= after && HasEntry(v, c, scns, |out|, after, n)
  {
    TableOne(v, c, scns, n, out);
    TableSizes(c, n);
    hide TableSize, EntryWritten, EntryBytes, Part, Block, Format.Valid, TableOut;
    TableLength(v, c, scns, n, out);
    EntryLength(v, c, scns, n + 1, n);
    var before, after := TableOut(v, c, scns, n, out), TableOut(v, c, scns, n + 1, out);
    BlockIs(v, before, EntryBytes(v, c, scns, n), c.shsz, EntryWritten(v, scns, n));
    EndSlice(after, |before|);
  }

  lemma EndSlice(s: seq<byte>, i: nat)
    requires i <= |s|
    ensures s[i..|s|] == s[i..]
  {}

  lemma {:induction false} EntryAt(v: Env, c: Format, scns: seq<Section>, n: nat, out: seq<byte>, i: nat)
    requires c.Valid() && i < n <= |scns| && |out| + TableSize(c, n) <= |v.orig|
    requires v.shdrs.Some? ==> TableSize(c, n) <= |v.shdrs.value|
    ensures HasEntry(v, c, scns, |out|, TableOut(v, c, scns, n, out), i)
  {
    LastEntry(v, c, scns, n - 1, out);
    if i < n - 1 {
      TableSizes(c, n - 1);
      hide TableSize, HasEntry, Format.Valid, TableOut;
      EntryAt(v, c, scns, n - 1, out, i);
      EntryKept(v, c, scns, |out|, TableOut(v, c, scns, n - 1, out), TableOut(v, c, scns, n, out), i);
    }
  }

  lemma BlockIs(v: Env, out: seq<byte>, bytes: seq<byte>, n: nat, written: bool)
    requires |out| + n <= |v.orig| && |bytes| == n
    ensures var b := Block(v, out, bytes, n, written);
      && out <= b && |b| == |out| + n && b[|out|..] == if written then bytes else Part(v.orig, |out|, |out| + n)
  {}

  lemma EntryLength(v: Env, c: Format, scns: seq<Section>, n: nat, i: nat)
    requires c.Valid() && i < n <= |scns| && (v.shdrs.Some? ==> TableSize(c, n) <= |v.shdrs.value|)
    ensures |EntryBytes(v, c, scns, i)| == c.shsz
  {
    TableSizeOrder(c, i, n);
    hide TableSize;
    assert |ShdrBytes(c, scns[i].shdr)| == c.shsz;
  }

  lemma {:induction false} TableLength(v: Env, c: Format, scns: seq<Section>, n: nat, out: seq<byte>)
    requires c.Valid() && n <= |scns| && |out| + TableSize(c, n) <= |v.orig|
    requires v.shdrs.Some? ==> TableSize(c, n) <= |v.shdrs.value|
    ensures |TableOut(v, c, scns, n, out)| == |out| + TableSize(c, n)
  {
    hide TableSize, EntryWritten, EntryBytes, Part, Block, Format.Valid;
    TableSizes(c, 0);
    if n > 0 {
      TableSizes(c, n - 1);
      TableLength(v, c, scns, n - 1, out);
      EntryLength(v, c, scns, n, n - 1);
      BlockIs(v, TableOut(v, c, scns, n - 1, out), EntryBytes(v, c, scns, n - 1), c.shsz, EntryWritten(v, scns, n - 1));
    }
  }

  /** Some header is dirty, and a file gets the whole table; in the mapping, only dirty entries are written. */
  predicate EntryDue(v: Env, o: Object, i: nat)
    requires i < |o.scns|
  {
    v.dirty || if v.mapped then o.scns[i].shdrDirty else exists j :: 0 <= j < |o.scns| && o.scns[j].shdrDirty
  }

  lemma FileEntry(v: Env, c: Format, o: Object, i: nat)
    requires Writable(c, o, |v.orig|) && i < |o.scns|
    requires v.shdrs.Some? ==> TableSize(c, |o.scns|) <= |v.shdrs.value|
    ensures HasEntry(v, c, o.scns, o.ehdr.shoff, FileOut(v, c, o), i)
    ensures o.ehdr.shoff + TableSize(c, |o.scns|) <= |v.orig|
  {
    SortedKeys(o.scns);
    hide Sorted, Writable, HeadOut, ScnsOut, Gap, TableOut, TableSize, HasEntry;
    var st := HeadOut(v, c, o);
    HeadOutLength(v, c, o);
    ScnsOutLength(v, c, o, |o.scns|, st);
    WritableTable(c, o, |v.orig|);
    var out := ScnsOut(v, o.scns, Sorted(o.scns), |o.scns|, st).out;
    GapBytes(v, out, o.ehdr.shoff, v.dirty);
    EntryAt(v, c, o.scns, |o.scns|, Gap(v, out, o.ehdr.shoff, v.dirty), i);
  }

  /** An entry of the table that is due is the header of its section, or comes from the array of headers. */
  lemma EntryInPlace(v: Env, c: Format, o: Object, i: nat, at: nat)
    requires Writable(c, o, |v.orig|) && i < |o.scns| && at == i * c.shsz
    requires v.shdrs.Some? ==> |o.scns| * c.shsz <= |v.shdrs.value|
    ensures var start, end := o.ehdr.shoff + at, o.ehdr.shoff + at + c.shsz;
      && end <= |FileOut(v, c, o)| && end <= |v.orig|
      && (!EntryDue(v, o, i) ==> FileOut(v, c, o)[start..end] == v.orig[start..end])
      && (EntryDue(v, o, i) && (v.mapped || v.dirty || v.shdrs.None?) ==>
            FileOut(v, c, o)[start..end] == c.shdrOut(o.scns[i].shdr))
      && (EntryDue(v, o, i) && !v.mapped && !v.dirty && v.shdrs.Some? ==>
            at + c.shsz <= |v.shdrs.value| && FileOut(v, c, o)[start..end] == v.shdrs.value[at..at + c.shsz])
  {
    hide Writable, FileOut;
    assert TableSize(c, i) == at && TableSize(c, |o.scns|) == |o.scns| * c.shsz;
    TableSizeOrder(c, i, |o.scns|);
    FileEntry(v, c, o, i);
    hide TableSize;
    PartIs(v.orig, o.ehdr.shoff + at, o.ehdr.shoff + at + c.shsz);
  }

  /** The file ends with the table, or with the headers if there are no sections. */
  lemma EndInPlace(v: Env, c: Format, o: Object)
    requires Writable(c, o, |v.orig|)
    requires v.shdrs.Some? ==> |o.scns| * c.shsz <= |v.shdrs.value|
    ensures |FileOut(v, c, o)|
      == if |o.scns| > 0 then o.ehdr.shoff + |o.scns| * c.shsz
         else if o.phdr.Some? then o.ehdr.phoff + |o.phdr.value| else c.ehsz
  {
    HeadIsPrefix(v, c, o);
    if |o.scns| > 0 {
      SortedKeys(o.scns);
      assert TableSize(c, |o.scns|) == |o.scns| * c.shsz;
      hide Sorted, Writable, HeadOut, ScnsOut, Gap, TableOut, TableSize, HeadEnd;
      var st := HeadOut(v, c, o);
      HeadOutLength(v, c, o);
      ScnsOutLength(v, c, o, |o.scns|, st);
      WritableTable(c, o, |v.orig|);
      var out := ScnsOut(v, o.scns, Sorted(o.scns), |o.scns|, st).out;
      GapBytes(v, out, o.ehdr.shoff, v.dirty);
      TableLength(v, c, o.scns, |o.scns|, Gap(v, out, o.ehdr.shoff, v.dirty));
    }
  }
}
