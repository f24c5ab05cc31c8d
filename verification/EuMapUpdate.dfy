/** The passes of updatemmap: headers, saving, sections, section header table. */
module EuMapUpdate {
  import opened Memory
  import opened Options
  import opened EuObject
  import opened EuImage
  import opened EuImageFacts
  import opened EuMmap

  /**
   * The mapping holds the records and the data that are said to be in it, behind the headers that are written first.
   */
  ghost predicate Mapped(c: Format, o: Object, orig: seq<byte>) {
    forall i :: 0 <= i < |o.scns| ==> ScnMapped(c, o.scns[i], HeadEnd(c, o), orig)
  }

  ghost predicate ScnMapped(c: Format, s: Section, low: nat, orig: seq<byte>) {
    && (s.at.Some? ==> low <= s.at.value && s.at.value + c.shsz <= |orig|
                       && Part(orig, s.at.value, s.at.value + c.shsz) == ShdrBytes(c, s.shdr))
    && forall k :: 0 <= k < |s.data| && s.data[k].buf.InMap? ==>
      k == 0 && low <= s.data[k].buf.from && s.data[k].buf.from + s.data[k].size <= |orig|
  }

  // ----- headers

  /** The ELF header; it needs no copying if it is edited in the mapping. */
  method MapEhdr(e: Elf, map_: array<byte>, ehdrMapped: bool, ghost v: Env) returns (prev: bool)
    requires HasOut(map_[..], v.orig, []) && v.dirty == e.dirty && e.fmt.Valid() && e.fmt.ehsz <= |v.orig|
    requires ehdrMapped ==> Part(v.orig, 0, e.fmt.ehsz) == EhdrBytes(e.fmt, e.ehdr)
    modifies e`ehdrDirty, map_
    ensures HasOut(map_[..], v.orig, EhdrOut(v, e.fmt, old(e.Obj()))) && !e.ehdrDirty
    ensures prev == ((old(e.ehdrDirty) || e.dirty) && e.phdr.None?)
  {
    hide HasOut, Splice;
    OutIs(map_[..], v.orig, []);
    prev := false;
    assert |EhdrBytes(e.fmt, e.ehdr)| == e.fmt.ehsz;
    if e.ehdrDirty || e.dirty {
      if ehdrMapped {
        LeaveNext(v.orig, [], e.fmt.ehsz);
      } else {
        WriteNext(v.orig, [], EhdrBytes(e.fmt, e.ehdr));
        MemCpy(map_, 0, EhdrBytes(e.fmt, e.ehdr));
      }
      e.ehdrDirty := false;
      prev := e.phdr.None?;
    } else {
      LeaveNext(v.orig, [], e.fmt.ehsz);
    }
  }

  /** Copies the program header table from where it is. */
  method CopyPhdr(map_: array<byte>, to: nat, phdr: seq<byte>, phdrAt: Option<nat>, ghost orig: seq<byte>,
                  ghost out: seq<byte>)
    requires HasOut(map_[..], orig, out) && to + |phdr| <= map_.Length
    requires phdrAt.Some? ==> |out| <= phdrAt.value && phdrAt.value + |phdr| <= |orig|
                              && Part(orig, phdrAt.value, phdrAt.value + |phdr|) == phdr
    modifies map_
    ensures map_[..] == Splice(old(map_[..]), to, phdr)
  {
    hide HasOut, Splice, Part;
    OutIs(map_[..], orig, out);
    if phdrAt.Some? {
      StillThere(map_[..], orig, out, phdrAt.value, |phdr|);
      assert map_[phdrAt.value..phdrAt.value + |phdr|] == map_[..][phdrAt.value..phdrAt.value + |phdr|];
      MemMove(map_, to, phdrAt.value, |phdr|);
    } else {
      MemCpy(map_, to, phdr);
    }
  }

  /** The program header table, which may be in the mapping too, at its place or behind it. */
  method MapPhdr(e: Elf, map_: array<byte>, phdrAt: Option<nat>, prev: bool, ghost v: Env, fill: byte,
                 ghost out: seq<byte>)
    returns (prev': bool)
    requires HasOut(map_[..], v.orig, out) && v.fill == fill && v.dirty == e.dirty && !prev
    requires e.phdr.Some? && e.ehdr.ehsize == |out| <= e.ehdr.phoff && e.ehdr.phoff + |e.phdr.value| <= |v.orig|
    requires phdrAt.Some? ==> e.ehdr.phoff <= phdrAt.value && phdrAt.value + |e.phdr.value| <= |v.orig|
                              && Part(v.orig, phdrAt.value, phdrAt.value + |e.phdr.value|) == e.phdr.value
    modifies e`phdrDirty, map_
    ensures !e.phdrDirty && prev' == (old(e.phdrDirty) || e.dirty)
    ensures HasOut(map_[..], v.orig, Block(v, Gap(v, out, e.ehdr.phoff, prev'), e.phdr.value, |e.phdr.value|, prev'))
  {
    hide HasOut, Splice, Repeat;
    prev' := prev;
    ghost var dirty := e.phdrDirty || e.dirty;
    ghost var gap := Gap(v, out, e.ehdr.phoff, dirty);
    GapEmpty(v, out, e.ehdr.phoff, dirty);
    FileLength(v.orig, out);
    OutIs(map_[..], v.orig, out);
    if e.phdrDirty || e.dirty {
      WriteNext(v.orig, out, Repeat(fill, e.ehdr.phoff - |out|));
      if e.ehdr.phoff > e.ehdr.ehsize {
        MemSet(map_, e.ehdr.ehsize, fill, e.ehdr.phoff - e.ehdr.ehsize);
      }
      assert HasOut(map_[..], v.orig, gap);
      OutIs(map_[..], v.orig, gap);
      WriteNext(v.orig, gap, e.phdr.value);
      CopyPhdr(map_, e.ehdr.phoff, e.phdr.value, phdrAt, v.orig, gap);
      e.phdrDirty := false;
      prev' := true;
    } else {
      LeaveNext(v.orig, out, e.ehdr.phoff);
      FileLength(v.orig, gap);
      OutIs(map_[..], v.orig, gap);
      LeaveNext(v.orig, gap, e.ehdr.phoff + |e.phdr.value|);
    }
  }

  // ----- the save pass

  /** Copies what is in the way of one section out of the mapping. */
  method SaveScn(s: Section, map_: array<byte>, c: Format, shoff: nat, ghost low: nat, ghost orig: seq<byte>,
                 ghost out: seq<byte>)
    returns (s': Section)
    requires HasOut(map_[..], orig, out) && |out| <= low && ScnMapped(c, s, low, orig) && c.shsz > 0
    ensures s' == Saved(s, orig, c, shoff)
  {
    hide TableSize, HasOut, Part;
    s' := s;
    OutIs(map_[..], orig, out);
    if s.at.Some? && s.at.value != shoff + TableSize(c, s.ndx) {
      assert s.at.value < map_.Length;
      s' := s'.(at := None);
    }
    if |s.data| > 0 && s.data[0].buf.InMap? && s.shdr.offset > s.data[0].buf.from {
      var d := s.data[0];
      StillThere(map_[..], orig, out, d.buf.from, d.size);
      assert map_[d.buf.from..d.buf.from + d.size] == map_[..][d.buf.from..d.buf.from + d.size];
      s' := s'.(data := s.data[0 := d.(buf := Heap(map_[d.buf.from..d.buf.from + d.size]))]);
    }
  }

  /** The save pass leaves every section with its bytes where they will not be overwritten before they are needed. */
  method SaveScns(e: Elf, map_: array<byte>, ghost o: Object, ghost orig: seq<byte>, ghost out: seq<byte>)
    requires o.scns == e.scns && o.ehdr == e.ehdr && HasOut(map_[..], orig, out) && |out| == HeadEnd(e.fmt, o)
    requires Mapped(e.fmt, o, orig) && e.fmt.shsz > 0
    modifies e`scns
    ensures e.scns == SavedAll(o.scns, orig, e.fmt, e.ehdr.shoff)
  {
    SortedKeys(o.scns);
    hide HasOut, Sorted, InOrder, Saved, Advanced, ScnMapped;
    var order := Sorted(e.scns);
    ghost var saved := SavedAll(o.scns, orig, e.fmt, e.ehdr.shoff);
    AdvanceEnds(o.scns, e.scns, o.scns, saved);
    var cnt := 0;
    while cnt < |e.scns|
      invariant cnt <= |o.scns| == |e.scns| && Advanced(e.scns, o.scns, saved, order, cnt)
    {
      AdvanceStep(o.scns, e.scns, o.scns, saved, cnt);
      var ndx := order[cnt].ndx;
      var s := SaveScn(e.scns[ndx], map_, e.fmt, e.ehdr.shoff, HeadEnd(e.fmt, o), orig, out);
      e.scns := e.scns[ndx := s];
      cnt := cnt + 1;
    }
    AdvanceEnds(o.scns, e.scns, o.scns, saved);
  }

  // ----- the sections

  function ClearedAll(scns: seq<Section>): (r: seq<Section>)
    ensures |r| == |scns| && forall i :: 0 <= i < |r| ==> r[i] == Cleared(scns[i], true)
  {
    seq(|scns|, i requires 0 <= i < |scns| => Cleared(scns[i], true))
  }

  ghost predicate AllSettled(scns: seq<Section>) {
    forall i :: 0 <= i < |scns| ==> Settled(scns[i])
  }

  /** The loop over the sections in sorted order. */
  method MapScns(e: Elf, w: Mapper, prev: bool, ghost o: Object, ghost v: Env, ghost st: State)
    requires Writable(e.fmt, o, |v.orig|) && o.scns == e.scns && o.ehdr == e.ehdr && AllSettled(e.scns)
    requires HasOut(w.map_[..], v.orig, st.out) && w.last == |st.out| == HeadEnd(e.fmt, o) && prev == st.prev
    requires v.fill == w.fillByte && v.mapped && v.dirty == e.dirty && w.shdrStart == e.ehdr.shoff <= w.shdrEnd
    modifies e`scns, w, w.map_
    ensures |Sorted(o.scns)| == |o.scns| && forall i :: 0 <= i < |o.scns| ==> Sorted(o.scns)[i].ndx < |o.scns|
    ensures var out := ScnsOut(v, o.scns, Sorted(o.scns), |o.scns|, st).out;
      HasOut(w.map_[..], v.orig, out) && w.last == |out|
    ensures e.scns == ClearedAll(o.scns)
  {
    SortedKeys(o.scns);
    hide HasOut, Sorted, InOrder, ScnOut, Writable, ScnOk, Done, Occupies, Advanced, Cleared, Settled;
    var order := Sorted(e.scns);
    ghost var cleared := ClearedAll(o.scns);
    AdvanceEnds(o.scns, e.scns, o.scns, cleared);
    var prev' := prev;
    var cnt := 0;
    while cnt < |e.scns|
      invariant cnt <= |o.scns| == |e.scns| && Advanced(e.scns, o.scns, cleared, order, cnt)
      invariant HasOut(w.map_[..], v.orig, ScnsOut(v, o.scns, order, cnt, st).out)
      invariant w.last == |ScnsOut(v, o.scns, order, cnt, st).out| && prev' == ScnsOut(v, o.scns, order, cnt, st).prev
    {
      AdvanceStep(o.scns, e.scns, o.scns, cleared, cnt);
      var ndx := order[cnt].ndx;
      ScnsOutLength(v, e.fmt, o, cnt, st);
      ReadyScn(e.fmt, o, |v.orig|, ndx);
      var s;
      s, prev' := w.WriteScn(e.scns[ndx], e.dirty, prev', HeadEnd(e.fmt, o), v, ScnsOut(v, o.scns, order, cnt, st));
      e.scns := e.scns[ndx := s];
      cnt := cnt + 1;
    }
    AdvanceEnds(o.scns, e.scns, o.scns, cleared);
  }

  // ----- the section header table

  function Flat(es: seq<seq<byte>>, n: nat): seq<byte>
    requires n <= |es|
  {
    if n == 0 then [] else Flat(es, n - 1) + es[n - 1]
  }

  function Slot(c: Format, orig: seq<byte>, start: nat, i: nat): seq<byte> {
    Part(orig, start + TableSize(c, i), start + TableSize(c, i) + c.shsz)
  }

  /** The entries of the table as they were, and as they will be. */
  function Slots(c: Format, orig: seq<byte>, start: nat, n: nat): (r: seq<seq<byte>>)
    ensures |r| == n && forall i :: 0 <= i < n ==> r[i] == Slot(c, orig, start, i)
  {
    seq(n, i requires 0 <= i < n => Slot(c, orig, start, i))
  }

  function Entries(v: Env, c: Format, scns: seq<Section>, start: nat): (r: seq<seq<byte>>)
    ensures |r| == |scns|
    ensures forall i :: 0 <= i < |r| ==>
      r[i] == if EntryWritten(v, scns, i) then ShdrBytes(c, scns[i].shdr) else Slot(c, v.orig, start, i)
  {
    seq(|scns|, i requires 0 <= i < |scns| =>
      if EntryWritten(v, scns, i) then ShdrBytes(c, scns[i].shdr) else Slot(c, v.orig, start, i))
  }

  lemma {:induction false} SlotsFlat(c: Format, orig: seq<byte>, start: nat, m: nat, n: nat)
    requires n <= m && start + TableSize(c, n) <= |orig|
    ensures Flat(Slots(c, orig, start, m), n) == Part(orig, start, start + TableSize(c, n))
    decreases n
  {
    hide TableSize, Part, Slots;
    TableSizes(c, 0);
    PartNone(orig, start);
    SlotsAre(c, orig, start, m);
    if n > 0 {
      TableSizes(c, n - 1);
      SlotsFlat(c, orig, start, m, n - 1);
      PartSum([], orig, start, start + TableSize(c, n - 1), start + TableSize(c, n));
    }
  }

  /** Entry by entry, the table is what the output says. */
  lemma {:induction false} EntriesFlat(v: Env, c: Format, scns: seq<Section>, out: seq<byte>, n: nat)
    requires c.Valid() && n <= |scns| && |out| + TableSize(c, n) <= |v.orig| && v.mapped
    ensures TableOut(v, c, scns, n, out) == out + Flat(Entries(v, c, scns, |out|), n)
    ensures |TableOut(v, c, scns, n, out)| == |out| + TableSize(c, n)
  {
    hide TableSize, EntryWritten, Block, Entries, Format.Valid;
    TableSizes(c, 0);
    var es := Entries(v, c, scns, |out|);
    EntriesLength(v, c, scns, |out|);
    if n == 0 {
      assert out + [] == out;
    } else {
      TableSizes(c, n - 1);
      EntriesFlat(v, c, scns, out, n - 1);
      EntryOut(v, c, scns, n - 1, TableOut(v, c, scns, n - 1, out), |out|);
      Associate(out, Flat(es, n - 1), es[n - 1]);
    }
  }

  lemma EntriesLength(v: Env, c: Format, scns: seq<Section>, start: nat)
    ensures |Entries(v, c, scns, start)| == |scns|
  {}

  lemma Associate(a: seq<byte>, b: seq<byte>, c: seq<byte>)
    ensures a + b + c == a + (b + c)
  {}

  lemma EntryOut(v: Env, c: Format, scns: seq<Section>, i: nat, before: seq<byte>, start: nat)
    requires c.Valid() && i < |scns| && |before| == start + TableSize(c, i) && |before| + c.shsz <= |v.orig|
    ensures Block(v, before, ShdrBytes(c, scns[i].shdr), c.shsz, EntryWritten(v, scns, i))
      == before + Entries(v, c, scns, start)[i]
    ensures |Entries(v, c, scns, start)[i]| == c.shsz
  {
    hide TableSize, EntryWritten;
    assert |ShdrBytes(c, scns[i].shdr)| == c.shsz;
  }

  lemma {:induction false} FlatSplice(c: Format, es: seq<seq<byte>>, i: nat, bytes: seq<byte>, n: nat)
    requires i < |es| && n <= |es| && |bytes| == c.shsz && forall j :: 0 <= j < |es| ==> |es[j]| == c.shsz
    ensures |Flat(es, n)| == TableSize(c, n)
    ensures i < n ==>
      && TableSize(c, i) + c.shsz <= TableSize(c, n)
      && Flat(es[i := bytes], n) == Splice(Flat(es, n), TableSize(c, i), bytes)
      && Flat(es, n)[TableSize(c, i)..TableSize(c, i) + c.shsz] == es[i]
    ensures i >= n ==> Flat(es[i := bytes], n) == Flat(es, n)
  {
    hide TableSize, Splice;
    TableSizes(c, 0);
    if n > 0 {
      TableSizes(c, n - 1);
      FlatSplice(c, es, i, bytes, n - 1);
      var f := Flat(es, n - 1);
      if i < n - 1 {
        SpliceFirst(f, es[n - 1], TableSize(c, i), bytes);
      } else if i == n - 1 {
        SpliceLast(f, es[n - 1], bytes);
      }
    }
  }

  lemma SpliceFirst(a: seq<byte>, b: seq<byte>, at: nat, bytes: seq<byte>)
    requires at + |bytes| <= |a|
    ensures Splice(a + b, at, bytes) == Splice(a, at, bytes) + b
    ensures (a + b)[at..at + |bytes|] == a[at..at + |bytes|]
  {}

  lemma SpliceLast(a: seq<byte>, b: seq<byte>, bytes: seq<byte>)
    requires |bytes| == |b|
    ensures Splice(a + b, |a|, bytes) == a + bytes && (a + b)[|a|..|a| + |bytes|] == b
  {}

  /** The mapping with a table of these entries right after the output. */
  ghost predicate TableNow(c: Format, m: seq<byte>, orig: seq<byte>, out: seq<byte>, es: seq<seq<byte>>) {
    && (forall j :: 0 <= j < |es| ==> |es[j]| == c.shsz)
    && HasOut(m, orig, out + Flat(es, |es|))
  }

  lemma TableStarts(c: Format, m: seq<byte>, orig: seq<byte>, out: seq<byte>, n: nat)
    requires HasOut(m, orig, out) && |out| + TableSize(c, n) <= |orig|
    ensures TableNow(c, m, orig, out, Slots(c, orig, |out|, n))
  {
    SlotsFlat(c, orig, |out|, n, n);
    forall j | 0 <= j < n
      ensures |Slot(c, orig, |out|, j)| == c.shsz
    {
      TableSizeOrder(c, j, n);
    }
    LeaveNext(orig, out, |out| + TableSize(c, n));
  }

  lemma StoreEntry(c: Format, m: seq<byte>, orig: seq<byte>, out: seq<byte>, es: seq<seq<byte>>, i: nat,
                   bytes: seq<byte>)
    requires TableNow(c, m, orig, out, es) && i < |es| && |bytes| == c.shsz
    ensures var at := |out| + TableSize(c, i);
      && at + c.shsz <= |m| && m[at..at + c.shsz] == es[i]
      && TableNow(c, Splice(m, at, bytes), orig, out, es[i := bytes])
  {
    hide TableSize, Flat, Splice;
    FlatSplice(c, es, i, bytes, |es|);
    var f, t := Flat(es, |es|), TableSize(c, i);
    SameLength(f, t, bytes);
    Middle(out, f, orig[|out + f|..], t, t + c.shsz);
    SpliceInside(out, f, orig[|out + f|..], t, bytes);
  }

  lemma SameLength(s: seq<byte>, at: nat, bytes: seq<byte>)
    requires at + |bytes| <= |s|
    ensures |Splice(s, at, bytes)| == |s|
  {}

  lemma Middle(a: seq<byte>, b: seq<byte>, d: seq<byte>, i: nat, j: nat)
    requires i <= j <= |b|
    ensures (a + b + d)[|a| + i..|a| + j] == b[i..j]
  {}

  lemma SpliceInside(a: seq<byte>, b: seq<byte>, d: seq<byte>, at: nat, bytes: seq<byte>)
    requires at + |bytes| <= |b|
    ensures Splice(a + b + d, |a| + at, bytes) == a + Splice(b, at, bytes) + d
  {}

  function FlagsCleared(scns: seq<Section>): (r: seq<Section>)
    ensures |r| == |scns| && forall i :: 0 <= i < |r| ==> r[i] == scns[i].(shdrDirty := false)
  {
    seq(|scns|, i requires 0 <= i < |scns| => scns[i].(shdrDirty := false))
  }

  /** Headers that are still in the mapping are the entries of the table themselves. */
  ghost predicate InPlace(c: Format, scns: seq<Section>, shoff: nat, orig: seq<byte>) {
    forall i :: 0 <= i < |scns| && scns[i].at.Some? ==>
      scns[i].at.value == shoff + TableSize(c, i) && Slot(c, orig, shoff, i) == ShdrBytes(c, scns[i].shdr)
  }

  /** The loop that writes the table, entry by entry in sorted order. */
  method MapTable(e: Elf, map_: array<byte>, ghost scns: seq<Section>, ghost keys: seq<Section>, ghost v: Env,
                  ghost out: seq<byte>, order: seq<Key>)
    requires e.fmt.Valid() && v.dirty == e.dirty && v.mapped && |out| == e.ehdr.shoff
    requires HasOut(map_[..], v.orig, out) && |out| + TableSize(e.fmt, |e.scns|) <= |v.orig|
    requires scns == e.scns && InPlace(e.fmt, e.scns, e.ehdr.shoff, v.orig)
    requires |keys| == |scns| && order == Sorted(keys)
    modifies e`scns, map_
    ensures HasOut(map_[..], v.orig, TableOut(v, e.fmt, scns, |scns|, out))
    ensures e.scns == FlagsCleared(scns)
  {
    SortedKeys(keys);
    hide HasOut, Sorted, InOrder, Advanced, Done, TableNow, TableSize, Splice, Format.Valid, Slots, Entries, InPlace;
    hide Slot;
    ghost var was, become := Slots(e.fmt, v.orig, |out|, |scns|), Entries(v, e.fmt, scns, |out|);
    ghost var es := was;
    EntriesLength(v, e.fmt, scns, |out|);
    SlotsAre(e.fmt, v.orig, |out|, |scns|);
    TableStarts(e.fmt, map_[..], v.orig, out, |scns|);
    AdvanceEnds(keys, es, was, become);
    AdvanceEnds(keys, e.scns, scns, FlagsCleared(scns));
    var cnt := 0;
    while cnt < |e.scns|
      invariant cnt <= |scns| == |e.scns| == |es| && TableNow(e.fmt, map_[..], v.orig, out, es)
      invariant Advanced(es, was, become, order, cnt) && Advanced(e.scns, scns, FlagsCleared(scns), order, cnt)
    {
      AdvanceStep(keys, es, was, become, cnt);
      AdvanceStep(keys, e.scns, scns, FlagsCleared(scns), cnt);
      var ndx := order[cnt].ndx;
      InPlaceOne(e.fmt, scns, e.ehdr.shoff, v.orig, ndx);
      MapEntry(e, map_, ndx, v, out, scns, es);
      es := es[ndx := become[ndx]];
      cnt := cnt + 1;
    }
    AdvanceEnds(keys, es, was, become);
    AdvanceEnds(keys, e.scns, scns, FlagsCleared(scns));
    TableEnds(v, e.fmt, scns, out, map_[..]);
  }

  lemma SlotsAre(c: Format, orig: seq<byte>, start: nat, n: nat)
    ensures |Slots(c, orig, start, n)| == n
    ensures forall i :: 0 <= i < n ==> Slots(c, orig, start, n)[i] == Slot(c, orig, start, i)
  {}

  lemma InPlaceOne(c: Format, scns: seq<Section>, shoff: nat, orig: seq<byte>, i: nat)
    requires InPlace(c, scns, shoff, orig) && i < |scns|
    ensures scns[i].at.Some? ==>
      scns[i].at.value == shoff + TableSize(c, i) && Slot(c, orig, shoff, i) == ShdrBytes(c, scns[i].shdr)
  {}

  lemma TableEnds(v: Env, c: Format, scns: seq<Section>, out: seq<byte>, m: seq<byte>)
    requires c.Valid() && |out| + TableSize(c, |scns|) <= |v.orig| && v.mapped
    requires TableNow(c, m, v.orig, out, Entries(v, c, scns, |out|))
    ensures HasOut(m, v.orig, TableOut(v, c, scns, |scns|, out))
  {
    hide HasOut, TableSize, TableOut;
    EntriesFlat(v, c, scns, out, |scns|);
  }

  /** One turn of that loop. */
  method MapEntry(e: Elf, map_: array<byte>, ndx: nat, ghost v: Env, ghost out: seq<byte>, ghost scns: seq<Section>,
                  ghost es: seq<seq<byte>>)
    requires e.fmt.Valid() && v.dirty == e.dirty && v.mapped && |out| == e.ehdr.shoff
    requires ndx < |e.scns| == |scns| == |es|
    requires e.scns[ndx] == scns[ndx] && es[ndx] == Slot(e.fmt, v.orig, |out|, ndx)
    requires TableNow(e.fmt, map_[..], v.orig, out, es)
    requires var s := e.scns[ndx]; s.at.Some? ==>
      && s.at.value == e.ehdr.shoff + TableSize(e.fmt, ndx)
      && Slot(e.fmt, v.orig, e.ehdr.shoff, ndx) == ShdrBytes(e.fmt, s.shdr)
    modifies e`scns, map_
    ensures TableNow(e.fmt, map_[..], v.orig, out, es[ndx := Entries(v, e.fmt, scns, |out|)[ndx]])
    ensures e.scns == old(e.scns)[ndx := scns[ndx].(shdrDirty := false)]
  {
    hide HasOut, TableNow, TableSize, Slot, Splice;
    var s := e.scns[ndx];
    assert |ShdrBytes(e.fmt, s.shdr)| == e.fmt.shsz;
    StoreEntry(e.fmt, map_[..], v.orig, out, es, ndx, ShdrBytes(e.fmt, s.shdr));
    if s.shdrDirty || e.dirty {
      var dest := e.ehdr.shoff + TableSize(e.fmt, ndx);
      if s.at.Some? {
        assert map_[s.at.value..s.at.value + e.fmt.shsz] == map_[..][s.at.value..s.at.value + e.fmt.shsz];
        MemMove(map_, dest, s.at.value, e.fmt.shsz);
      } else {
        MemCpy(map_, dest, ShdrBytes(e.fmt, s.shdr));
      }
      e.scns := e.scns[ndx := s.(shdrDirty := false)];
    } else {
      assert es[ndx := es[ndx]] == es;
      assert e.scns == old(e.scns)[ndx := s];
    }
  }

  // ----- all of it

  /** Sections that differ in buffers and flags of contents only */
  ghost predicate Alike(s: seq<Section>, t: seq<Section>) {
    |s| == |t| && forall i :: 0 <= i < |s| ==>
      s[i].shdr == t[i].shdr && s[i].ndx == t[i].ndx && s[i].shdrDirty == t[i].shdrDirty
  }

  lemma AlikeSorted(s: seq<Section>, t: seq<Section>)
    requires Alike(s, t)
    ensures Sorted(s) == Sorted(t)
  {
    assert KeysOf(s) == KeysOf(t);
  }

  lemma {:induction false} AlikeTable(v: Env, c: Format, s: seq<Section>, t: seq<Section>, n: nat, out: seq<byte>)
    requires Alike(s, t) && n <= |s| && v.mapped
    ensures TableOut(v, c, s, n, out) == TableOut(v, c, t, n, out)
  {
    hide Block;
    if n > 0 {
      AlikeTable(v, c, s, t, n - 1, out);
      assert EntryWritten(v, s, n - 1) == EntryWritten(v, t, n - 1);
    }
  }

  lemma SavedAlike(scns: seq<Section>, m: seq<byte>, c: Format, shoff: nat)
    ensures Alike(SavedAll(scns, m, c, shoff), scns)
    ensures Alike(ClearedAll(SavedAll(scns, m, c, shoff)), scns)
  {
    hide Part;
  }

  lemma {:induction false} SavedScnsOut(v: Env, scns: seq<Section>, c: Format, shoff: nat, order: seq<Key>, n: nat,
                                        st: State)
    requires n <= |order| && forall i :: 0 <= i < |order| ==> order[i].ndx < |scns|
    ensures ScnsOut(v, SavedAll(scns, v.orig, c, shoff), order, n, st) == ScnsOut(v, scns, order, n, st)
  {
    hide ScnOut, Saved;
    if n > 0 {
      SavedScnsOut(v, scns, c, shoff, order, n - 1, st);
      SavedScnOut(v, scns[order[n - 1].ndx], c, shoff, ScnsOut(v, scns, order, n - 1, st));
    }
  }

  lemma SavedOk(s: Section, orig: seq<byte>, c: Format, shoff: nat, low: nat)
    requires ScnOk(s, low, |orig|)
    ensures ScnOk(Saved(s, orig, c, shoff), low, |orig|)
  {
    var s' := Saved(s, orig, c, shoff);
    forall k | 0 <= k < |s.data|
      ensures s'.data[k].(buf := NoBuf) == s.data[k].(buf := NoBuf)
      ensures s.listed ==> BufOk(s'.data[k], k == 0, low, |orig|)
    {}
  }

  lemma SavedWritable(c: Format, o: Object, orig: seq<byte>)
    requires Writable(c, o, |orig|) && Mapped(c, o, orig)
    ensures var saved := SavedAll(o.scns, orig, c, o.ehdr.shoff);
      Writable(c, o.(scns := saved), |orig|) && AllSettled(saved)
  {
    hide ScnOk, Apart, Settled, Part, TableSize;
    var saved := SavedAll(o.scns, orig, c, o.ehdr.shoff);
    forall i | 0 <= i < |saved|
      ensures Settled(saved[i]) && saved[i].shdr == o.scns[i].shdr && saved[i].ndx == o.scns[i].ndx
      ensures saved[i].dirty == o.scns[i].dirty
      ensures ScnOk(o.scns[i], HeadEnd(c, o), |orig|) ==> ScnOk(saved[i], HeadEnd(c, o), |orig|)
    {
      assert ScnMapped(c, o.scns[i], HeadEnd(c, o), orig);
      SavedIsSettled(o.scns[i], orig, c, o.ehdr.shoff);
      if ScnOk(o.scns[i], HeadEnd(c, o), |orig|) {
        SavedOk(o.scns[i], orig, c, o.ehdr.shoff, HeadEnd(c, o));
      }
    }
    hide Saved;
  }

  lemma SavedInPlace(c: Format, o: Object, orig: seq<byte>)
    requires Mapped(c, o, orig) && Indexed(o.scns)
    ensures InPlace(c, ClearedAll(SavedAll(o.scns, orig, c, o.ehdr.shoff)), o.ehdr.shoff, orig)
  {
    hide TableSize, Part;
    var scns := ClearedAll(SavedAll(o.scns, orig, c, o.ehdr.shoff));
    forall i | 0 <= i < |scns| && scns[i].at.Some?
      ensures scns[i].at.value == o.ehdr.shoff + TableSize(c, i)
      ensures Slot(c, orig, o.ehdr.shoff, i) == ShdrBytes(c, scns[i].shdr)
    {
      assert ScnMapped(c, o.scns[i], HeadEnd(c, o), orig);
    }
  }

  /** updatemmap() */
  method UpdateMmap(e: Elf, map_: array<byte>, fillByte: byte, ehdrMapped: bool, phdrAt: Option<nat>)
    requires Writable(e.fmt, e.Obj(), map_.Length) && Mapped(e.fmt, e.Obj(), map_[..])
    requires ehdrMapped ==> Part(map_[..], 0, e.fmt.ehsz) == EhdrBytes(e.fmt, e.ehdr)
    requires e.phdr.Some? && phdrAt.Some? ==>
      && e.ehdr.phoff <= phdrAt.value && phdrAt.value + |e.phdr.value| <= map_.Length
      && Part(map_[..], phdrAt.value, phdrAt.value + |e.phdr.value|) == e.phdr.value
    modifies e, map_
    ensures var v := Env(old(map_[..]), fillByte, true, old(e.dirty), None);
      HasOut(map_[..], v.orig, FileOut(v, e.fmt, old(e.Obj())))
    ensures var o := old(e.Obj());
      e.Obj() == Flushed(o.(scns := SavedAll(o.scns, old(map_[..]), e.fmt, o.ehdr.shoff)), true)
  {
    hide HasOut, Cleared, Sorted, ScnsOut, TableOut, Gap, Block, ScnOk, Saved, ScnMapped, Part, Mapped;
    ghost var o, v := e.Obj(), Env(map_[..], fillByte, true, e.dirty, None);
    NothingYet(map_[..]);
    HeadOutLength(v, e.fmt, o);
    var prev := MapEhdr(e, map_, ehdrMapped, v);
    if e.phdr.Some? {
      prev := MapPhdr(e, map_, phdrAt, prev, v, fillByte, EhdrOut(v, e.fmt, o));
    }
    var last := Max(e.fmt.ehsz, e.ehdr.phoff) + if e.phdr.Some? then |e.phdr.value| else 0;
    if |e.scns| > 0 {
      MapSections(e, map_, fillByte, prev, last, o, v);
    }
    e.dirty := false;
  }

  /** The part of updatemmap after the headers. */
  method MapSections(e: Elf, map_: array<byte>, fillByte: byte, prev: bool, last: nat, ghost o: Object, ghost v: Env)
    requires Writable(e.fmt, o, |v.orig|) && Mapped(e.fmt, o, v.orig) && |o.scns| > 0
    requires o.scns == e.scns && o.ehdr == e.ehdr && v.dirty == e.dirty && v.mapped && v.fill == fillByte
    requires HasOut(map_[..], v.orig, HeadOut(v, e.fmt, o).out) && prev == HeadOut(v, e.fmt, o).prev
    requires last == |HeadOut(v, e.fmt, o).out| == HeadEnd(e.fmt, o)
    modifies e`scns, map_
    ensures HasOut(map_[..], v.orig, FileOut(v, e.fmt, o))
    ensures e.scns == FlagsCleared(ClearedAll(SavedAll(o.scns, v.orig, e.fmt, o.ehdr.shoff)))
  {
    hide HasOut, Sorted, ScnsOut, TableOut, Gap, ScnOk, SavedAll, ClearedAll, FlagsCleared, Mapped, HeadOut, Repeat;
    hide Splice, Writable, TableSize, InPlace, Alike, AllSettled;
    var order := Sorted(e.scns);
    var shdrStart := e.ehdr.shoff;
    var shdrEnd := shdrStart + TableSize(e.fmt, |e.scns|);
    ghost var st := HeadOut(v, e.fmt, o);
    ghost var saved := SavedAll(o.scns, v.orig, e.fmt, o.ehdr.shoff);
    WritableTable(e.fmt, o, |v.orig|);
    SavedWritable(e.fmt, o, v.orig);
    SavedAlike(o.scns, v.orig, e.fmt, o.ehdr.shoff);
    AlikeSorted(saved, o.scns);
    SaveScns(e, map_, o, v.orig, st.out);
    var w := new Mapper(map_, fillByte, shdrStart, shdrEnd, last);
    MapScns(e, w, prev, o.(scns := saved), v, st);
    ghost var out := ScnsOut(v, o.scns, order, |o.scns|, st).out;
    SavedScnsOut(v, o.scns, e.fmt, o.ehdr.shoff, order, |o.scns|, st);
    ScnsOutLength(v, e.fmt, o, |o.scns|, st);
    TailGap(e, map_, fillByte, w.last, v, out);
    ghost var gap := Gap(v, out, e.ehdr.shoff, v.dirty);
    GapEmpty(v, out, e.ehdr.shoff, v.dirty);
    SavedInPlace(e.fmt, o, v.orig);
    ghost var cleared := ClearedAll(saved);
    AlikeTable(v, e.fmt, cleared, o.scns, |o.scns|, gap);
    MapTable(e, map_, cleared, o.scns, v, gap, order);
  }

  /** The gap between the last section and the table. */
  method TailGap(e: Elf, map_: array<byte>, fillByte: byte, last: nat, ghost v: Env, ghost out: seq<byte>)
    requires HasOut(map_[..], v.orig, out) && last == |out| <= e.ehdr.shoff <= |v.orig| && v.dirty == e.dirty
    requires v.fill == fillByte
    modifies map_
    ensures HasOut(map_[..], v.orig, Gap(v, out, e.ehdr.shoff, v.dirty))
  {
    hide HasOut, Repeat, Splice;
    GapEmpty(v, out, e.ehdr.shoff, v.dirty);
    OutIs(map_[..], v.orig, out);
    if e.dirty && last < e.ehdr.shoff {
      WriteNext(v.orig, out, Repeat(fillByte, e.ehdr.shoff - last));
      MemSet(map_, last, fillByte, e.ehdr.shoff - last);
    } else {
      LeaveNext(v.orig, out, e.ehdr.shoff);
    }
  }
}
