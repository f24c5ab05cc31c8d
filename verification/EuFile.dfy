/** updatefile: writes an ELF file through a file descriptor. */
module EuFile {
  import opened Memory
  import opened Options
  import opened EuObject
  import opened EuImage
  import opened EuImageFacts

  const FILLBUFSIZE := 4096

  function Min(a: nat, b: nat): nat { if a < b then a else b }

  /** The file, and what updatefile keeps on its stack. */
  class Writer {
    const file: array<byte>
    const fillbuf: array<byte>
    const fillByte: byte
    var filled: nat
    var last: nat

    constructor (file: array<byte>, fillByte: byte)
      ensures this.file == file && this.fillByte == fillByte && Valid() && fresh(fillbuf)
    {
      this.file, this.fillByte := file, fillByte;
      fillbuf := new byte[FILLBUFSIZE];
      filled, last := 0, 0;
    }

    /** So much of the buffer of fill bytes as is said to be initialised is. */
    ghost predicate Valid()
      reads `filled, fillbuf
    {
      fillbuf != file && filled <= fillbuf.Length == FILLBUFSIZE && fillbuf[..filled] == Repeat(fillByte, filled)
    }

    /** pwrite_retry */
    method Write(bytes: seq<byte>, pos: nat)
      requires Valid() && pos + |bytes| <= file.Length
      modifies file
      ensures Valid() && file[..] == Splice(old(file[..]), pos, bytes)
    {
      MemCpy(file, pos, bytes);
    }

    /** Initialises a few more bytes of the buffer if this many are asked for. */
    method Prepare(len: nat)
      requires Valid()
      modifies fillbuf, `filled
      ensures Valid() && filled >= old(filled) && filled >= Min(len, FILLBUFSIZE)
    {
      var fillLen := Min(len, FILLBUFSIZE);
      if fillLen > filled && filled < FILLBUFSIZE {
        ghost var was := fillbuf[..];
        MemSet(fillbuf, filled, fillByte, fillLen - filled);
        PrefixFilled(was, filled, fillByte, fillLen);
        filled := fillLen;
      }
    }

    lemma Prefix(n: nat)
      requires Valid() && n <= filled
      ensures n <= fillbuf.Length && fillbuf[..n] == Repeat(fillByte, n)
    {
      assert fillbuf[..n] == fillbuf[..filled][..n];
    }

    /**
     * fill(): writes `len` fill bytes in pieces of the buffer's size, after initialising as much of it as is needed.
     */
    method Fill(pos: nat, len: nat)
      requires Valid() && pos + len <= file.Length
      modifies file, fillbuf, `filled
      ensures Valid() && file[..] == Splice(old(file[..]), pos, Repeat(fillByte, len))
    {
      hide Valid, Splice;
      ghost var orig := file[..];
      Prepare(len);
      var at: nat, rest: nat := pos, len;
      NoneYet(orig, pos, fillByte);
      while true
        invariant Valid() && at + rest == pos + len && at >= pos && (rest > 0 ==> filled > 0)
        invariant |orig| == file.Length && file[..] == Splice(orig, pos, Repeat(fillByte, at - pos))
        decreases rest
      {
        var n := Min(filled, rest);
        Prefix(n);
        SpliceMore(orig, pos, fillByte, at - pos, n);
        Write(fillbuf[..n], at);
        at, rest := at + n, rest - n;
        if rest == 0 {
          break;
        }
      }
    }

    /** Fills the gap that there may be in front of a position, or passes over it. */
    method FillTo(start: nat, filling: bool, ghost v: Env, ghost out: seq<byte>)
      requires Valid() && HasOut(file[..], v.orig, out) && last == |out| <= start <= |v.orig| && v.fill == fillByte
      modifies file, fillbuf, this
      ensures Valid() && HasOut(file[..], v.orig, Gap(v, out, start, filling)) && last == start
      ensures |Gap(v, out, start, filling)| == start
    {
      hide Valid, HasOut, Repeat, Splice, Gap, Part;
      FileLength(v.orig, out);
      GapEmpty(v, out, start, filling);
      OutIs(file[..], v.orig, out);
      if start > last && filling {
        WriteNext(v.orig, out, Repeat(fillByte, start - |out|));
        Fill(last, start - last);
      } else {
        LeaveNext(v.orig, out, start);
      }
      last := start;
    }

    /** One data block of a section. */
    method WriteBlock(s: Section, d: Data, dirty: bool, prev: bool, ghost first: bool, ghost low: nat, ghost v: Env,
                      ghost out: seq<byte>)
      requires Valid() && HasOut(file[..], v.orig, out) && last == |out| && v.fill == fillByte && !v.mapped
      requires v.dirty == dirty
      requires BufOk(d, first, low, |v.orig|) && !d.buf.InMap?
      requires |out| <= s.shdr.offset + d.off && s.shdr.offset + d.off + d.size <= |v.orig|
      modifies file, fillbuf, this
      ensures Valid() && HasOut(file[..], v.orig, BlockOut(v, s, d, out, prev))
      ensures last == |BlockOut(v, s, d, out, prev)|
    {
      hide Valid, HasOut, Repeat, Splice, Gap, Part;
      var start := s.shdr.offset + d.off;
      SourceSize(d, first, low, v.orig);
      FillTo(start, (prev && d.off == 0) || s.dirty || d.dirty || dirty, v, out);
      ghost var gap := Gap(v, out, start, FillsGap(v, s, d, prev));
      OutIs(file[..], v.orig, gap);
      if s.dirty || d.dirty || dirty {
        var bytes := if d.buf.Heap? && d.size > 0 then d.buf.bytes else [];
        WriteNext(v.orig, gap, bytes);
        Write(bytes, last);
      } else {
        LeaveNext(v.orig, gap, start + d.size);
      }
      last := last + d.size;
    }

    /** The data blocks of a section. */
    method WriteData(s: Section, dirty: bool, prev: bool, ghost low: nat, ghost v: Env, ghost out: seq<byte>)
      returns (data: seq<Data>, changed: bool)
      requires Valid() && HasOut(file[..], v.orig, out) && last == |out| && v.fill == fillByte && !v.mapped
      requires v.dirty == dirty
      requires s.listed && ScnOk(s, low, |v.orig|) && forall k :: 0 <= k < |s.data| ==> !s.data[k].buf.InMap?
      requires |out| <= s.shdr.offset && s.shdr.offset + s.shdr.size <= |v.orig|
      modifies file, fillbuf, this
      ensures Valid() && HasOut(file[..], v.orig, DataOut(v, s, |s.data|, out, prev))
      ensures last == |DataOut(v, s, |s.data|, out, prev)| && changed == ScnWritten(v, s, |s.data|)
      ensures data == Clean(s.data, |s.data|)
    {
      hide Valid, HasOut, ScnOk, BufOk, BlockOut, Clean;
      data, changed := s.data, false;
      ListedNotEmpty(s, low, |v.orig|);
      CleanOne(s.data, 0);
      var k := 0;
      while k < |s.data|
        invariant k <= |s.data| && data == Clean(s.data, k) && changed == ScnWritten(v, s, k)
        invariant Valid() && HasOut(file[..], v.orig, DataOut(v, s, k, out, prev))
        invariant last == |DataOut(v, s, k, out, prev)|
      {
        BlockFits(s, k, low, |v.orig|);
        DataOutLength(v, s, k, low, out, prev);
        WriteBlock(s, s.data[k], dirty, prev, k == 0, low, v, DataOut(v, s, k, out, prev));
        changed := changed || s.dirty || s.data[k].dirty || dirty;
        CleanOne(s.data, k);
        data := data[k := data[k].(dirty := false)];
        k := k + 1;
      }
    }

    /** One turn of the loop over sections. */
    method WriteScn(s: Section, dirty: bool, prev: bool, ghost low: nat, ghost v: Env, ghost st: State)
      returns (s': Section, prev': bool)
      requires Valid() && HasOut(file[..], v.orig, st.out) && last == |st.out| && prev == st.prev
      requires v.fill == fillByte && !v.mapped && v.dirty == dirty && (s.ndx == 0 ==> !s.dirty)
      requires forall k :: 0 <= k < |s.data| ==> !s.data[k].buf.InMap?
      requires Occupies(s) ==>
        ScnOk(s, low, |v.orig|) && |st.out| <= s.shdr.offset && s.shdr.offset + s.shdr.size <= |v.orig|
      modifies file, fillbuf, this
      ensures Valid() && HasOut(file[..], v.orig, ScnOut(v, s, st).out) && last == |ScnOut(v, s, st).out|
      ensures prev' == ScnOut(v, s, st).prev && s' == Cleared(s, false)
    {
      hide Valid, HasOut, ScnOk, DataOut, ScnWritten, Clean, Splice, Repeat;
      s', prev' := s, prev;
      if s.ndx == 0 {
        assert !s.dirty;
        return;
      }
      if s.shdr.kind.NoBits? {
        return;
      }
      if s.listed {
        var data;
        data, prev' := WriteData(s, dirty, prev, low, v, st.out);
        s' := s.(data := data);
      } else {
        var start := s.shdr.offset;
        ghost var gap := Gap(v, st.out, start, prev);
        FillTo(start, prev, v, st.out);
        OutIs(file[..], v.orig, gap);
        GapEmpty(v, gap, start + s.shdr.size, false);
        LeaveNext(v.orig, gap, start + s.shdr.size);
        last, prev' := start + s.shdr.size, false;
      }
    }
  }

  /** The ELF header. */
  method WriteEhdr(e: Elf, w: Writer, ghost v: Env) returns (prev: bool)
    requires w.Valid() && HasOut(w.file[..], v.orig, []) && v.dirty == e.dirty
    requires e.fmt.Valid() && e.fmt.ehsz <= |v.orig|
    modifies e`ehdrDirty, w.file
    ensures w.Valid() && HasOut(w.file[..], v.orig, EhdrOut(v, e.fmt, old(e.Obj()))) && !e.ehdrDirty
    ensures |EhdrOut(v, e.fmt, old(e.Obj()))| == e.fmt.ehsz
    ensures prev == ((old(e.ehdrDirty) || e.dirty) && e.phdr.None?)
  {
    hide HasOut, Splice, Writer.Valid;
    OutIs(w.file[..], v.orig, []);
    prev := false;
    assert |EhdrBytes(e.fmt, e.ehdr)| == e.fmt.ehsz;
    if e.ehdrDirty || e.dirty {
      WriteNext(v.orig, [], EhdrBytes(e.fmt, e.ehdr));
      w.Write(EhdrBytes(e.fmt, e.ehdr), 0);
      e.ehdrDirty := false;
      prev := e.phdr.None?;
    } else {
      LeaveNext(v.orig, [], e.fmt.ehsz);
    }
  }

  /** The program header table, and the gap that there may be before it. */
  method WritePhdr(e: Elf, w: Writer, prev: bool, ghost v: Env, ghost out: seq<byte>) returns (prev': bool)
    requires w.Valid() && HasOut(w.file[..], v.orig, out) && v.fill == w.fillByte && v.dirty == e.dirty
    requires e.phdr.Some? && e.ehdr.ehsize == |out| <= e.ehdr.phoff && e.ehdr.phoff + |e.phdr.value| <= |v.orig|
    requires !prev
    modifies e`phdrDirty, w.file, w.fillbuf, w
    ensures w.Valid() && !e.phdrDirty && prev' == (old(e.phdrDirty) || e.dirty)
    ensures HasOut(w.file[..], v.orig, Block(v, Gap(v, out, e.ehdr.phoff, prev'), e.phdr.value, |e.phdr.value|, prev'))
  {
    hide HasOut, Splice, Repeat, Writer.Valid;
    prev' := prev;
    ghost var dirty := e.phdrDirty || e.dirty;
    GapEmpty(v, out, e.ehdr.phoff, dirty);
    FileLength(v.orig, out);
    OutIs(w.file[..], v.orig, out);
    if e.phdrDirty || e.dirty {
      WriteNext(v.orig, out, Repeat(w.fillByte, e.ehdr.phoff - |out|));
      if e.ehdr.phoff > e.ehdr.ehsize {
        w.Fill(e.ehdr.ehsize, e.ehdr.phoff - e.ehdr.ehsize);
      }
      ghost var gap := Gap(v, out, e.ehdr.phoff, dirty);
      assert HasOut(w.file[..], v.orig, gap);
      OutIs(w.file[..], v.orig, gap);
      WriteNext(v.orig, gap, e.phdr.value);
      w.Write(e.phdr.value, e.ehdr.phoff);
      e.phdrDirty := false;
      prev' := true;
    } else {
      LeaveNext(v.orig, out, e.ehdr.phoff);
      ghost var gap := Gap(v, out, e.ehdr.phoff, dirty);
      FileLength(v.orig, gap);
      OutIs(w.file[..], v.orig, gap);
      LeaveNext(v.orig, gap, e.ehdr.phoff + |e.phdr.value|);
    }
  }

  ghost predicate InMemory(scns: seq<Section>) {
    forall i :: 0 <= i < |scns| ==> forall k :: 0 <= k < |scns[i].data| ==> !scns[i].data[k].buf.InMap?
  }

  /** The sections after the section loop */
  function TreatedAll(scns: seq<Section>): (r: seq<Section>)
    ensures |r| == |scns| && forall i :: 0 <= i < |r| ==> r[i] == Cleared(scns[i], false).(shdrDirty := false)
  {
    seq(|scns|, i requires 0 <= i < |scns| => Cleared(scns[i], false).(shdrDirty := false))
  }

  /** The headers that it collects */
  function Headers(scns: seq<Section>): (r: seq<Option<Shdr>>)
    ensures |r| == |scns| && forall i :: 0 <= i < |r| ==> r[i] == Some(scns[i].shdr)
  {
    seq(|scns|, i requires 0 <= i < |scns| => Some(scns[i].shdr))
  }

  /** Some section among the first `n` in sorted order has a dirty header. */
  function Flagged(scns: seq<Section>, order: seq<Key>, n: nat): bool
    requires n <= |order| && forall j :: 0 <= j < |order| ==> order[j].ndx < |scns|
  {
    n > 0 && (Flagged(scns, order, n - 1) || scns[order[n - 1].ndx].shdrDirty)
  }

  lemma FlaggedOne(scns: seq<Section>, order: seq<Key>, n: nat)
    requires n <= |order| && forall j :: 0 <= j < |order| ==> order[j].ndx < |scns|
    ensures !Flagged(scns, order, 0)
    ensures n < |order| ==> Flagged(scns, order, n + 1) == (Flagged(scns, order, n) || scns[order[n].ndx].shdrDirty)
  {}

  lemma {:induction false} FlaggedIff(scns: seq<Section>, order: seq<Key>, n: nat)
    requires n <= |order| && forall j :: 0 <= j < |order| ==> order[j].ndx < |scns|
    ensures Flagged(scns, order, n) <==> exists i: nat :: i < |scns| && Done(order, n, i) && scns[i].shdrDirty
  {
    if n > 0 {
      FlaggedIff(scns, order, n - 1);
      var m := order[n - 1].ndx;
      assert Done(order, n, m);
      forall i: nat | i < |scns|
        ensures Done(order, n, i) <==> Done(order, n - 1, i) || i == m
      {}
    }
  }

  /** The headers of the first `n` sections in sorted order have been collected, if they are to be. */
  ghost predicate Gathered(v: Env, scns: seq<Section>, n: nat, table: seq<Option<Shdr>>) {
    && |table| == |scns| && |Sorted(scns)| == |scns| && n <= |scns|
    && (Collects(v) ==> Advanced(table, seq(|scns|, _ => None), Headers(scns), Sorted(scns), n))
  }

  lemma GatherNone(v: Env, scns: seq<Section>, table: seq<Option<Shdr>>)
    requires table == seq(|scns|, _ => None)
    ensures Gathered(v, scns, 0, table)
  {
    hide Sorted, Advanced;
    AdvanceEnds(scns, table, table, Headers(scns));
  }

  lemma GatherOne(v: Env, scns: seq<Section>, n: nat, table: seq<Option<Shdr>>)
    requires Gathered(v, scns, n, table) && n < |scns|
    ensures var i := Sorted(scns)[n].ndx;
      && i < |scns| == |table|
      && Gathered(v, scns, n + 1, if Collects(v) then table[i := Some(scns[i].shdr)] else table)
  {
    hide Sorted, Advanced;
    DoneSteps(scns, n);
    if Collects(v) {
      AdvanceStep(scns, table, seq(|scns|, _ => None), Headers(scns), n);
    }
  }

  lemma GatherAll(v: Env, scns: seq<Section>, table: seq<Option<Shdr>>)
    requires Gathered(v, scns, |scns|, table)
    ensures |table| == |scns| && (Collects(v) ==> table == Headers(scns))
  {
    hide Sorted, Advanced;
    AdvanceEnds(scns, table, seq(|scns|, _ => None), Headers(scns));
  }

  /** The loop over the sections in sorted order, which also collects their headers unless the array is to be used. */
  method WriteScns(e: Elf, w: Writer, prev: bool, ghost o: Object, ghost v: Env, ghost st: State)
    returns (table: seq<Option<Shdr>>, flagged: bool)
    requires Writable(e.fmt, o, |v.orig|) && o.scns == e.scns && InMemory(e.scns)
    requires w.Valid() && HasOut(w.file[..], v.orig, st.out) && w.last == |st.out| == HeadEnd(e.fmt, o)
    requires prev == st.prev
    requires v.fill == w.fillByte && !v.mapped && v.dirty == e.dirty && v.shdrs.None? == e.count.None?
    modifies e`scns, w, w.file, w.fillbuf
    ensures |Sorted(o.scns)| == |o.scns| && forall i :: 0 <= i < |o.scns| ==> Sorted(o.scns)[i].ndx < |o.scns|
    ensures var out := ScnsOut(v, o.scns, Sorted(o.scns), |o.scns|, st).out;
      w.Valid() && HasOut(w.file[..], v.orig, out) && w.last == |out|
    ensures e.scns == TreatedAll(o.scns) && |table| == |o.scns| && (Collects(v) ==> table == Headers(o.scns))
    ensures flagged <==> exists i :: 0 <= i < |o.scns| && o.scns[i].shdrDirty
  {
    SortedKeys(o.scns);
    hide HasOut, Sorted, InOrder, ScnOut, ScnsOut, Writer.Valid, Writable, ScnOk, Done, Occupies, Advanced, Cleared;
    hide TreatedAll, Headers, KeysOf, Compare, Gathered, Flagged;
    ScnsNone(v, o.scns, Sorted(o.scns), st);
    var order := Sorted(e.scns);
    table, flagged := seq(|e.scns|, _ => None), false;
    var prev' := prev;
    var cnt := 0;
    AdvanceEnds(o.scns, e.scns, o.scns, TreatedAll(o.scns));
    GatherNone(v, o.scns, table);
    FlaggedOne(o.scns, order, 0);
    while cnt < |e.scns|
      invariant cnt <= |o.scns| == |e.scns| && Advanced(e.scns, o.scns, TreatedAll(o.scns), order, cnt)
      invariant Gathered(v, o.scns, cnt, table) && flagged == Flagged(o.scns, order, cnt)
      invariant w.Valid() && HasOut(w.file[..], v.orig, ScnsOut(v, o.scns, order, cnt, st).out)
      invariant w.last == |ScnsOut(v, o.scns, order, cnt, st).out| && prev' == ScnsOut(v, o.scns, order, cnt, st).prev
    {
      AdvanceStep(o.scns, e.scns, o.scns, TreatedAll(o.scns), cnt);
      var ndx := order[cnt].ndx;
      var s := e.scns[ndx];
      ScnsOutLength(v, e.fmt, o, cnt, st);
      ReadyScn(e.fmt, o, |v.orig|, ndx);
      ScnsOne(v, o.scns, order, cnt, st);
      var s';
      s', prev' := w.WriteScn(s, e.dirty, prev', HeadEnd(e.fmt, o), v, ScnsOut(v, o.scns, order, cnt, st));
      GatherOne(v, o.scns, cnt, table);
      if e.count.None? || e.dirty {
        table := table[ndx := Some(s.shdr)];
      }
      FlaggedOne(o.scns, order, cnt);
      flagged := flagged || s.shdrDirty;
      e.scns := e.scns[ndx := s'.(shdrDirty := false)];
      cnt := cnt + 1;
    }
    AdvanceEnds(o.scns, e.scns, o.scns, TreatedAll(o.scns));
    GatherAll(v, o.scns, table);
    AllDone(o.scns);
    FlaggedIff(o.scns, order, |o.scns|);
  }

  /** The collected headers as they are written. */
  function TableBytes(c: Format, table: seq<Option<Shdr>>, n: nat): seq<byte>
    requires n <= |table|
  {
    if n == 0 then []
    else TableBytes(c, table, n - 1) + if table[n - 1].Some? then ShdrBytes(c, table[n - 1].value) else []
  }

  lemma {:induction false} TableWritten(v: Env, c: Format, scns: seq<Section>, table: seq<Option<Shdr>>, n: nat,
                                        out: seq<byte>)
    requires c.Valid() && n <= |scns| == |table| && Collects(v)
    requires forall i :: 0 <= i < n ==> table[i] == Some(scns[i].shdr) && EntryWritten(v, scns, i)
    ensures TableOut(v, c, scns, n, out) == out + TableBytes(c, table, n)
    ensures |TableBytes(c, table, n)| == TableSize(c, n)
  {
    hide EntryWritten, TableSize;
    TableSizes(c, 0);
    if n > 0 {
      TableWritten(v, c, scns, table, n - 1, out);
      TableSizes(c, n - 1);
      assert |ShdrBytes(c, scns[n - 1].shdr)| == c.shsz;
    }
  }

  /** What a table taken from the array is. */
  lemma {:induction false} ArrayWritten(v: Env, c: Format, scns: seq<Section>, n: nat, out: seq<byte>)
    requires n <= |scns| && !Collects(v) && TableSize(c, n) <= |v.shdrs.value|
    requires forall i :: 0 <= i < n ==> EntryWritten(v, scns, i)
    ensures TableOut(v, c, scns, n, out) == out + Part(v.shdrs.value, 0, TableSize(c, n))
  {
    hide EntryWritten, TableSize, Part;
    TableSizes(c, 0);
    PartNone(v.shdrs.value, 0);
    TableNone(v, c, scns, out);
    if n > 0 {
      TableSizes(c, n - 1);
      ArrayWritten(v, c, scns, n - 1, out);
      PartSum(out, v.shdrs.value, 0, TableSize(c, n - 1), TableSize(c, n));
    }
  }

  lemma {:induction false} TableLeft(v: Env, c: Format, scns: seq<Section>, n: nat, out: seq<byte>)
    requires n <= |scns| && |out| + TableSize(c, n) <= |v.orig| && forall i :: 0 <= i < n ==> !EntryWritten(v, scns, i)
    ensures TableOut(v, c, scns, n, out) == out + Part(v.orig, |out|, |out| + TableSize(c, n))
  {
    hide EntryWritten, TableSize, Part, TableOut;
    TableSizes(c, 0);
    PartNone(v.orig, |out|);
    TableNone(v, c, scns, out);
    if n > 0 {
      TableSizes(c, n - 1);
      TableLeft(v, c, scns, n - 1, out);
      PartSum(out, v.orig, |out|, |out| + TableSize(c, n - 1), |out| + TableSize(c, n));
      LeftOne(v, c, scns, n - 1, out);
    }
  }

  lemma TableNone(v: Env, c: Format, scns: seq<Section>, out: seq<byte>)
    ensures TableOut(v, c, scns, 0, out) == out == out + []
  {}

  lemma LeftOne(v: Env, c: Format, scns: seq<Section>, n: nat, out: seq<byte>)
    requires n < |scns| && !EntryWritten(v, scns, n)
    ensures var before := TableOut(v, c, scns, n, out);
      TableOut(v, c, scns, n + 1, out) == before + Part(v.orig, |before|, |before| + c.shsz)
  {
    hide EntryWritten, Part;
  }

  /**
   * The gap before the section header table, and the table: the collected headers, or as much memory as they would take
   * from the start of the array on.
   */
  method WriteTable(e: Elf, w: Writer, table: seq<Option<Shdr>>, shdrs: Option<seq<byte>>, flagged: bool,
                    ghost o: Object, ghost v: Env, ghost out: seq<byte>)
    requires w.Valid() && HasOut(w.file[..], v.orig, out) && w.last == |out| <= e.ehdr.shoff
    requires v.fill == w.fillByte && !v.mapped && v.dirty == e.dirty && v.shdrs == shdrs && e.fmt.Valid()
    requires e.ehdr.shoff + TableSize(e.fmt, |table|) <= |v.orig|
    requires |table| == |o.scns| && (Collects(v) ==> table == Headers(o.scns))
    requires shdrs.Some? ==> TableSize(e.fmt, |table|) <= |shdrs.value|
    requires flagged <==> exists i :: 0 <= i < |o.scns| && o.scns[i].shdrDirty
    modifies w.file, w.fillbuf, w
    ensures HasOut(w.file[..], v.orig, TableOut(v, e.fmt, o.scns, |o.scns|, Gap(v, out, e.ehdr.shoff, v.dirty)))
  {
    hide HasOut, Splice, Repeat, Writer.Valid, Gap, Format.Valid, TableSize, TableBytes, TableOut, Part;
    ghost var gap := Gap(v, out, e.ehdr.shoff, v.dirty);
    w.FillTo(e.ehdr.shoff, e.dirty, v, out);
    OutIs(w.file[..], v.orig, gap);
    if flagged || e.dirty {
      var bytes;
      if shdrs.None? || e.dirty {
        bytes := TableBytes(e.fmt, table, |table|);
        TableWritten(v, e.fmt, o.scns, table, |table|, gap);
      } else {
        bytes := Part(shdrs.value, 0, TableSize(e.fmt, |table|));
        ArrayWritten(v, e.fmt, o.scns, |table|, gap);
      }
      WriteNext(v.orig, gap, bytes);
      w.Write(bytes, e.ehdr.shoff);
    } else {
      TableLeft(v, e.fmt, o.scns, |table|, gap);
      LeaveNext(v.orig, gap, e.ehdr.shoff + TableSize(e.fmt, |table|));
    }
  }

  /** The memory from the array of section headers on: the headers of the first sections, and what lies behind them. */
  function ArrayAt(c: Format, scns: seq<Section>, count: Option<nat>, behind: seq<byte>): Option<seq<byte>>
    requires count.Some? ==> count.value <= |scns|
  {
    if count.None? then None else Some(TableBytes(c, Headers(scns), count.value) + behind)
  }

  /** As much memory is behind the array as a table of all sections reaches into. */
  predicate Reachable(c: Format, scns: seq<Section>, count: Option<nat>, behind: seq<byte>) {
    count.Some? ==> count.value <= |scns| && TableSize(c, |scns|) <= TableSize(c, count.value) + |behind|
  }

  lemma ArrayLength(c: Format, scns: seq<Section>, count: Option<nat>, behind: seq<byte>)
    requires c.Valid() && Reachable(c, scns, count, behind)
    ensures var shdrs := ArrayAt(c, scns, count, behind);
      shdrs.None? == count.None? && (shdrs.Some? ==> TableSize(c, |scns|) <= |shdrs.value|)
  {
    hide TableSize;
    if count.Some? {
      TableBytesLength(c, scns, count.value);
    }
  }

  lemma {:induction false} TableBytesLength(c: Format, scns: seq<Section>, n: nat)
    requires c.Valid() && n <= |scns|
    ensures |TableBytes(c, Headers(scns), n)| == TableSize(c, n)
  {
    hide TableSize;
    TableSizes(c, 0);
    if n > 0 {
      TableBytesLength(c, scns, n - 1);
      TableSizes(c, n - 1);
      assert |ShdrBytes(c, scns[n - 1].shdr)| == c.shsz;
    }
  }

  /** The headers in front of the sections. */
  method WriteHeaders(e: Elf, w: Writer, ghost v: Env) returns (prev: bool)
    requires Writable(e.fmt, e.Obj(), |v.orig|) && w.Valid() && w.file[..] == v.orig
    requires v.fill == w.fillByte && v.dirty == e.dirty
    modifies e`ehdrDirty, e`phdrDirty, w, w.file, w.fillbuf
    ensures w.Valid() && HasOut(w.file[..], v.orig, HeadOut(v, e.fmt, old(e.Obj())).out)
    ensures w.last == |HeadOut(v, e.fmt, old(e.Obj())).out| && prev == HeadOut(v, e.fmt, old(e.Obj())).prev
    ensures !e.ehdrDirty && e.phdrDirty == (e.phdr.None? && old(e.phdrDirty))
  {
    hide HasOut, Writer.Valid, Gap, Block, ScnOk, Apart, TableSize;
    ghost var o := e.Obj();
    HeadOutLength(v, e.fmt, o);
    NothingYet(v.orig);
    prev := WriteEhdr(e, w, v);
    if e.phdr.Some? {
      prev := WritePhdr(e, w, prev, v, EhdrOut(v, e.fmt, o));
    }
    w.last := if e.phdr.None? then e.fmt.ehsz else e.ehdr.phoff + |e.phdr.value|;
  }

  /** The sections, and their table. */
  method WriteSections(e: Elf, w: Writer, shdrs: Option<seq<byte>>, prev: bool, ghost o: Object, ghost v: Env)
    requires Writable(e.fmt, o, |v.orig|) && o.scns == e.scns && o.ehdr == e.ehdr && InMemory(e.scns) && |o.scns| > 0
    requires w.Valid() && HasOut(w.file[..], v.orig, HeadOut(v, e.fmt, o).out)
    requires w.last == |HeadOut(v, e.fmt, o).out| && prev == HeadOut(v, e.fmt, o).prev
    requires v.fill == w.fillByte && !v.mapped && v.dirty == e.dirty && v.shdrs == shdrs
    requires shdrs.None? == e.count.None? && (shdrs.Some? ==> TableSize(e.fmt, |e.scns|) <= |shdrs.value|)
    modifies e`scns, w, w.file, w.fillbuf
    ensures HasOut(w.file[..], v.orig, FileOut(v, e.fmt, o))
    ensures e.scns == TreatedAll(o.scns)
  {
    hide HasOut, Writer.Valid, Sorted, ScnsOut, TableOut, Gap, Writable, HeadOut, TableSize, InMemory, Collects;
    ghost var st := HeadOut(v, e.fmt, o);
    HeadOutLength(v, e.fmt, o);
    WritableTable(e.fmt, o, |v.orig|);
    var table, flagged := WriteScns(e, w, prev, o, v, st);
    ScnsOutLength(v, e.fmt, o, |o.scns|, st);
    WriteTable(e, w, table, shdrs, flagged, o, v, ScnsOut(v, o.scns, Sorted(o.scns), |o.scns|, st).out);
  }

  /** updatefile() */
  method UpdateFile(e: Elf, file: array<byte>, fillByte: byte, behind: seq<byte>)
    requires Writable(e.fmt, e.Obj(), file.Length) && InMemory(e.scns)
    requires Reachable(e.fmt, e.scns, e.count, behind)
    modifies e, file
    ensures var shdrs := ArrayAt(e.fmt, old(e.scns), e.count, behind);
      var v := Env(old(file[..]), fillByte, false, old(e.dirty), shdrs);
      HasOut(file[..], v.orig, FileOut(v, e.fmt, old(e.Obj())))
    ensures e.Obj() == Flushed(old(e.Obj()), false)
  {
    hide HasOut, Writer.Valid, Cleared, Sorted, Gap, Writable, ArrayAt, HeadOut, ScnsOut, TableOut, InMemory, TableSize;
    var shdrs := ArrayAt(e.fmt, e.scns, e.count, behind);
    ghost var o, v := e.Obj(), Env(file[..], fillByte, false, e.dirty, shdrs);
    var w := new Writer(file, fillByte);
    var prev := WriteHeaders(e, w, v);
    if |e.scns| > 0 {
      WritableTable(e.fmt, o, file.Length);
      ArrayLength(e.fmt, e.scns, e.count, behind);
      WriteSections(e, w, shdrs, prev, o, v);
    }
    e.dirty := false;
  }

  lemma PrefixFilled(s: seq<byte>, filled: nat, c: byte, n: nat)
    requires filled <= n <= |s| && s[..filled] == Repeat(c, filled)
    ensures Splice(s, filled, Repeat(c, n - filled))[..n] == Repeat(c, n)
  {
    var t := Splice(s, filled, Repeat(c, n - filled));
    forall i | 0 <= i < n
      ensures t[i] == c
    {
      if i < filled {
        assert s[..filled][i] == c;
      } else {
        assert t[filled..n][i - filled] == c;
      }
    }
  }

  lemma NoneYet(s: seq<byte>, pos: nat, c: byte)
    requires pos <= |s|
    ensures Splice(s, pos, Repeat(c, 0)) == s
  {}

  lemma SpliceMore(s: seq<byte>, pos: nat, c: byte, m: nat, n: nat)
    requires pos + m + n <= |s|
    ensures Splice(Splice(s, pos, Repeat(c, m)), pos + m, Repeat(c, n)) == Splice(s, pos, Repeat(c, m + n))
  {}
}
