/** The file that elfutils' two writers leave behind, with and without the dirty flags of parts of the file. */
module EuImage {
  import opened Memory
  import opened Options
  import opened EuObject
  import MergeSpec

  // ----- sort_sections

  datatype Key = Key(offset: nat, size: nat, ndx: nat)

  /** compare_sections */
  function Compare(a: Key, b: Key): int {
    if a.offset < b.offset then -1
    else if a.offset > b.offset then 1
    else if a.size < b.size then -1
    else if a.size > b.size then 1
    else if a.ndx < b.ndx then -1
    else if a.ndx > b.ndx then 1
    else 0
  }

  function KeysOf(scns: seq<Section>): (r: seq<Key>)
    ensures |r| == |scns|
    ensures forall i :: 0 <= i < |r| ==> r[i] == Key(scns[i].shdr.offset, scns[i].shdr.size, i)
  {
    seq(|scns|, i requires 0 <= i < |scns| => Key(scns[i].shdr.offset, scns[i].shdr.size, i))
  }

  /** The keys of all sections, sorted; any sort would do, see SortUnique. */
  function Sorted(scns: seq<Section>): seq<Key> {
    MergeSpec.Sort(Compare, KeysOf(scns), 1)
  }

  predicate InOrder(ks: seq<Key>) {
    forall i, j :: 0 <= i < j < |ks| ==> Compare(ks[i], ks[j]) <= 0
  }

  /** Sections come in the order of their offsets, then of their sizes, then of their indices. */
  lemma CompareIs(a: Key, b: Key)
    ensures Compare(a, b) < 0 <==>
      a.offset < b.offset || (a.offset == b.offset && (a.size < b.size || (a.size == b.size && a.ndx < b.ndx)))
    ensures Compare(a, b) == -Compare(b, a)
  {}

  lemma CompareOrders()
    ensures forall dom :: MergeSpec.Orders(Compare, dom)
    ensures forall a, b :: Compare(a, b) <= 0 && Compare(b, a) <= 0 ==> a == b
  {}

  /** The sorted keys are those of the sections, each once. */
  lemma SortedKeys(scns: seq<Section>)
    ensures InOrder(Sorted(scns)) && multiset(Sorted(scns)) == multiset(KeysOf(scns)) && |Sorted(scns)| == |scns|
    ensures forall i :: 0 <= i < |scns| ==>
      var k := Sorted(scns)[i];
      k.ndx < |scns| && k == Key(scns[k.ndx].shdr.offset, scns[k.ndx].shdr.size, k.ndx)
    ensures forall i, j :: 0 <= i < j < |scns| ==> Sorted(scns)[i].ndx != Sorted(scns)[j].ndx
  {
    hide Compare, MergeSpec.Orders;
    CompareOrders();
    var dom := set k | k in KeysOf(scns);
    MergeSpec.SortIsStableSort(Compare, dom, KeysOf(scns));
    SameKeys(Sorted(scns), KeysOf(scns));
  }

  lemma SameKeys(r: seq<Key>, ks: seq<Key>)
    requires multiset(r) == multiset(ks) && forall i :: 0 <= i < |ks| ==> ks[i].ndx == i
    ensures |r| == |ks| && forall i :: 0 <= i < |r| ==> r[i].ndx < |ks| && r[i] == ks[r[i].ndx]
    ensures forall i, j :: 0 <= i < j < |r| ==> r[i].ndx != r[j].ndx
  {
    assert |multiset(r)| == |r| && |multiset(ks)| == |ks|;
    forall i | 0 <= i < |r|
      ensures r[i].ndx < |ks| && r[i] == ks[r[i].ndx]
    {
      assert r[i] in multiset(r);
      assert r[i] in ks;
    }
    forall i, j | 0 <= i < j < |r|
      ensures r[i].ndx != r[j].ndx
    {
      OnceIn(ks, r[i]);
      if r[i] == r[j] {
        TwiceIn(r, i, j);
      }
    }
  }

  lemma TwiceIn<T>(s: seq<T>, i: nat, j: nat)
    requires i < j < |s| && s[i] == s[j]
    ensures multiset(s)[s[i]] >= 2
  {
    assert s == s[..i] + [s[i]] + s[i + 1..j] + [s[j]] + s[j + 1..];
  }

  lemma {:induction false} OnceIn(s: seq<Key>, k: Key)
    requires forall i :: 0 <= i < |s| ==> s[i].ndx == i
    ensures multiset(s)[k] <= 1
  {
    if |s| > 0 {
      var t := s[..|s| - 1];
      assert s == t + [s[|s| - 1]];
      OnceIn(t, k);
      if s[|s| - 1] == k {
        NotIn(t, k);
      }
    }
  }

  lemma NotIn(t: seq<Key>, k: Key)
    requires forall i :: 0 <= i < |t| ==> t[i].ndx == i
    requires k.ndx >= |t|
    ensures multiset(t)[k] == 0
  {
    assert k !in t;
  }

  lemma Antisymmetric(a: Key, b: Key)
    requires Compare(a, b) <= 0 && Compare(b, a) <= 0
    ensures a == b
  {}

  lemma LeastFirst(s: seq<Key>, k: Key)
    requires InOrder(s) && k in s
    ensures |s| > 0 && Compare(s[0], k) <= 0
  {
    var j :| 0 <= j < |s| && s[j] == k;
    assert j == 0 || Compare(s[0], s[j]) <= 0;
  }

  lemma SameHead(s: seq<Key>, t: seq<Key>)
    requires InOrder(s) && InOrder(t) && multiset(s) == multiset(t) && |s| > 0
    ensures |t| > 0 && s[0] == t[0]
    ensures multiset(s[1..]) == multiset(t[1..])
  {
    hide Compare, InOrder;
    assert s[0] in multiset(s);
    LeastFirst(t, s[0]);
    assert t[0] in multiset(t);
    LeastFirst(s, t[0]);
    Antisymmetric(s[0], t[0]);
    assert s == [s[0]] + s[1..] && t == [t[0]] + t[1..];
    assert multiset(s[1..]) == multiset(s) - multiset{s[0]};
    assert multiset(t[1..]) == multiset(t) - multiset{t[0]};
  }

  /** There is only one sorted arrangement of the sections, so it does not matter how qsort works. */
  lemma {:induction false} SortUnique(s: seq<Key>, t: seq<Key>)
    requires InOrder(s) && InOrder(t) && multiset(s) == multiset(t)
    ensures s == t
    decreases |s|
  {
    hide Compare;
    if |s| == 0 {
      assert |t| == |multiset(t)|;
    } else {
      SameHead(s, t);
      SortUnique(s[1..], t[1..]);
      assert s == [s[0]] + s[1..] && t == [t[0]] + t[1..];
    }
  }

  // ----- what a writer writes

  /**
   * The file before, what gaps are filled with, which of the two writers it is, and the memory from the start of the
   * array of section headers on, if there is one.
   */
  datatype Env = Env(orig: seq<byte>, fill: byte, mapped: bool, dirty: bool, shdrs: Option<seq<byte>>)

  predicate Occupies(s: Section) {
    s.ndx != 0 && !s.shdr.kind.NoBits?
  }

  function Part(s: seq<byte>, from: nat, to: nat): (r: seq<byte>)
    ensures from <= to <= |s| ==> |r| == to - from && forall i :: 0 <= i < |r| ==> r[i] == s[from + i]
  {
    if from <= to <= |s| then s[from..to] else []
  }

  /** The bytes of a data block; a block in the mapping has those that were there before anything was written. */
  function Source(d: Data, orig: seq<byte>): seq<byte> {
    if d.size == 0 then [] else
    match d.buf
    case NoBuf => []
    case Heap(bytes) => bytes
    case InMap(from) => Part(orig, from, from + d.size)
  }

  /** The output extended up to a position, with fill bytes or with what is there. */
  function Gap(v: Env, out: seq<byte>, to: nat, filled: bool): (r: seq<byte>)
    ensures |out| <= to <= |v.orig| ==> |r| == to
  {
    if !(|out| <= to <= |v.orig|) then out
    else out + if filled then Repeat(v.fill, to - |out|) else Part(v.orig, |out|, to)
  }

  /** The output after a data block or a record of `n` bytes, which is written or left as it is. */
  function Block(v: Env, out: seq<byte>, bytes: seq<byte>, n: nat, written: bool): (r: seq<byte>)
    ensures |bytes| == n && |out| + n <= |v.orig| ==> |r| == |out| + n
  {
    out + if written then bytes else Part(v.orig, |out|, |out| + n)
  }

  function BlockDirty(v: Env, s: Section, d: Data): bool { s.dirty || d.dirty || v.dirty }

  /** Whether the gap before a data block is filled: the mapped writer does not ask about the section before. */
  function FillsGap(v: Env, s: Section, d: Data, prev: bool): bool {
    BlockDirty(v, s, d) || (d.off == 0 && (v.mapped || prev))
  }

  function BlockOut(v: Env, s: Section, d: Data, out: seq<byte>, prev: bool): seq<byte> {
    var gap := Gap(v, out, s.shdr.offset + d.off, FillsGap(v, s, d, prev));
    Block(v, gap, Source(d, v.orig), d.size, BlockDirty(v, s, d))
  }

  function DataOut(v: Env, s: Section, n: nat, out: seq<byte>, prev: bool): seq<byte>
    requires n <= |s.data|
  {
    if n == 0 then out
    else
      BlockOut(v, s, s.data[n - 1], DataOut(v, s, n - 1, out, prev), prev)
  }

  /** Whether one of the first `n` blocks is written. */
  function ScnWritten(v: Env, s: Section, n: nat): bool
    requires n <= |s.data|
  {
    n > 0 && (ScnWritten(v, s, n - 1) || BlockDirty(v, s, s.data[n - 1]))
  }

  /** The output so far, and whether the last section has changed. */
  datatype State = State(out: seq<byte>, prev: bool)

  function ScnOut(v: Env, s: Section, st: State): State {
    if !Occupies(s) then st
    else if s.listed then State(DataOut(v, s, |s.data|, st.out, st.prev), ScnWritten(v, s, |s.data|))
    else State(Gap(v, Gap(v, st.out, s.shdr.offset, st.prev), s.shdr.offset + s.shdr.size, false), false)
  }

  /** The sections in sorted order, the first `n` of them */
  function ScnsOut(v: Env, scns: seq<Section>, order: seq<Key>, n: nat, st: State): State
    requires n <= |order| && forall i :: 0 <= i < |order| ==> order[i].ndx < |scns|
  {
    if n == 0 then st else ScnOut(v, scns[order[n - 1].ndx], ScnsOut(v, scns, order, n - 1, st))
  }

  function EhdrOut(v: Env, c: Format, o: Object): seq<byte> {
    Block(v, [], EhdrBytes(c, o.ehdr), c.ehsz, o.ehdrDirty || v.dirty)
  }

  function HeadOut(v: Env, c: Format, o: Object): State {
    var e := EhdrOut(v, c, o);
    if o.phdr.None? then State(e, o.ehdrDirty || v.dirty)
    else
      var dirty := o.phdrDirty || v.dirty;
      State(Block(v, Gap(v, e, o.ehdr.phoff, dirty), o.phdr.value, |o.phdr.value|, dirty), dirty)
  }

  /** Whether the header of section `i` is written: a file gets the whole table or none of it. */
  predicate EntryWritten(v: Env, scns: seq<Section>, i: nat)
    requires i < |scns|
  {
    v.dirty || if v.mapped then scns[i].shdrDirty else exists j :: 0 <= j < |scns| && scns[j].shdrDirty
  }

  /** Whether the table is made of the headers of the sections; otherwise it is what is found at the array. */
  predicate Collects(v: Env) { v.mapped || v.dirty || v.shdrs.None? }

  function EntryBytes(v: Env, c: Format, scns: seq<Section>, i: nat): seq<byte>
    requires i < |scns|
  {
    if Collects(v) then ShdrBytes(c, scns[i].shdr)
    else Part(v.shdrs.value, TableSize(c, i), TableSize(c, i) + c.shsz)
  }

  function TableOut(v: Env, c: Format, scns: seq<Section>, n: nat, out: seq<byte>): seq<byte>
    requires n <= |scns|
  {
    if n == 0 then out
    else
      var before := TableOut(v, c, scns, n - 1, out);
      Block(v, before, EntryBytes(v, c, scns, n - 1), c.shsz, EntryWritten(v, scns, n - 1))
  }

  /** Everything up to the end of the section header table */
  function FileOut(v: Env, c: Format, o: Object): seq<byte> {
    if |o.scns| == 0 then HeadOut(v, c, o).out
    else
      SortedKeys(o.scns);
      var st := ScnsOut(v, o.scns, Sorted(o.scns), |o.scns|, HeadOut(v, c, o));
      TableOut(v, c, o.scns, |o.scns|, Gap(v, st.out, o.ehdr.shoff, v.dirty))
  }

  // ----- when it can be written

  function TableSize(c: Format, n: nat): nat { n * c.shsz }

  lemma TableSizes(c: Format, n: nat)
    ensures TableSize(c, 0) == 0 && TableSize(c, n + 1) == TableSize(c, n) + c.shsz
  {}

  lemma {:induction false} TableSizeOrder(c: Format, i: nat, n: nat)
    requires i < n
    ensures TableSize(c, i) + c.shsz <= TableSize(c, n)
    decreases n
  {
    hide TableSize;
    TableSizes(c, n - 1);
    if i < n - 1 {
      TableSizeOrder(c, i, n - 1);
    }
  }

  function HeadEnd(c: Format, o: Object): nat {
    if o.phdr.None? then c.ehsz else o.ehdr.phoff + |o.phdr.value|
  }

  /** A data block's bytes are at hand; in the mapping only for a first block, and not in the header area. */
  predicate BufOk(d: Data, first: bool, low: nat, high: nat) {
    d.size == 0
    || (d.buf.Heap? && |d.buf.bytes| == d.size)
    || (d.buf.InMap? && first && low <= d.buf.from && d.buf.from + d.size <= high)
  }

  /** The data blocks of a section lie in it, one after the other. */
  ghost predicate ScnOk(s: Section, low: nat, high: nat) {
    s.listed ==>
      && |s.data| > 0 && s.data[0].off == 0
      && (forall k :: 0 <= k < |s.data| ==>
            s.data[k].off + s.data[k].size <= s.shdr.size && BufOk(s.data[k], k == 0, low, high))
      && (forall j, k :: 0 <= j < k < |s.data| ==> s.data[j].off + s.data[j].size <= s.data[k].off)
  }

  /** A layout without overlap, with the section header table last, that fits the file. */
  ghost predicate Writable(c: Format, o: Object, length: nat) {
    && c.Valid() && Indexed(o.scns) && (|o.scns| > 0 ==> !o.scns[0].dirty) && o.ehdr.ehsize == c.ehsz
    && o.ehdr.shentsize == c.shsz
    && (if o.phdr.None? then o.ehdr.phoff == 0 else c.ehsz <= o.ehdr.phoff)
    && HeadEnd(c, o) <= length
    && (|o.scns| > 0 ==> HeadEnd(c, o) <= o.ehdr.shoff && o.ehdr.shoff + TableSize(c, |o.scns|) <= length)
    && (forall i :: 0 <= i < |o.scns| && Occupies(o.scns[i]) ==>
          && HeadEnd(c, o) <= o.scns[i].shdr.offset && o.scns[i].shdr.offset + o.scns[i].shdr.size <= o.ehdr.shoff
          && ScnOk(o.scns[i], HeadEnd(c, o), length))
    && (forall i, j :: 0 <= i < j < |o.scns| && Occupies(o.scns[i]) && Occupies(o.scns[j]) ==>
          Apart(o.scns[i].shdr, o.scns[j].shdr))
  }

  /** One section ends before the other starts. */
  predicate Apart(s: Shdr, t: Shdr) {
    s.offset + s.size <= t.offset || t.offset + t.size <= s.offset
  }

  /** In sorted order, sections that are apart follow each other. */
  lemma SortedIsAscending(scns: seq<Section>, i: nat, j: nat)
    requires Indexed(scns) && i < j < |scns|
    requires forall i, j :: 0 <= i < j < |scns| && Occupies(scns[i]) && Occupies(scns[j]) ==>
      Apart(scns[i].shdr, scns[j].shdr)
    ensures |Sorted(scns)| == |scns|
    ensures var a, b := Sorted(scns)[i].ndx, Sorted(scns)[j].ndx;
      a < |scns| && b < |scns| &&
      (Occupies(scns[a]) && Occupies(scns[b]) ==> scns[a].shdr.offset + scns[a].shdr.size <= scns[b].shdr.offset)
  {
    SortedKeys(scns);
    var a, b := Sorted(scns)[i].ndx, Sorted(scns)[j].ndx;
    assert Compare(Sorted(scns)[i], Sorted(scns)[j]) <= 0;
    hide Sorted, InOrder;
    assert Occupies(scns[a]) && Occupies(scns[b]) ==> Apart(scns[a].shdr, scns[b].shdr);
  }

  // ----- flags

  /** A section once its contents have been dealt with: only the mapped writer clears the flag of the section itself. */
  function Cleared(s: Section, mapped: bool): Section {
    if s.ndx == 0 then s
    else
      var s' := if mapped then s.(dirty := false) else s;
      if s.shdr.kind.NoBits? || !s.listed then s'
      else s'.(data := Clean(s.data, |s.data|))
  }

  function Clean(data: seq<Data>, n: nat): (r: seq<Data>)
    requires n <= |data|
    ensures |r| == |data|
  {
    seq(|data|, k requires 0 <= k < |data| => if k < n then data[k].(dirty := false) else data[k])
  }

  lemma CleanOne(data: seq<Data>, n: nat)
    requires n < |data|
    ensures Clean(data, 0) == data && Clean(data, n)[n] == data[n]
    ensures Clean(data, n + 1) == Clean(data, n)[n := data[n].(dirty := false)]
  {}

  /** The descriptor after a successful write. */
  function Flushed(o: Object, mapped: bool): (r: Object)
    ensures |r.scns| == |o.scns|
  {
    Object(o.ehdr, false, o.phdr, o.phdr.None? && o.phdrDirty,
           seq(|o.scns|, i requires 0 <= i < |o.scns| => Cleared(o.scns[i], mapped).(shdrDirty := false)), false)
  }

  /** The flags of all that may have been written are cleared, those of sections only in the mapping; the rest stays. */
  lemma FlushedFields(o: Object, mapped: bool, i: nat)
    ensures var r := Flushed(o, mapped);
      && r.ehdr == o.ehdr && !r.ehdrDirty && r.phdr == o.phdr && r.phdrDirty == (o.phdr.None? && o.phdrDirty)
      && !r.dirty
    ensures i < |o.scns| ==>
      var s, s' := o.scns[i], Flushed(o, mapped).scns[i];
      && s' == s.(dirty := s'.dirty, shdrDirty := false, data := s'.data) && |s'.data| == |s.data|
      && s'.dirty == (s.dirty && !(mapped && s.ndx != 0))
      && forall k :: 0 <= k < |s.data| ==>
        s'.data[k] == s.data[k].(dirty := s.data[k].dirty && (s.ndx == 0 || s.shdr.kind == NoBits || !s.listed))
  {}

  /** Section `i` is among the first `n` in sorted order. */
  predicate Done(order: seq<Key>, n: nat, i: nat)
    requires n <= |order|
  {
    exists j :: 0 <= j < n && order[j].ndx == i
  }

  lemma DoneSteps(scns: seq<Section>, n: nat)
    requires n < |scns|
    ensures |Sorted(scns)| == |scns| && Sorted(scns)[n].ndx < |scns|
    ensures forall i: nat :: !Done(Sorted(scns), 0, i)
    ensures !Done(Sorted(scns), n, Sorted(scns)[n].ndx)
    ensures forall i: nat :: Done(Sorted(scns), n + 1, i) <==> Done(Sorted(scns), n, i) || i == Sorted(scns)[n].ndx
  {
    SortedKeys(scns);
    hide Sorted, InOrder;
  }

  lemma AllDone(scns: seq<Section>)
    ensures |Sorted(scns)| == |scns| && forall i: nat :: i < |scns| ==> Done(Sorted(scns), |scns|, i)
  {
    SortedKeys(scns);
    var r, ks := Sorted(scns), KeysOf(scns);
    hide Sorted, InOrder;
    forall i: nat | i < |scns|
      ensures Done(r, |scns|, i)
    {
      assert ks[i] in multiset(ks);
      assert ks[i] in r;
      var j :| 0 <= j < |r| && r[j] == ks[i];
      assert r[j].ndx == i;
    }
  }

  /** Of the elements that belong to the sections, those that a loop in sorted order has come by have become others. */
  ghost predicate Advanced<T>(now: seq<T>, was: seq<T>, become: seq<T>, order: seq<Key>, n: nat)
    requires n <= |order|
  {
    && |now| == |was| == |become|
    && forall i :: 0 <= i < |was| ==> now[i] == if Done(order, n, i) then become[i] else was[i]
  }

  lemma AdvanceStep<T>(scns: seq<Section>, now: seq<T>, was: seq<T>, become: seq<T>, n: nat)
    requires n < |scns| == |was| && |Sorted(scns)| == |scns| && Advanced(now, was, become, Sorted(scns), n)
    ensures var i := Sorted(scns)[n].ndx;
      i < |was| && now[i] == was[i] && Advanced(now[i := become[i]], was, become, Sorted(scns), n + 1)
  {
    hide Sorted, Done;
    DoneSteps(scns, n);
  }

  lemma AdvanceEnds<T>(scns: seq<Section>, now: seq<T>, was: seq<T>, become: seq<T>)
    requires |was| == |become| == |scns|
    ensures |Sorted(scns)| == |scns|
    ensures now == was ==> Advanced(now, was, become, Sorted(scns), 0)
    ensures Advanced(now, was, become, Sorted(scns), |scns|) ==> now == become
  {
    AllDone(scns);
    hide Sorted;
  }
}
