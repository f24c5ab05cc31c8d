/** Lengths of the output as it grows, and how one step of a writer extends it. */
module EuImageFacts {
  import opened Memory
  import opened EuObject
  import opened EuImage

  /** A file that holds the output so far, and is otherwise as it was. */
  ghost predicate HasOut(file: seq<byte>, orig: seq<byte>, out: seq<byte>) {
    |out| <= |orig| && file == out + orig[|out|..]
  }

  lemma NothingYet(file: seq<byte>)
    ensures HasOut(file, file, [])
  {
    assert file[0..] == file;
  }

  lemma OutIs(file: seq<byte>, orig: seq<byte>, out: seq<byte>)
    requires HasOut(file, orig, out)
    ensures |out| <= |orig| == |file| && file == out + orig[|out|..]
  {}

  /** Writing right after the output so far extends it. */
  lemma WriteNext(orig: seq<byte>, out: seq<byte>, bytes: seq<byte>)
    requires |out| + |bytes| <= |orig|
    ensures HasOut(Splice(out + orig[|out|..], |out|, bytes), orig, out + bytes)
  {}

  /** So does leaving what is there. */
  lemma LeaveNext(orig: seq<byte>, out: seq<byte>, to: nat)
    requires |out| <= to <= |orig|
    ensures HasOut(out + orig[|out|..], orig, out + Part(orig, |out|, to))
  {}

  lemma FileLength(orig: seq<byte>, out: seq<byte>)
    ensures |out| <= |orig| ==> |out + orig[|out|..]| == |orig|
  {}

  lemma PartNone(s: seq<byte>, a: nat)
    requires a <= |s|
    ensures Part(s, a, a) == []
  {}

  lemma PartSum(out: seq<byte>, s: seq<byte>, a: nat, b: nat, c: nat)
    requires a <= b <= c <= |s|
    ensures |Part(s, a, b)| == b - a && Part(s, a, b) + Part(s, b, c) == Part(s, a, c)
    ensures out + Part(s, a, b) + Part(s, b, c) == out + Part(s, a, c)
  {}

  /** A gap of no bytes is the same filled or not. */
  lemma GapEmpty(v: Env, out: seq<byte>, to: nat, filled: bool)
    requires |out| <= to <= |v.orig|
    ensures to == |out| ==> Gap(v, out, to, filled) == out
    ensures |Gap(v, out, to, filled)| == to
    ensures Gap(v, out, to, filled) == out + if filled then Repeat(v.fill, to - |out|) else Part(v.orig, |out|, to)
  {}

  lemma SourceSize(d: Data, first: bool, low: nat, orig: seq<byte>)
    requires BufOk(d, first, low, |orig|)
    ensures |Source(d, orig)| == d.size
  {}

  lemma BlockOutLength(v: Env, s: Section, d: Data, first: bool, low: nat, out: seq<byte>, prev: bool)
    requires BufOk(d, first, low, |v.orig|)
    requires |out| <= s.shdr.offset + d.off && s.shdr.offset + d.off + d.size <= |v.orig|
    ensures |BlockOut(v, s, d, out, prev)| == s.shdr.offset + d.off + d.size
  {
    SourceSize(d, first, low, v.orig);
  }

  /** The blocks in front of block `n` end where it starts, or before. */
  lemma BlockFits(s: Section, n: nat, low: nat, high: nat)
    requires s.listed && n < |s.data| && ScnOk(s, low, high)
    ensures s.data[n].off + s.data[n].size <= s.shdr.size && BufOk(s.data[n], n == 0, low, high)
    ensures n > 0 ==> s.data[n - 1].off + s.data[n - 1].size <= s.data[n].off
    ensures n == 0 ==> s.data[n].off == 0
  {}

  /** The output ends where the last data block does. */
  lemma {:induction false} DataOutLength(v: Env, s: Section, n: nat, low: nat, out: seq<byte>, prev: bool)
    requires s.listed && n <= |s.data| && ScnOk(s, low, |v.orig|)
    requires |out| <= s.shdr.offset && s.shdr.offset + s.shdr.size <= |v.orig|
    ensures |DataOut(v, s, n, out, prev)| ==
      if n == 0 then |out| else s.shdr.offset + s.data[n - 1].off + s.data[n - 1].size
  {
    hide BlockOut, ScnOk, BufOk;
    if n > 0 {
      DataOutLength(v, s, n - 1, low, out, prev);
      BlockFits(s, n - 1, low, |v.orig|);
      if n > 1 {
        BlockFits(s, n - 2, low, |v.orig|);
      }
      BlockOutLength(v, s, s.data[n - 1], n == 1, low, DataOut(v, s, n - 1, out, prev), prev);
    }
  }

  /** A section ends the output in itself. */
  lemma ScnOutLength(v: Env, s: Section, low: nat, st: State)
    requires Occupies(s) && ScnOk(s, low, |v.orig|)
    requires |st.out| <= s.shdr.offset && s.shdr.offset + s.shdr.size <= |v.orig|
    ensures |st.out| <= |ScnOut(v, s, st).out| <= s.shdr.offset + s.shdr.size
  {
    hide DataOut, ScnWritten, ScnOk, BufOk;
    if s.listed {
      DataOutLength(v, s, |s.data|, low, st.out, st.prev);
      ListedNotEmpty(s, low, |v.orig|);
      BlockFits(s, |s.data| - 1, low, |v.orig|);
    }
  }

  lemma ListedNotEmpty(s: Section, low: nat, high: nat)
    requires s.listed && ScnOk(s, low, high)
    ensures |s.data| > 0
  {}

  lemma WritableScn(c: Format, o: Object, length: nat, i: nat)
    requires Writable(c, o, length) && i < |o.scns| && Occupies(o.scns[i])
    ensures HeadEnd(c, o) <= o.scns[i].shdr.offset && ScnOk(o.scns[i], HeadEnd(c, o), length)
    ensures o.scns[i].shdr.offset + o.scns[i].shdr.size <= o.ehdr.shoff <= length
  {
    hide ScnOk, BufOk, Apart;
  }

  lemma WritableTable(c: Format, o: Object, length: nat)
    requires Writable(c, o, length) && |o.scns| > 0
    ensures c.Valid() && c.shsz > 0 && Indexed(o.scns) && o.ehdr.shoff + TableSize(c, |o.scns|) <= length
  {
    hide ScnOk, Apart, TableSize;
  }

  lemma ScnsNone(v: Env, scns: seq<Section>, order: seq<Key>, st: State)
    requires forall i :: 0 <= i < |order| ==> order[i].ndx < |scns|
    ensures ScnsOut(v, scns, order, 0, st) == st
  {}

  lemma ScnsOne(v: Env, scns: seq<Section>, order: seq<Key>, n: nat, st: State)
    requires n < |order| && forall i :: 0 <= i < |order| ==> order[i].ndx < |scns|
    ensures ScnsOut(v, scns, order, n + 1, st) == ScnOut(v, scns[order[n].ndx], ScnsOut(v, scns, order, n, st))
  {
    hide ScnOut;
  }

  /** The output of the first `n` sections in sorted order ends before any later one starts, and before the table. */
  lemma {:induction false} ScnsOutLength(v: Env, c: Format, o: Object, n: nat, st: State)
    requires Writable(c, o, |v.orig|) && n <= |o.scns| && |st.out| == HeadEnd(c, o)
    ensures |Sorted(o.scns)| == |o.scns| && forall i :: 0 <= i < |o.scns| ==> Sorted(o.scns)[i].ndx < |o.scns|
    ensures var out := ScnsOut(v, o.scns, Sorted(o.scns), n, st).out;
      && HeadEnd(c, o) <= |out| <= |v.orig| && (|o.scns| > 0 ==> |out| <= o.ehdr.shoff)
      && forall j :: n <= j < |o.scns| && Occupies(o.scns[Sorted(o.scns)[j].ndx]) ==>
        |out| <= o.scns[Sorted(o.scns)[j].ndx].shdr.offset
  {
    SortedKeys(o.scns);
    hide Sorted, InOrder, ScnOut, ScnOk, Occupies, Compare;
    var order := Sorted(o.scns);
    if n == 0 {
      forall j | 0 <= j < |o.scns| && Occupies(o.scns[order[j].ndx])
        ensures |st.out| <= o.scns[order[j].ndx].shdr.offset
      {
        WritableScn(c, o, |v.orig|, order[j].ndx);
      }
    } else {
      ScnsOutLength(v, c, o, n - 1, st);
      var s, before := o.scns[order[n - 1].ndx], ScnsOut(v, o.scns, order, n - 1, st);
      if Occupies(s) {
        WritableScn(c, o, |v.orig|, order[n - 1].ndx);
        ScnOutLength(v, s, HeadEnd(c, o), before);
        forall j | n <= j < |o.scns| && Occupies(o.scns[order[j].ndx])
          ensures s.shdr.offset + s.shdr.size <= o.scns[order[j].ndx].shdr.offset
        {
          Ascending(c, o, |v.orig|, n - 1, j);
        }
      } else {
        SkippedScn(v, s, before);
      }
    }
  }

  lemma SkippedScn(v: Env, s: Section, st: State)
    requires !Occupies(s)
    ensures ScnOut(v, s, st) == st
  {}

  lemma Ascending(c: Format, o: Object, length: nat, i: nat, j: nat)
    requires Writable(c, o, length) && i < j < |o.scns|
    ensures |Sorted(o.scns)| == |o.scns|
    ensures var a, b := Sorted(o.scns)[i].ndx, Sorted(o.scns)[j].ndx;
      a < |o.scns| && b < |o.scns| &&
      (Occupies(o.scns[a]) && Occupies(o.scns[b]) ==>
         o.scns[a].shdr.offset + o.scns[a].shdr.size <= o.scns[b].shdr.offset)
  {
    hide ScnOk, Sorted, Compare, InOrder;
    SortedIsAscending(o.scns, i, j);
  }

  /** The headers end where the sections may start. */
  lemma HeadOutLength(v: Env, c: Format, o: Object)
    requires Writable(c, o, |v.orig|)
    ensures |HeadOut(v, c, o).out| == HeadEnd(c, o) && |EhdrOut(v, c, o)| == c.ehsz
  {
    hide ScnOk, Apart;
    assert |EhdrBytes(c, o.ehdr)| == c.ehsz;
  }

  lemma ReadyScn(c: Format, o: Object, length: nat, i: nat)
    requires Writable(c, o, length) && i < |o.scns|
    ensures o.scns[i].ndx == 0 ==> !o.scns[i].dirty
    ensures Occupies(o.scns[i]) ==>
      && ScnOk(o.scns[i], HeadEnd(c, o), length) && HeadEnd(c, o) <= o.scns[i].shdr.offset
      && o.scns[i].shdr.offset + o.scns[i].shdr.size <= o.ehdr.shoff <= length
  {
    hide ScnOk, BufOk, Apart;
  }
}
