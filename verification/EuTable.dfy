/**
 * The section header table that updatefile writes when the descriptor is not dirty: it comes from the array of section
 * headers, which a section that was added since does not belong to.
 */
module EuTable {
  import opened Memory
  import opened Options
  import opened EuObject
  import opened EuImage
  import opened EuImageFacts
  import opened EuFile

  /** The memory holds the headers of all sections, one after the other. */
  predicate HoldsTable(c: Format, scns: seq<Section>, m: seq<byte>) {
    forall i :: 0 <= i < |scns| ==> HoldsEntry(c, scns[i].shdr, i, m)
  }

  predicate HoldsEntry(c: Format, s: Shdr, i: nat, m: seq<byte>) {
    TableSize(c, i) + c.shsz <= |m| && Part(m, TableSize(c, i), TableSize(c, i) + c.shsz) == ShdrBytes(c, s)
  }

  /** Some section header is dirty, and so the table is written. */
  predicate TableDue(scns: seq<Section>) {
    exists i :: 0 <= i < |scns| && scns[i].shdrDirty
  }

  // ----- only the table depends on the array

  lemma {:induction false} OtherArrayData(v: Env, m: Option<seq<byte>>, s: Section, n: nat, out: seq<byte>, prev: bool)
    requires n <= |s.data|
    ensures DataOut(v.(shdrs := m), s, n, out, prev) == DataOut(v, s, n, out, prev)
    ensures ScnWritten(v.(shdrs := m), s, n) == ScnWritten(v, s, n)
  {
    hide BlockOut, BlockDirty;
    if n > 0 {
      OtherArrayData(v, m, s, n - 1, out, prev);
      OtherArrayBlock(v, m, s, s.data[n - 1], DataOut(v, s, n - 1, out, prev), prev);
    }
  }

  lemma OtherArrayBlock(v: Env, m: Option<seq<byte>>, s: Section, d: Data, out: seq<byte>, prev: bool)
    ensures BlockOut(v.(shdrs := m), s, d, out, prev) == BlockOut(v, s, d, out, prev)
    ensures BlockDirty(v.(shdrs := m), s, d) == BlockDirty(v, s, d)
  {
    hide Source, Part, Repeat;
  }

  lemma {:induction false} OtherArrayScns(v: Env, m: Option<seq<byte>>, scns: seq<Section>, order: seq<Key>, n: nat,
                                          st: State)
    requires n <= |order| && forall i :: 0 <= i < |order| ==> order[i].ndx < |scns|
    ensures ScnsOut(v.(shdrs := m), scns, order, n, st) == ScnsOut(v, scns, order, n, st)
  {
    hide DataOut, ScnWritten, Part, Repeat;
    if n > 0 {
      OtherArrayScns(v, m, scns, order, n - 1, st);
      var s, before := scns[order[n - 1].ndx], ScnsOut(v, scns, order, n - 1, st);
      OtherArrayData(v, m, s, |s.data|, before.out, before.prev);
    }
  }

  /** The output up to the table. */
  function BeforeTable(v: Env, c: Format, o: Object): seq<byte> {
    SortedKeys(o.scns);
    Gap(v, ScnsOut(v, o.scns, Sorted(o.scns), |o.scns|, HeadOut(v, c, o)).out, o.ehdr.shoff, v.dirty)
  }

  lemma OtherArray(v: Env, m: Option<seq<byte>>, c: Format, o: Object)
    ensures BeforeTable(v.(shdrs := m), c, o) == BeforeTable(v, c, o)
    ensures |o.scns| == 0 ==> FileOut(v.(shdrs := m), c, o) == FileOut(v, c, o)
  {
    hide Sorted, ScnsOut, HeadOut, Gap;
    SortedKeys(o.scns);
    OtherArrayHead(v, m, c, o);
    OtherArrayScns(v, m, o.scns, Sorted(o.scns), |o.scns|, HeadOut(v, c, o));
    var out := ScnsOut(v, o.scns, Sorted(o.scns), |o.scns|, HeadOut(v, c, o)).out;
    OtherArrayGap(v, m, out, o.ehdr.shoff, v.dirty);
  }

  lemma OtherArrayHead(v: Env, m: Option<seq<byte>>, c: Format, o: Object)
    ensures HeadOut(v.(shdrs := m), c, o) == HeadOut(v, c, o)
  {
    hide Part, Repeat;
  }

  lemma OtherArrayGap(v: Env, m: Option<seq<byte>>, out: seq<byte>, to: nat, filled: bool)
    ensures Gap(v.(shdrs := m), out, to, filled) == Gap(v, out, to, filled)
  {}

  lemma FileSplits(v: Env, c: Format, o: Object)
    requires Writable(c, o, |v.orig|) && |o.scns| > 0
    ensures FileOut(v, c, o) == TableOut(v, c, o.scns, |o.scns|, BeforeTable(v, c, o))
    ensures |BeforeTable(v, c, o)| == o.ehdr.shoff && o.ehdr.shoff + TableSize(c, |o.scns|) <= |v.orig| && c.Valid()
  {
    hide Sorted, ScnsOut, TableOut, Writable, HeadOut, TableSize;
    SortedKeys(o.scns);
    HeadOutLength(v, c, o);
    WritableTable(c, o, |v.orig|);
    ScnsOutLength(v, c, o, |o.scns|, HeadOut(v, c, o));
    GapEmpty(v, ScnsOut(v, o.scns, Sorted(o.scns), |o.scns|, HeadOut(v, c, o)).out, o.ehdr.shoff, v.dirty);
  }

  // ----- the table

  lemma {:induction false} HoldsIff(c: Format, scns: seq<Section>, m: seq<byte>, n: nat)
    requires c.Valid() && n <= |scns| && TableSize(c, n) <= |m|
    ensures |TableBytes(c, Headers(scns), n)| == TableSize(c, n)
    ensures Part(m, 0, TableSize(c, n)) == TableBytes(c, Headers(scns), n) <==>
      forall i :: 0 <= i < n ==> HoldsEntry(c, scns[i].shdr, i, m)
  {
    hide TableSize, Part, HoldsEntry, Headers, Format.Valid, ShdrBytes;
    TableSizes(c, 0);
    PartNone(m, 0);
    TableBytesLength(c, scns, n);
    if n > 0 {
      TableSizes(c, n - 1);
      HoldsIff(c, scns, m, n - 1);
      var at := TableSize(c, n - 1);
      PartSum([], m, 0, at, at + c.shsz);
      HoldsLast(c, scns[n - 1].shdr, n - 1, m);
      SplitSame(Part(m, 0, at), Part(m, at, at + c.shsz), TableBytes(c, Headers(scns), n - 1),
                ShdrBytes(c, scns[n - 1].shdr));
    }
  }

  lemma HoldsLast(c: Format, s: Shdr, i: nat, m: seq<byte>)
    requires TableSize(c, i) + c.shsz <= |m|
    ensures HoldsEntry(c, s, i, m) <==> Part(m, TableSize(c, i), TableSize(c, i) + c.shsz) == ShdrBytes(c, s)
  {}

  lemma SplitSame(a: seq<byte>, b: seq<byte>, a': seq<byte>, b': seq<byte>)
    requires |a| == |a'|
    ensures a + b == a' + b' <==> a == a' && b == b'
  {
    if a + b == a' + b' {
      assert a == (a + b)[..|a|] && a' == (a' + b')[..|a|];
      assert b == (a + b)[|a|..] && b' == (a' + b')[|a|..];
    }
  }

  /** What is written when the table is due and comes from the array. */
  lemma TakenTable(v: Env, c: Format, o: Object)
    requires Writable(c, o, |v.orig|) && TableDue(o.scns) && !Collects(v)
    requires TableSize(c, |o.scns|) <= |v.shdrs.value|
    ensures FileOut(v, c, o) == BeforeTable(v, c, o) + Part(v.shdrs.value, 0, TableSize(c, |o.scns|))
    ensures |BeforeTable(v, c, o)| == o.ehdr.shoff
  {
    hide Writable, FileOut, TableOut, TableSize, Part, BeforeTable;
    FileSplits(v, c, o);
    ArrayWritten(v, c, o.scns, |o.scns|, BeforeTable(v, c, o));
  }

  lemma CollectedTable(v: Env, c: Format, o: Object)
    requires Writable(c, o, |v.orig|) && TableDue(o.scns) && Collects(v) && !v.mapped
    ensures FileOut(v, c, o) == BeforeTable(v, c, o) + TableBytes(c, Headers(o.scns), |o.scns|)
  {
    hide Writable, FileOut, TableOut, TableSize, TableBytes, BeforeTable;
    FileSplits(v, c, o);
    TableWritten(v, c, o.scns, Headers(o.scns), |o.scns|, BeforeTable(v, c, o));
  }

  /** A table that is collected, or not written, does not depend on the array. */
  lemma ArrayUnused(v: Env, c: Format, o: Object)
    requires Writable(c, o, |v.orig|) && !v.mapped && (v.dirty || !TableDue(o.scns))
    ensures FileOut(v, c, o) == FileOut(v.(shdrs := None), c, o)
  {
    hide Writable, FileOut, TableOut, TableSize, BeforeTable;
    OtherArray(v, None, c, o);
    if |o.scns| > 0 {
      FileSplits(v, c, o);
      FileSplits(v.(shdrs := None), c, o);
      UnusedEntries(v, c, o.scns, |o.scns|, BeforeTable(v, c, o));
    }
  }

  lemma {:induction false} UnusedEntries(v: Env, c: Format, scns: seq<Section>, n: nat, out: seq<byte>)
    requires n <= |scns| && !v.mapped && (v.dirty || !TableDue(scns))
    ensures TableOut(v, c, scns, n, out) == TableOut(v.(shdrs := None), c, scns, n, out)
  {
    hide Block, EntryBytes, EntryWritten, TableDue;
    if n > 0 {
      UnusedEntries(v, c, scns, n - 1, out);
      UnusedEntry(v, c, scns, n - 1, TableOut(v, c, scns, n - 1, out));
    }
  }

  lemma UnusedEntry(v: Env, c: Format, scns: seq<Section>, i: nat, out: seq<byte>)
    requires i < |scns| && !v.mapped && (v.dirty || !TableDue(scns))
    ensures Block(v.(shdrs := None), out, EntryBytes(v.(shdrs := None), c, scns, i), c.shsz,
                  EntryWritten(v.(shdrs := None), scns, i))
      == Block(v, out, EntryBytes(v, c, scns, i), c.shsz, EntryWritten(v, scns, i))
  {
    hide Part, TableSize;
  }

  /**
   * Writing through a descriptor gives the file it would give if the headers of the sections were collected exactly if
   * the descriptor is dirty, no section header is, or the array and the memory behind it hold just these headers.
   */
  lemma TableTrueIff(v: Env, c: Format, o: Object)
    requires Writable(c, o, |v.orig|) && !v.mapped && v.shdrs.Some? && TableSize(c, |o.scns|) <= |v.shdrs.value|
    ensures FileOut(v, c, o) == FileOut(v.(shdrs := None), c, o) <==>
      v.dirty || !TableDue(o.scns) || HoldsTable(c, o.scns, v.shdrs.value)
  {
    hide Writable, FileOut, TableSize, BeforeTable, TableBytes, Part, TableDue, HoldsEntry, Headers;
    if v.dirty || !TableDue(o.scns) {
      ArrayUnused(v, c, o);
    } else {
      OtherArray(v, None, c, o);
      TakenTable(v, c, o);
      CollectedTable(v.(shdrs := None), c, o);
      NotEmpty(c, o, |v.orig|);
      HoldsIff(c, o.scns, v.shdrs.value, |o.scns|);
      var out := BeforeTable(v, c, o);
      SplitSame(out, Part(v.shdrs.value, 0, TableSize(c, |o.scns|)), out, TableBytes(c, Headers(o.scns), |o.scns|));
    }
  }

  lemma NotEmpty(c: Format, o: Object, length: nat)
    requires Writable(c, o, length)
    ensures c.Valid()
  {}

  // ----- sections outside the array

  /** The array holds the headers of the sections in it; what lies behind it is the table of the others. */
  lemma ArrayHolds(c: Format, scns: seq<Section>, n: nat, behind: seq<byte>, i: nat)
    requires c.Valid() && n <= |scns| && i < |scns| && Reachable(c, scns, Some(n), behind)
    ensures var m := ArrayAt(c, scns, Some(n), behind).value;
      && |m| == TableSize(c, n) + |behind| && TableSize(c, i) + c.shsz <= |m|
      && (i < n ==> HoldsEntry(c, scns[i].shdr, i, m))
      && (i >= n ==>
            Part(m, TableSize(c, i), TableSize(c, i) + c.shsz)
            == Part(behind, TableSize(c, i) - TableSize(c, n), TableSize(c, i) - TableSize(c, n) + c.shsz))
  {
    hide TableSize, Headers, TableBytes, Part, HoldsEntry, Format.Valid;
    TableBytesLength(c, scns, n);
    TableSizeOrder(c, i, |scns|);
    var table := TableBytes(c, Headers(scns), n);
    var m := table + behind;
    assert |m| == |table| + |behind|;
    if i < n {
      TableSizeOrder(c, i, n);
      PartAll(table, behind);
      HoldsIff(c, scns, m, n);
    } else {
      if i > n {
        TableSizeOrder(c, n, i);
      }
      PartBehind(table, behind, TableSize(c, i) - TableSize(c, n), c.shsz);
    }
  }

  lemma PartAll(a: seq<byte>, b: seq<byte>)
    ensures Part(a + b, 0, |a|) == a
  {}

  lemma PartBehind(a: seq<byte>, b: seq<byte>, at: nat, n: nat)
    requires at + n <= |b|
    ensures Part(a + b, |a| + at, |a| + at + n) == Part(b, at, at + n)
  {}

  /**
   * Whatever lies behind the array in memory, the file gets the headers of the sections exactly if the descriptor is
   * dirty, no section header is, or no section was added since the array was made.
   */
  lemma AddedIff(v: Env, c: Format, o: Object, n: nat)
    requires Writable(c, o, |v.orig|) && !v.mapped && n <= |o.scns|
    ensures (forall behind: seq<byte> :: Reachable(c, o.scns, Some(n), behind) ==>
        FileOut(v.(shdrs := ArrayAt(c, o.scns, Some(n), behind)), c, o) == FileOut(v.(shdrs := None), c, o)) <==>
      v.dirty || !TableDue(o.scns) || n == |o.scns|
  {
    hide Writable, FileOut, TableSize, TableDue, HoldsEntry, ArrayAt, Reachable;
    NotEmpty(c, o, |v.orig|);
    forall behind: seq<byte> | Reachable(c, o.scns, Some(n), behind) && (v.dirty || !TableDue(o.scns) || n == |o.scns|)
      ensures FileOut(v.(shdrs := ArrayAt(c, o.scns, Some(n), behind)), c, o) == FileOut(v.(shdrs := None), c, o)
    {
      var v' := v.(shdrs := ArrayAt(c, o.scns, Some(n), behind));
      ArrayLength(c, o.scns, Some(n), behind);
      forall i | 0 <= i < n
        ensures HoldsEntry(c, o.scns[i].shdr, i, v'.shdrs.value)
      {
        ArrayHolds(c, o.scns, n, behind, i);
      }
      TableTrueIff(v', c, o);
    }
    if !v.dirty && TableDue(o.scns) && n < |o.scns| {
      var behind := Unlike(c, o.scns, n);
      var v' := v.(shdrs := ArrayAt(c, o.scns, Some(n), behind));
      ArrayLength(c, o.scns, Some(n), behind);
      TableTrueIff(v', c, o);
    }
  }

  /** Memory that is not the header of the first section outside the array. */
  lemma Unlike(c: Format, scns: seq<Section>, n: nat) returns (behind: seq<byte>)
    requires c.Valid() && n < |scns|
    ensures Reachable(c, scns, Some(n), behind) && ArrayAt(c, scns, Some(n), behind).Some?
    ensures !HoldsEntry(c, scns[n].shdr, n, ArrayAt(c, scns, Some(n), behind).value)
  {
    hide TableSize, ArrayAt;
    var b := ShdrBytes(c, scns[n].shdr);
    assert |b| == c.shsz;
    behind := Repeat(if b[0] == 0 then 1 else 0, TableSize(c, |scns|));
    ArrayLength(c, scns, Some(n), behind);
    ArrayHolds(c, scns, n, behind, n);
    TableSizeOrder(c, n, |scns|);
    assert Part(behind, 0, c.shsz)[0] != b[0];
  }

  /** What is then written for the sections outside the array is what lies behind it. */
  lemma BehindIsWritten(v: Env, c: Format, o: Object, n: nat, behind: seq<byte>, i: nat)
    requires Writable(c, o, |v.orig|) && !v.mapped && !v.dirty && TableDue(o.scns)
    requires n <= i < |o.scns| && Reachable(c, o.scns, Some(n), behind)
    ensures var out := FileOut(v.(shdrs := ArrayAt(c, o.scns, Some(n), behind)), c, o);
      var at, from := o.ehdr.shoff + TableSize(c, i), TableSize(c, i) - TableSize(c, n);
      && at + c.shsz <= |out| && 0 <= from && from + c.shsz <= |behind|
      && Part(out, at, at + c.shsz) == Part(behind, from, from + c.shsz)
  {
    hide Writable, FileOut, TableSize, TableDue, HoldsEntry, ArrayAt, Reachable, BeforeTable, Part;
    var v' := v.(shdrs := ArrayAt(c, o.scns, Some(n), behind));
    NotEmpty(c, o, |v.orig|);
    ArrayLength(c, o.scns, Some(n), behind);
    ArrayHolds(c, o.scns, n, behind, i);
    if i > n {
      TableSizeOrder(c, n, i);
    }
    TableSizeOrder(c, i, |o.scns|);
    TakenTable(v', c, o);
    PartOfPart(BeforeTable(v', c, o), v'.shdrs.value, TableSize(c, |o.scns|), TableSize(c, i), c.shsz);
  }

  lemma PartOfPart(a: seq<byte>, m: seq<byte>, size: nat, at: nat, n: nat)
    requires at + n <= size <= |m|
    ensures var t := a + Part(m, 0, size);
      |t| == |a| + size && Part(t, |a| + at, |a| + at + n) == Part(m, at, at + n)
  {}
}
