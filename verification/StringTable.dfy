/** elf_strptr(): from an offset in a string table to a place in one of its buffers. */
module StringTable {
  import opened Arith
  import opened Memory
  import opened Options
  import opened ElfObject
  import opened ElfLayout
  import opened ElfLayoutFacts

  /** A pointer `at` bytes into the buffer of descriptor `buffer`. */
  datatype Place = Place(buffer: nat, at: nat)

  predicate Skipped(d: Data) {
    d.buf.None? || d.size == 0
  }

  predicate Acceptable(d: Data) {
    d.dtype.Byte? && (d.align > 1 ==> PowerOfTwo(d.align))
  }

  /** Where the scan puts descriptor `i`: it rounds the bytes it counted so far, and never reads `off`. */
  function ScanOff(ds: seq<Data>, i: nat): nat
    requires i < |ds|
    decreases i, 1
  {
    if ds[i].align > 1 then RoundUp(ScanSize(ds, i), ds[i].align) else ScanSize(ds, i)
  }

  function ScanSize(ds: seq<Data>, n: nat): nat
    requires n <= |ds|
    decreases n, 0
  {
    if n == 0 then 0
    else if Skipped(ds[n - 1]) then ScanSize(ds, n - 1)
    else ScanOff(ds, n - 1) + ds[n - 1].size
  }

  predicate ScanHit(ds: seq<Data>, i: nat, offset: nat)
    requires i < |ds|
  {
    !Skipped(ds[i]) && ScanOff(ds, i) <= offset < ScanOff(ds, i) + ds[i].size
  }

  lemma {:induction false} ScanGrows(ds: seq<Data>, i: nat, n: nat)
    requires i <= n <= |ds|
    ensures ScanSize(ds, i) <= ScanSize(ds, n)
    ensures i < n ==> (if Skipped(ds[i]) then ScanSize(ds, i) else ScanOff(ds, i) + ds[i].size) <= ScanSize(ds, n)
    ensures n < |ds| ==> ScanSize(ds, n) <= ScanOff(ds, n)
  {
    if n < |ds| && ds[n].align > 1 {
      RoundUpIsLeast(ScanSize(ds, n), ds[n].align);
    }
    if i < n {
      ScanGrows(ds, i, n - 1);
    }
  }

  /** Looks up `offset` in a string table of `size` bytes whose layout is the library's business. */
  method StrPtr(isStrtab: bool, size: nat, ds: seq<Data>, offset: nat) returns (r: Result<Place, Error>)
    ensures !isStrtab || offset >= size ==> r == Err(EArgument)
    ensures r.Ok? ==>
      && r.value.buffer < |ds| && ScanHit(ds, r.value.buffer, offset)
      && r.value.at == offset - ScanOff(ds, r.value.buffer)
    ensures isStrtab && offset < size && (forall d :: d in ds && !Skipped(d) ==> Acceptable(d)) ==>
      (r.Ok? <==> exists i: nat :: i < |ds| && ScanHit(ds, i, offset)) && (r.Err? ==> r == Err(EArgument))
    ensures r.Err? && r != Err(EArgument) ==> r == Err(EData) && exists d :: d in ds && !Skipped(d) && !Acceptable(d)
  {
    if !isStrtab || offset >= size {
      return Err(EArgument);
    }
    var count, i := 0, 0;
    while i < |ds| && count <= offset
      invariant i <= |ds| && count == ScanSize(ds, i)
      invariant forall k: nat :: k < i ==> !ScanHit(ds, k, offset)
    {
      var d := ds[i];
      assert d in ds;
      ScanGrows(ds, i, i);
      if d.buf.None? || d.size == 0 {
        i := i + 1;
        continue;
      }
      if !d.dtype.Byte? {
        return Err(EData);
      }
      if d.align > 1 {
        if !PowerOfTwo(d.align) {
          return Err(EData);
        }
        count := RoundUp(count, d.align);
      }
      if offset < count {
        MissesRest(ds, i, offset);
        return Err(EArgument);
      }
      if offset < count + d.size {
        assert ScanHit(ds, i, offset);
        return Ok(Place(i, offset - count));
      }
      count := count + d.size;
      i := i + 1;
    }
    if i < |ds| {
      ScanGrows(ds, i, i);
      MissesRest(ds, i, offset);
    }
    r := Err(EArgument);
  }

  /** An offset before descriptor `i` is in no descriptor from there on. */
  lemma MissesRest(ds: seq<Data>, i: nat, offset: nat)
    requires i < |ds| && offset < ScanOff(ds, i)
    requires Skipped(ds[i]) ==> offset < ScanSize(ds, i)
    ensures forall k: nat :: i <= k < |ds| ==> !ScanHit(ds, k, offset)
  {
    forall k: nat | i <= k < |ds|
      ensures !ScanHit(ds, k, offset)
    {
      if i < k {
        ScanGrows(ds, i, k);
      }
    }
  }

  // ----- the scan against the stored offsets

  /** String data as the library lays it out: sound descriptors of bytes, each with a buffer. */
  ghost predicate StringData(c: Context, ds: seq<Data>) {
    && c.codec.Valid() && c.codec.fsz(Byte) == 1 && c.codec.msz(Byte) == 1
    && Sound(c, ds) && (forall d :: d in ds ==> d.dtype.Byte? && d.buf.Some?)
  }

  lemma {:induction false} ScanIsLayout(c: Context, ds: seq<Data>, n: nat)
    requires StringData(c, ds) && (forall d :: d in ds ==> d.size > 0) && n <= |ds|
    ensures ScanSize(ds, n) == DataSize(c, ds, n)
    ensures n < |ds| ==> ScanOff(ds, n) == DataOff(c, ds, n)
  {
    if n < |ds| {
      SoundAt(c, ds, |ds|, n);
    }
    if n > 0 {
      ScanIsLayout(c, ds, n - 1);
      SoundAt(c, ds, |ds|, n - 1);
      assert ds[n - 1] in ds && c.FileSize(ds[n - 1]) == ds[n - 1].size;
    }
    if n < |ds| && ds[n].align == 1 {
      RoundUpUnique(DataSize(c, ds, n), 1, DataSize(c, ds, n));
    }
  }

  /**
   * In a laid-out string table without empty buffers the scan finds an offset exactly if the stored d_off values
   * put it in a buffer, and at the same place: it fails just on alignment holes and past the end.
   */
  lemma ScanFindsWhatLayoutPut(c: Context, ds: seq<Data>, offset: nat, i: nat)
    requires StringData(c, ds) && (forall d :: d in ds ==> d.size > 0) && i < |ds|
    ensures var placed := Placed(c, ds);
      && ScanOff(placed, i) == placed[i].off
      && (ScanHit(placed, i, offset) <==> placed[i].off <= offset < placed[i].off + placed[i].size)
  {
    var placed := Placed(c, ds);
    PlacedTwice(c, ds);
    forall d | d in placed
      ensures d.dtype.Byte? && d.buf.Some? && d.size > 0
    {
      var k :| 0 <= k < |placed| && placed[k] == d;
      assert ds[k] in ds;
    }
    ScanIsLayout(c, placed, i);
    assert placed[i] == Placed(c, placed)[i];
  }

  /** The scan never gets ahead of the layout. */
  lemma {:induction false} ScanBelowLayout(c: Context, ds: seq<Data>, n: nat)
    requires StringData(c, ds) && n <= |ds|
    ensures ScanSize(ds, n) <= DataSize(c, ds, n)
  {
    if n > 0 {
      var d := ds[n - 1];
      ScanBelowLayout(c, ds, n - 1);
      SoundAt(c, ds, |ds|, n - 1);
      assert d in ds && c.FileSize(d) == d.size;
      RoundUpIsLeast(DataSize(c, ds, n - 1), d.align);
      RoundUpIsLeast(ScanSize(ds, n - 1), d.align);
    }
  }

  lemma ScanOffIs(c: Context, ds: seq<Data>, i: nat)
    requires StringData(c, ds) && i < |ds|
    ensures ds[i].align > 0 && ScanOff(ds, i) == RoundUp(ScanSize(ds, i), ds[i].align)
    ensures DataOff(c, ds, i) == RoundUp(DataSize(c, ds, i), ds[i].align)
  {
    SoundAt(c, ds, |ds|, i);
    RoundUpUnique(ScanSize(ds, i), 1, ScanSize(ds, i));
  }

  /** The bytes the layout has spent before buffer `i` fit in front of the place where the scan looks for it. */
  predicate PaddingFits(ds: seq<Data>, i: nat, laid: nat)
    requires i < |ds|
  {
    ds[i].align > 0 && laid <= RoundUp(ScanSize(ds, i), ds[i].align)
  }

  lemma SamePlaceIff(c: Context, ds: seq<Data>, i: nat)
    requires StringData(c, ds) && i < |ds|
    ensures ScanOff(ds, i) == DataOff(c, ds, i) <==> PaddingFits(ds, i, DataSize(c, ds, i))
  {
    var a, scanned, laid := ds[i].align, ScanSize(ds, i), DataSize(c, ds, i);
    ScanOffIs(c, ds, i);
    ScanBelowLayout(c, ds, i);
    RoundUpIsLeast(laid, a);
    RoundUpIsLeast(scanned, a);
  }

  /**
   * The scan looks for every buffer where the layout put it exactly if what the layout spends on empty buffers never
   * goes past the place where the next buffer that is not empty starts in the scan.
   */
  lemma ScanAgreesIff(c: Context, ds: seq<Data>)
    requires StringData(c, ds)
    ensures (forall i :: 0 <= i < |ds| && ds[i].size > 0 ==> ScanOff(ds, i) == DataOff(c, ds, i)) <==>
      forall i :: 0 <= i < |ds| && ds[i].size > 0 ==> PaddingFits(ds, i, DataSize(c, ds, i))
  {
    hide ScanOff, DataOff, PaddingFits, Sound;
    forall i | 0 <= i < |ds|
      ensures ScanOff(ds, i) == DataOff(c, ds, i) <==> PaddingFits(ds, i, DataSize(c, ds, i))
    {
      SamePlaceIff(c, ds, i);
    }
  }

  /** An empty buffer that takes padding makes the two disagree: the layout pads for it, the scan does not. */
  lemma EmptyBufferDisagrees(c: Context, b: seq<byte>)
    requires c.codec.Valid() && c.codec.fsz(Byte) == 1 && c.codec.msz(Byte) == 1 && |b| == 1
    ensures var ds := [Data(Byte, c.version, 1, 1, 0, Some(b)), Data(Byte, c.version, 16, 0, 0, Some([])),
                       Data(Byte, c.version, 1, 1, 0, Some(b))];
      StringData(c, ds) && DataOff(c, ds, 2) == 16 && ScanOff(ds, 2) == 1
  {
    var ds := [Data(Byte, c.version, 1, 1, 0, Some(b)), Data(Byte, c.version, 16, 0, 0, Some([])),
               Data(Byte, c.version, 1, 1, 0, Some(b))];
    assert PowerOfTwo(16) by { assert PowerOfTwo(2) && PowerOfTwo(4) && PowerOfTwo(8); }
    assert FirstError(c, ds, 0).None? && FirstError(c, ds, 1).None? && FirstError(c, ds, 2).None?;
    assert DataSize(c, ds, 0) == 0 && DataSize(c, ds, 1) == 1 && DataSize(c, ds, 2) == 16;
    assert ScanSize(ds, 0) == 0 && ScanSize(ds, 1) == 1 && ScanSize(ds, 2) == 1;
  }
}
