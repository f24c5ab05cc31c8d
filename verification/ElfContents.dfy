/**
 * What an image holds, in terms of the fields and buffers of the object, the bytes of the old file, and the translators
 * of the codec.
 */
module ElfContents {
  import opened Arith
  import opened Memory
  import opened Options
  import opened ElfObject
  import opened ElfLayout
  import opened ElfLayoutFacts
  import opened ElfImage

  // ----- what an image holds

  /** The translation of each descriptor's own buffer, at the offset of its section plus its `d_off`. */
  lemma DescriptorInImage(c: Context, o: Object, size: nat, img: seq<byte>, i: nat, j: nat)
    requires IsImage(c, o, size, img) && i < |o.scns| && j < |o.scns[i].data|
    requires o.scns[i].shdr.shtype.Contents? && o.scns[i].size > 0 && o.scns[i].data[j].buf.Some?
    requires c.codec.toFile(o.scns[i].data[j].dtype, o.scns[i].data[j].buf.value).Some?
    ensures var at := o.scns[i].offset + o.scns[i].data[j].off;
      var f := c.codec.toFile(o.scns[i].data[j].dtype, o.scns[i].data[j].buf.value).value;
      at + |f| <= |img| && img[at..at + |f|] == f
  {
    hide InSomePart, Flatten, IsTablePart;
    var s, d := o.scns[i], o.scns[i].data[j];
    var f := c.codec.toFile(d.dtype, d.buf.value).value;
    assert IsDataPart(c, s, j, s.offset + d.off, f);
    assert IsSectionPart(c, s, s.offset + d.off, f);
    assert IsPart(c, o, s.offset + d.off, f);
    assert Has(img, s.offset + d.off, f);
  }

  /** The bytes of the old file for a section that was not read, if its raw data is there or its header fits. */
  lemma RawInImage(c: Context, o: Object, size: nat, img: seq<byte>, i: nat)
    requires IsImage(c, o, size, img) && i < |o.scns| && o.scns[i].data == []
    requires o.scns[i].shdr.shtype.Contents? && o.scns[i].size > 0
    requires c.raw.Some? && o.scns[i].rawoff + o.scns[i].size <= |c.raw.value|
    requires o.scns[i].raw.Some? || o.scns[i].shdr.offset + o.scns[i].shdr.size <= |c.raw.value|
    ensures var s := o.scns[i];
      && s.offset + s.size <= |img|
      && img[s.offset..s.offset + s.size] == c.raw.value[s.rawoff..s.rawoff + s.size]
  {
    hide InSomePart, Flatten, IsTablePart;
    var s := o.scns[i];
    var b := c.raw.value[s.rawoff..s.rawoff + s.size];
    assert RawBytes(c, s) == Some(b);
    assert IsSectionPart(c, s, s.offset, b);
    assert IsPart(c, o, s.offset, b);
    assert Has(img, s.offset, b);
  }

  lemma HeaderInImage(c: Context, o: Object, size: nat, img: seq<byte>)
    requires IsImage(c, o, size, img) && c.codec.Valid()
    ensures c.codec.ehsz <= |img| && img[..c.codec.ehsz] == c.codec.ehdr(o.ehdr)
  {
    hide InSomePart, IsSectionPart, IsTablePart, Flatten;
    assert IsPart(c, o, 0, c.codec.ehdr(o.ehdr));
    assert Has(img, 0, c.codec.ehdr(o.ehdr));
  }

  /** The program headers in a row. */
  lemma PhdrInImage(c: Context, o: Object, size: nat, img: seq<byte>, i: nat)
    requires IsImage(c, o, size, img) && i < |o.phdrs| && forall p :: p in o.phdrs ==> |p| == c.codec.phsz
    ensures var at := o.ehdr.phoff + c.codec.phsz * i;
      at + c.codec.phsz <= |img| && img[at..at + c.codec.phsz] == o.phdrs[i]
  {
    hide InSomePart, IsSectionPart, IsTablePart, Flatten, Has;
    var t, n := Flatten(o.phdrs, |o.phdrs|), c.codec.phsz * i;
    assert IsPart(c, o, o.ehdr.phoff, t);
    FlattenHas(o.phdrs, |o.phdrs|, c.codec.phsz);
    HasWithin(img, o.ehdr.phoff, t, n, o.phdrs[i]);
    HasIs(img, o.ehdr.phoff + n, o.phdrs[i]);
  }

  /** The section headers in a row. */
  lemma ShdrInImage(c: Context, o: Object, size: nat, img: seq<byte>, i: nat)
    requires IsImage(c, o, size, img) && c.codec.Valid() && i < |o.scns|
    ensures var at := o.ehdr.shoff + c.codec.shsz * i;
      at + c.codec.shsz <= |img| && img[at..at + c.codec.shsz] == c.codec.shdr(o.scns[i].shdr)
  {
    hide InSomePart, IsSectionPart, Flatten, Has;
    var at, b := o.ehdr.shoff + i * c.codec.shsz, c.codec.shdr(o.scns[i].shdr);
    assert i * c.codec.shsz == c.codec.shsz * i;
    assert IsTablePart(c, o, i, at, b);
    assert IsPart(c, o, at, b);
    HasIs(img, at, b);
  }

  lemma HasIs(img: seq<byte>, at: nat, b: seq<byte>)
    requires Has(img, at, b)
    ensures at + |b| <= |img| && img[at..at + |b|] == b
  {}

  /** A byte outside headers, tables and the contents of sections is fill. */
  lemma FillInImage(c: Context, o: Object, size: nat, img: seq<byte>, p: nat)
    requires IsImage(c, o, size, img) && c.codec.Valid() && p < |img| && c.codec.ehsz <= p
    requires forall q :: q in o.phdrs ==> |q| == c.codec.phsz
    requires |o.phdrs| > 0 ==> !(o.ehdr.phoff <= p < o.ehdr.phoff + c.codec.phsz * |o.phdrs|)
    requires forall i: nat :: i < |o.scns| ==> !InRecord(p, o.ehdr.shoff, c.codec.shsz, i)
    requires forall i: nat :: i < |o.scns| && o.scns[i].shdr.shtype.Contents? && o.scns[i].data == [] ==>
      !(o.scns[i].offset <= p < o.scns[i].offset + o.scns[i].size)
    requires forall i: nat, j: nat :: i < |o.scns| && j < |o.scns[i].data| && o.scns[i].shdr.shtype.Contents? ==>
      !InTranslation(c, o.scns[i], j, p)
    ensures img[p] == c.fillchar
  {
    if InSomePart(c, o, p) {
      PartsOnly(c, o, p);
      assert false;
    }
  }

  lemma PartsOnly(c: Context, o: Object, p: nat)
    requires InSomePart(c, o, p) && c.codec.Valid() && forall q :: q in o.phdrs ==> |q| == c.codec.phsz
    ensures
      || p < c.codec.ehsz
      || (|o.phdrs| > 0 && o.ehdr.phoff <= p < o.ehdr.phoff + c.codec.phsz * |o.phdrs|)
      || (exists i: nat :: i < |o.scns| && InRecord(p, o.ehdr.shoff, c.codec.shsz, i))
      || (exists i: nat :: i < |o.scns| && o.scns[i].shdr.shtype.Contents? && o.scns[i].data == []
                           && o.scns[i].offset <= p < o.scns[i].offset + o.scns[i].size)
      || (exists i: nat, j: nat :: i < |o.scns| && j < |o.scns[i].data| && o.scns[i].shdr.shtype.Contents?
                                   && InTranslation(c, o.scns[i], j, p))
  {
    hide Flatten;
    var at: nat, b :| IsPart(c, o, at, b) && at <= p < at + |b|;
    FlattenHas(o.phdrs, |o.phdrs|, c.codec.phsz);
    if i: nat :| i < |o.scns| && IsSectionPart(c, o.scns[i], at, b) {
      if o.scns[i].data != [] {
        var j: nat :| j < |o.scns[i].data| && IsDataPart(c, o.scns[i], j, at, b);
        assert InTranslation(c, o.scns[i], j, p);
      }
    } else if i: nat :| i < |o.scns| && IsTablePart(c, o, i, at, b) {
      assert i * c.codec.shsz == c.codec.shsz * i;
      assert InRecord(p, o.ehdr.shoff, c.codec.shsz, i);
    }
  }

  predicate InRecord(p: nat, start: nat, size: nat, i: nat) {
    start + size * i <= p < start + size * i + size
  }

  predicate InTranslation(c: Context, s: Scn, j: nat, p: nat)
    requires j < |s.data|
  {
    var d := s.data[j];
    && d.buf.Some? && c.codec.toFile(d.dtype, d.buf.value).Some?
    && s.offset + d.off <= p < s.offset + d.off + |c.codec.toFile(d.dtype, d.buf.value).value|
  }

  // ----- from the object to the file

  /** A descriptor of a section is a descriptor of the laid-out section, with its type, size and buffer. */
  lemma LayoutKeepsData(c: Context, o: Object, i: nat)
    requires WellFormed(c, o) && LayoutObject(c, o).Ok?
    requires i < |o.scns| == |LayoutObject(c, o).value.obj.scns| && LayoutObject(c, o).value.obj.scns[i].Occupies()
    ensures var s, s' := o.scns[i], LayoutObject(c, o).value.obj.scns[i];
      && s.shdr.shtype.Contents? && s'.rawoff == s.rawoff && s'.raw == s.raw
      && (s.data == [] && !s.dirty ==> s'.data == [] && s'.size == s.shdr.size)
      && (s.data != [] ==>
            |s'.data| == |s.data| && forall j :: 0 <= j < |s.data| ==> s'.data[j] == s.data[j].(off := s'.data[j].off))
  {
    hide LayoutObject, LayoutScns, Headers, RoundUp, Context.Store, FirstError, DataSize, MaxAlign, Sound;
    ObjectScn(c, o, i);
    LayoutScnData(c, o.scns[i], LayoutScns(c, o.scns, i, Headers(c, o)).value.end);
  }

  /** The file holds the translation of what each descriptor of a section holds, where the laid-out section says. */
  ghost predicate Contained(c: Context, s: Scn, s': Scn, file: seq<byte>) {
    forall j: nat :: j < |s.data| && s.data[j].buf.Some? ==>
      var f := c.codec.toFile(s.data[j].dtype, s.data[j].buf.value);
      f.Some? ==>
        && |s'.data| == |s.data|
        && var at := s'.shdr.offset + s'.data[j].off;
           at + |f.value| <= |file| && file[at..at + |f.value|] == f.value
  }

  /**
   * In the image of a laid-out object, the translation of the buffer that a descriptor had before is at the offset in
   * the section header plus its `d_off`, and a section that was not touched has the bytes it had in the old file.
   */
  lemma ContentsWritten(c: Context, o: Object, img: seq<byte>, i: nat)
    requires WellFormed(c, o) && LayoutObject(c, o).Ok? && LayoutObject(c, o).value.size <= c.Limit()
    requires IsImage(c, LayoutObject(c, o).value.obj, LayoutObject(c, o).value.size, img)
    requires i < |o.scns| == |LayoutObject(c, o).value.obj.scns|
    requires o.scns[i].shdr.shtype.Contents? && LayoutObject(c, o).value.obj.scns[i].size > 0
    requires LayoutObject(c, o).value.obj.scns[i].shdr.shtype.Contents?
    ensures var s, s' := o.scns[i], LayoutObject(c, o).value.obj.scns[i];
      Contained(c, s, s', img)
    ensures var s, s' := o.scns[i], LayoutObject(c, o).value.obj.scns[i];
      && s.data == [] && !s.dirty && c.raw.Some? && s.rawoff + s.shdr.size <= |c.raw.value|
      && (s.raw.Some? || s'.shdr.offset + s'.shdr.size <= |c.raw.value|) ==>
        && s'.shdr.offset + s.shdr.size <= |img|
        && img[s'.shdr.offset..s'.shdr.offset + s.shdr.size] == c.raw.value[s.rawoff..s.rawoff + s.shdr.size]
  {
    hide LayoutObject, IsImage, DataPlaced;
    var lo, s := LayoutObject(c, o).value, o.scns[i];
    LaidOutScn(c, o, i);
    LayoutKeepsData(c, o, i);
    forall j: nat | j < |s.data| && s.data[j].buf.Some? && c.codec.toFile(s.data[j].dtype, s.data[j].buf.value).Some?
      ensures |lo.obj.scns[i].data| == |s.data|
      ensures var f := c.codec.toFile(s.data[j].dtype, s.data[j].buf.value).value;
        var at := lo.obj.scns[i].shdr.offset + lo.obj.scns[i].data[j].off;
        at + |f| <= |img| && img[at..at + |f|] == f
    {
      DescriptorInImage(c, lo.obj, lo.size, img, i, j);
    }
    if s.data == [] && !s.dirty && c.raw.Some? && s.rawoff + s.shdr.size <= |c.raw.value|
      && (s.raw.Some? || lo.obj.scns[i].shdr.offset + lo.obj.scns[i].shdr.size <= |c.raw.value|) {
      RawInImage(c, lo.obj, lo.size, img, i);
    }
  }
}
