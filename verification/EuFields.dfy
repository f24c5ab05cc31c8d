/** What updatenull stores and flags, and what it refuses, in terms of the fields that were there. */
module EuFields {
  import opened Arith
  import opened Options
  import opened EuObject
  import opened EuLayout
  import opened EuLayoutFacts

  // ----- errors

  lemma {:induction false} DataErrors(data: seq<Data>, n: nat) returns (bad: nat)
    requires n <= |data|
    ensures DataError(data, n).None? <==>
      forall k :: 0 <= k < n ==> data[k].version == 1 && (data[k].align == 0 || PowerOfTwo(data[k].align))
    ensures DataError(data, n).Some? ==>
      && bad < n && DataError(data, bad).None?
      && DataError(data, n) == Some(if data[bad].version != 1 then EVersion else EAlign)
  {
    bad := 0;
    if n > 0 {
      bad := DataErrors(data, n - 1);
      if DataError(data, n - 1).None? {
        bad := n - 1;
      }
    }
  }

  /** What is wrong with a section, tested in this order: its alignment, a group, its data, its size. */
  lemma ScnErrors(s: Section, relocatable: bool, permissive: bool)
    ensures var align := (if s.shdr.addralign == 0 then 1 else s.shdr.addralign) % 0x1_0000_0000;
      var unit := match s.shdr.kind
                  case Table(n) => n
                  case Group => 4
                  case _ => s.shdr.entsize % 0x1_0000_0000;
      var size := (if s.listed then DataEnd(s.data, |s.data|) else s.raw.size) % 0x1_0000_0000;
      ScnError(s, relocatable, permissive) ==
        if align != 0 && !PowerOfTwo(align) then Some(EAlign)
        else if s.shdr.kind == Group && !relocatable then Some(EGroup)
        else if s.listed && DataError(s.data, |s.data|).Some? then DataError(s.data, |s.data|)
        else if unit > 1 && !permissive && size % unit != 0 then Some(EEntsize)
        else None
  {
    hide DataEnd, DataError, PowerOfTwo;
  }

  /** The layout fails exactly if something is wrong with a section other than section zero, and then for the first. */
  lemma {:induction false} LayoutErrors(scns: seq<Section>, relocatable: bool, permissive: bool, n: nat)
    returns (bad: nat)
    requires n <= |scns|
    ensures FirstError(scns, relocatable, permissive, n).None? <==>
      forall i :: 1 <= i < n ==> ScnError(scns[i], relocatable, permissive).None?
    ensures FirstError(scns, relocatable, permissive, n).Some? ==>
      && 1 <= bad < n && FirstError(scns, relocatable, permissive, n) == ScnError(scns[bad], relocatable, permissive)
      && forall i :: 1 <= i < bad ==> ScnError(scns[i], relocatable, permissive).None?
  {
    hide ScnError;
    bad := 0;
    if n > 1 {
      bad := LayoutErrors(scns, relocatable, permissive, n - 1);
      if FirstError(scns, relocatable, permissive, n - 1).None? {
        bad := n - 1;
      }
    }
  }

  // ----- the ELF header and section zero

  /** The fields of the header; only a moved section header table flags the descriptor. */
  lemma EhdrFields(c: Format, o: Object)
    requires |o.scns| > 0
    ensures var h, h' := o.ehdr, LaidOut(c, o).ehdr;
      && h'.shnum == (if |o.scns| < 0xFF00 then |o.scns| else 0)
      && h'.phoff == (if o.phdr.Some? then c.ehsz else 0) && h'.ehsize == c.ehsz && h'.shentsize == c.shsz
      && h'.relocatable == h.relocatable && h'.other == h.other
    ensures LaidOut(c, o).ehdrDirty ==
      (o.ehdrDirty || o.ehdr.(shoff := LaidOut(c, o).ehdr.shoff) != LaidOut(c, o).ehdr)
    ensures LaidOut(c, o).dirty == (o.dirty || o.ehdr.shoff != LaidOut(c, o).ehdr.shoff)
    ensures LaidOut(c, o).phdr == o.phdr && LaidOut(c, o).phdrDirty == o.phdrDirty
    ensures |LaidOut(c, o).scns| == |o.scns|
  {}

  /** Without sections there is only the header, and the program headers behind it. */
  lemma EmptyFields(c: Format, o: Object)
    requires |o.scns| == 0
    ensures var h := LaidOut(c, o).ehdr;
      h == o.ehdr.(shnum := 0, phoff := if o.phdr.Some? then c.ehsz else 0, ehsize := c.ehsz)
    ensures LaidOut(c, o) == o.(ehdr := LaidOut(c, o).ehdr, ehdrDirty := o.ehdrDirty || LaidOut(c, o).ehdr != o.ehdr)
    ensures TotalSize(c, o) == c.ehsz + if o.phdr.Some? then |o.phdr.value| else 0
  {}

  lemma ZeroFields(c: Format, o: Object)
    requires |o.scns| > 0
    ensures |LaidOut(c, o).scns| == |o.scns|
    ensures var z, z' := o.scns[0], LaidOut(c, o).scns[0];
      if |o.scns| < 0xFF00 then z' == z
      else z' == z.(shdr := z.shdr.(size := |o.scns|), shdrDirty := z.shdrDirty || z.shdr.size != |o.scns|)
  {
    hide PlacedScn, Running, ChangedBefore;
  }

  // ----- sections

  /** `a` is the widest of the alignment of a section, or one, and those of its data blocks. */
  ghost predicate Widest(a: nat, s: Section) {
    && (if s.shdr.addralign == 0 then 1 else s.shdr.addralign) <= a
    && (s.listed ==> forall k :: 0 <= k < |s.data| ==> s.data[k].align <= a)
    && (a == (if s.shdr.addralign == 0 then 1 else s.shdr.addralign)
        || (s.listed && exists k :: 0 <= k < |s.data| && s.data[k].align == a))
  }

  lemma {:induction false} WidenedIs(a: nat, data: seq<Data>, n: nat)
    requires n <= |data| && a < TWO32 && forall k :: 0 <= k < |data| ==> data[k].align < TWO32
    ensures a <= Widened(a, data, n) < TWO32 && forall k :: 0 <= k < n ==> data[k].align <= Widened(a, data, n)
    ensures Widened(a, data, n) == a || exists k :: 0 <= k < n && data[k].align == Widened(a, data, n)
  {
    hide Word;
    if n > 0 {
      WidenedIs(a, data, n - 1);
      WordKeeps(Max(Widened(a, data, n - 1), data[n - 1].align));
    }
  }

  lemma WordKeeps(x: nat)
    ensures x < TWO32 ==> Word(x) == x
  {}

  /** Where the section before ends in the file, or else the headers. */
  function EndInFile(c: Format, o: Object, scns: seq<Section>, i: nat): nat
    requires 1 <= i <= |scns|
  {
    if i == 1 then c.ehsz + (if o.phdr.Some? then |o.phdr.value| else 0)
    else scns[i - 1].shdr.offset + if scns[i - 1].shdr.kind == NoBits then 0 else scns[i - 1].shdr.size
  }

  lemma EndIs(c: Format, o: Object, permissive: bool, i: nat)
    requires Fits(c, o, permissive) && 1 <= i <= |o.scns|
    ensures |LaidOut(c, o).scns| == |o.scns|
    ensures IdealEnd(Numbered(o.scns), HeaderEnd(c, o), i) == EndInFile(c, o, LaidOut(c, o).scns, i)
  {
    hide LaidOut, Fits, Numbered, IdealStart;
    LaidOutLength(c, o);
    if i > 1 {
      ScnPlace(c, o, permissive, i - 1);
    }
  }

  /** A section goes to the least multiple of its widest alignment from the end of the one before. */
  lemma ScnOffset(c: Format, o: Object, permissive: bool, i: nat)
    requires Fits(c, o, permissive) && 1 <= i < |o.scns|
    ensures |LaidOut(c, o).scns| == |o.scns|
    ensures var h := LaidOut(c, o).scns[i].shdr;
      && Widest(h.addralign, o.scns[i]) && h.addralign > 0 && h.offset % h.addralign == 0
      && EndInFile(c, o, LaidOut(c, o).scns, i) <= h.offset < EndInFile(c, o, LaidOut(c, o).scns, i) + h.addralign
  {
    hide LaidOut, Fits, Numbered, IdealEnd, RoundUp, EndInFile, ScnAlign, Widest, AlignsFit;
    var scns, start := Numbered(o.scns), HeaderEnd(c, o);
    LaidOutLength(c, o);
    EndIs(c, o, permissive, i);
    ScnPlace(c, o, permissive, i);
    SameScn(o, i);
    StartAligned(scns, start, i);
    RoundUpIsLeast(IdealEnd(scns, start, i), ScnAlign(scns[i]));
    AlignFits(c, o, permissive, i);
    WidestIs(o.scns[i]);
  }

  lemma WidestIs(s: Section)
    requires AlignsFit(s)
    ensures Widest(ScnAlign(s), s)
  {
    hide Widened;
    WordKeeps(if s.shdr.addralign == 0 then 1 else s.shdr.addralign);
    if s.listed {
      WidenedIs(FirstAlign(s.shdr), s.data, |s.data|);
    }
  }

  lemma AlignFits(c: Format, o: Object, permissive: bool, i: nat)
    requires Fits(c, o, permissive) && 1 <= i < |o.scns|
    ensures AlignsFit(o.scns[i])
  {}

  /** The size of the contents, the entry size of the type, and which changes are flagged. */
  lemma ScnStored(c: Format, o: Object, i: nat)
    requires 1 <= i < |o.scns|
    ensures |LaidOut(c, o).scns| == |o.scns|
    ensures var s, s' := o.scns[i], LaidOut(c, o).scns[i];
      && s'.shdr.kind == s.shdr.kind && s'.shdr.other == s.shdr.other && s'.ndx == s.ndx && s'.at == s.at
      && s'.raw == s.raw
      && s'.shdr.entsize == (match s.shdr.kind
                             case Table(n) => n
                             case Group => 4
                             case _ => s.shdr.entsize % 0x1_0000_0000)
      && s'.shdrDirty == (s.shdrDirty || s.shdr.addralign != s'.shdr.addralign || s.shdr.entsize != s'.shdr.entsize)
      && s'.listed == (s.listed || s.shdr.offset != s'.shdr.offset)
      && s'.shdr.size == (if !s.listed then s.raw.size else if |s.data| == 0 then 0
                          else s'.data[|s.data| - 1].off + s'.data[|s.data| - 1].size) % 0x1_0000_0000
      && (s.listed ==>
            |s'.data| == |s.data| && forall k :: 0 <= k < |s.data| ==> s'.data[k] == s.data[k].(off := s'.data[k].off))
      && (!s.listed ==> s'.data == if s.shdr.offset != s'.shdr.offset then [s.raw] else s.data)
  {
    hide LaidOut, Running, ChangedBefore, Numbered, ScnStart, ScnAlign, ScnChanges;
    LaidOutLength(c, o);
    PlacedAt(c, o, i);
    SameScn(o, i);
    var s := o.scns[i];
    if s.listed && |s.data| > 0 {
      EndOne(s.data, |s.data| - 1);
    }
  }

  /** A data block goes to the least multiple of its alignment from the end of the one before. */
  lemma BlockOffset(c: Format, o: Object, i: nat, k: nat)
    requires 1 <= i < |o.scns| && o.scns[i].listed && k < |o.scns[i].data|
    ensures |LaidOut(c, o).scns| == |o.scns| && |LaidOut(c, o).scns[i].data| == |o.scns[i].data|
    ensures var d, off := o.scns[i].data, LaidOut(c, o).scns[i].data[k].off;
      var end := if k == 0 then 0 else LaidOut(c, o).scns[i].data[k - 1].off + d[k - 1].size;
      if d[k].align == 0 then off == 0 else off % d[k].align == 0 && end <= off < end + d[k].align
  {
    hide LaidOut, Running, ChangedBefore, Numbered, ScnStart, ScnAlign, ScnChanges, RoundUp;
    LaidOutLength(c, o);
    PlacedAt(c, o, i);
    SameScn(o, i);
    var data := o.scns[i].data;
    if data[k].align > 0 {
      RoundUpIsLeast(DataEnd(data, k), data[k].align);
    }
  }

  /** The section header table goes to the next multiple of the size of an address, and ends the file. */
  lemma TablePlace(c: Format, o: Object, permissive: bool)
    requires Fits(c, o, permissive)
    ensures |LaidOut(c, o).scns| == |o.scns| > 0
    ensures var end, shoff := EndInFile(c, o, LaidOut(c, o).scns, |o.scns|), LaidOut(c, o).ehdr.shoff;
      && end <= shoff && (if c.is64 then shoff % 8 == 0 && shoff < end + 8 else shoff % 4 == 0 && shoff < end + 4)
      && TotalSize(c, o) == shoff + |o.scns| * c.shsz
  {
    hide LaidOut, Numbered, IdealEnd, RoundUp, EndInFile, LayoutError, AlignsFit;
    EndIs(c, o, permissive, |o.scns|);
    LayoutInOrder(c, o, permissive);
    FitsIsLayoutable(c, o, permissive);
    SmallOffsets(c, o);
    RoundUpIsLeast(IdealEnd(Numbered(o.scns), HeaderEnd(c, o), |o.scns|), TableAlign(c));
  }
}
