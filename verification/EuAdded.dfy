/** Adding a section that takes no space in the file, then layout and writing through a descriptor. */
module EuAdded {
  import opened Memory
  import opened Arith
  import opened Options
  import opened EuObject
  import opened EuLayout
  import opened EuLayoutFacts
  import opened EuUpdate
  import EuImage
  import EuFile
  import EuTable

  /** A section without contents, or without space for them in the file, at any place. */
  predicate TakesNoSpace(s: Section) {
    ScnAlign(s) == 1 && (s.shdr.kind.NoBits? || Contents(s) == 0)
  }

  function WithScn(o: Object, s: Section): Object { o.(scns := o.scns + [s]) }

  /** Section zero has no part in the running size. */
  lemma {:induction false} RunningPrefix(scns: seq<Section>, more: seq<Section>, start: nat, n: nat)
    requires n <= |scns| <= |more| && forall i :: 1 <= i < n ==> scns[i] == more[i]
    ensures Running(scns, start, n) == Running(more, start, n)
  {
    hide ScnEnd;
    if n > 1 {
      RunningPrefix(scns, more, start, n - 1);
    }
  }

  lemma NumberedPrefix(scns: seq<Section>, s: Section)
    requires |scns| > 0
    ensures Numbered(scns + [s])[|scns|] == s
    ensures forall i :: 1 <= i < |scns| ==> Numbered(scns)[i] == Numbered(scns + [s])[i]
  {}

  /** The table stays where it is. */
  lemma TableStays(c: Format, o: Object, s: Section)
    requires |o.scns| > 0 && TakesNoSpace(s) && TableStart(c, o) < TWO32
    ensures TableStart(c, WithScn(o, s)) == TableStart(c, o)
  {
    hide ScnAlign, Contents, Running, Numbered, RoundUp;
    var n, scns, more := |o.scns|, Numbered(o.scns), Numbered(WithScn(o, s).scns);
    var size := Running(scns, HeaderEnd(c, o), n);
    NumberedPrefix(o.scns, s);
    RunningPrefix(scns, more, HeaderEnd(c, o), n);
    RunningStep(more, HeaderEnd(c, o), n);
    RoundUpGrows(size, TableAlign(c));
    RoundUpOne(size);
    assert size < TWO32;
  }

  lemma RunningStep(scns: seq<Section>, start: nat, n: nat)
    requires 1 <= n < |scns|
    ensures Running(scns, start, n + 1) == ScnEnd(Running(scns, start, n), scns[n])
  {}

  lemma RoundUpGrows(x: nat, a: nat)
    requires a > 0
    ensures x <= RoundUp(x, a)
  {
    RoundUpIsLeast(x, a);
  }

  lemma RoundUpOne(x: nat)
    ensures RoundUp(x, 1) == x
  {}

  lemma AddedHeader(c: Format, o: Object, s: Section)
    requires |o.scns| > 0 && TakesNoSpace(s) && TableStart(c, o) < TWO32
    requires !o.dirty && o.ehdr.shoff == TableStart(c, o) && s.shdrDirty
    ensures var l := LaidOut(c, WithScn(o, s)); !l.dirty && |l.scns| == |o.scns| + 1 && EuTable.TableDue(l.scns)
  {
    hide TakesNoSpace, TableStart, Running, ChangedBefore, ScnStart, ScnAlign, Entsize, Contents;
    TableStays(c, o, s);
    NumberedPrefix(o.scns, s);
    assert LaidOut(c, WithScn(o, s)).scns[|o.scns|].shdrDirty;
  }

  /**
   * A section that takes no space is added to a laid-out object that is not dirty, after the section headers have been
   * read: layout leaves the descriptor as not dirty, and the file does not get the table of the sections for all that
   * may lie behind the array.
   */
  lemma AddedScnIsLost(c: Format, o: Object, s: Section, permissive: bool, v: EuImage.Env)
    requires |o.scns| > 0 && !o.dirty && o.ehdr.shoff == TableStart(c, o) && TableStart(c, o) < TWO32
    requires TakesNoSpace(s) && s.shdrDirty && !v.mapped && !v.dirty
    requires var o' := WithScn(o, s);
      Fits(c, o', permissive) && Supplied(c, o', |v.orig|) && TotalSize(c, o') <= |v.orig|
    ensures var l, n := LaidOut(c, WithScn(o, s)), |o.scns|;
      && !l.dirty && EuImage.Writable(c, l, |v.orig|) && n < |l.scns|
      && exists behind: seq<byte> ::
        && EuFile.Reachable(c, l.scns, Some(n), behind)
        && EuImage.FileOut(v.(shdrs := EuFile.ArrayAt(c, l.scns, Some(n), behind)), c, l)
          != EuImage.FileOut(v.(shdrs := None), c, l)
  {
    hide TakesNoSpace, Fits, Supplied, LaidOut, EuImage.Writable, TotalSize, TableStart, EuImage.FileOut;
    hide EuFile.Reachable, EuFile.ArrayAt, EuTable.TableDue;
    AddedHeader(c, o, s);
    LayoutIsWritable(c, WithScn(o, s), permissive, |v.orig|);
    EuTable.AddedIff(v, c, LaidOut(c, WithScn(o, s)), |o.scns|);
  }

  // ----- an input

  /** A file of an ELF header and a table with an entry for section zero */
  function EmptyFile(): Object {
    Object(Ehdr(true, 0, 52, 1, 52, 40, 0), false, None, false, [NewSection(0).(shdrDirty := false)], false)
  }

  /** A new section, after its type has been set */
  function Bss(): Section { NewSection(1).(shdr := NewSection(1).shdr.(kind := NoBits)) }

  lemma AlignOne(x: nat)
    ensures Align(x, 1) == x
  {}

  lemma BssTakesNoSpace()
    ensures TakesNoSpace(Bss()) && ScnAlign(Bss()) == 1 && AlignsFit(Bss()) && Contents(Bss()) == 0
    ensures ScnError(Bss(), true, false).None?
  {
    assert PowerOfTwo(1);
  }

  lemma EmptyFileLayout()
    ensures var o, o' := EmptyFile(), WithScn(EmptyFile(), Bss());
      && TableStart(Elf32(), o) == 52 && TableStart(Elf32(), o') == 52 && TotalSize(Elf32(), o') == 132
      && Fits(Elf32(), o', false) && Supplied(Elf32(), o', 132)
  {
    hide ScnError, AlignsFit, TakesNoSpace, ScnAlign, Align, Contents;
    var o' := WithScn(EmptyFile(), Bss());
    assert Numbered(o'.scns) == o'.scns == [EmptyFile().scns[0], Bss()];
    assert Running(Numbered(EmptyFile().scns), 52, 1) == 52;
    BssTakesNoSpace();
    TableStays(Elf32(), EmptyFile(), Bss());
    assert FirstError(o'.scns, true, false, 1).None?;
    assert FirstError(o'.scns, true, false, 2).None?;
    assert IdealEnd(o'.scns, 52, 1) == 52;
    AlignOne(52);
  }

  /** elf_newscn and SHT_NOBITS in a file without sections: what lies behind the array can get into the file. */
  lemma BssIsLost(v: EuImage.Env)
    requires |v.orig| == 132 && !v.mapped && !v.dirty
    ensures var l := LaidOut(Elf32(), WithScn(EmptyFile(), Bss()));
      exists behind: seq<byte> ::
        && EuFile.Reachable(Elf32(), l.scns, Some(1), behind)
        && EuImage.FileOut(v.(shdrs := EuFile.ArrayAt(Elf32(), l.scns, Some(1), behind)), Elf32(), l)
          != EuImage.FileOut(v.(shdrs := None), Elf32(), l)
  {
    EmptyFileLayout();
    BssTakesNoSpace();
    hide TakesNoSpace, Fits, Supplied, LaidOut, TotalSize, TableStart;
    hide EuImage.FileOut, EuFile.Reachable, EuFile.ArrayAt;
    AddedScnIsLost(Elf32(), EmptyFile(), Bss(), false, v);
    var l := LaidOut(Elf32(), WithScn(EmptyFile(), Bss()));
    assert Some(|EmptyFile().scns|) == Some(1);
    var behind: seq<byte> :| EuFile.Reachable(Elf32(), l.scns, Some(1), behind)
      && EuImage.FileOut(v.(shdrs := EuFile.ArrayAt(Elf32(), l.scns, Some(1), behind)), Elf32(), l)
        != EuImage.FileOut(v.(shdrs := None), Elf32(), l);
  }
}
