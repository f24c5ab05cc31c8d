/** updatenull: offsets, sizes and dirty flags of all sections, in library layout. */
module EuLayout {
  import opened Arith
  import opened Options
  import opened EuObject

  const SHN_LORESERVE := 0xFF00
  const EV_NUM := 2

  datatype Error = EAlign | EGroup | EVersion | EEntsize

  /** The test `powerof2`: true also of zero. */
  predicate PowerOrZero(n: nat) { n == 0 || PowerOfTwo(n) }

  function Max(a: nat, b: nat): nat { if a < b then b else a }

  function Word(n: nat): nat { n % TWO32 }

  /** `(x + a - 1) & ~(a - 1)` for a power of two, or zero */
  function Align(x: nat, a: nat): nat {
    if a == 0 then 0 else RoundUp(x, a)
  }

  // ----- one section

  /** The end of the first `n` data blocks. */
  function DataEnd(data: seq<Data>, n: nat): nat
    requires n <= |data|
    decreases n, 0
  {
    if n == 0 then 0 else DataStart(data, n - 1) + data[n - 1].size
  }

  /** Where data block `k` goes. */
  function DataStart(data: seq<Data>, k: nat): nat
    requires k < |data|
    decreases k, 1
  {
    Align(DataEnd(data, k), data[k].align)
  }

  function PlacedData(data: seq<Data>, n: nat): (r: seq<Data>)
    requires n <= |data|
    ensures |r| == |data|
  {
    seq(|data|, k requires 0 <= k < |data| => if k < n then data[k].(off := DataStart(data, k)) else data[k])
  }

  /** The alignment of a section, widened for its first `n` data blocks; the variable is 32 bits wide. */
  function Widened(a: nat, data: seq<Data>, n: nat): nat
    requires n <= |data|
  {
    if n == 0 then a else Word(Max(Widened(a, data, n - 1), data[n - 1].align))
  }

  function FirstAlign(s: Shdr): nat {
    Word(if s.addralign == 0 then 1 else s.addralign)
  }

  function ScnAlign(s: Section): nat {
    if s.listed then Widened(FirstAlign(s.shdr), s.data, |s.data|) else FirstAlign(s.shdr)
  }

  /** The size of the contents. */
  function Contents(s: Section): nat {
    if s.listed then DataEnd(s.data, |s.data|) else s.raw.size
  }

  predicate DataMoved(s: Section) {
    s.listed && exists k :: 0 <= k < |s.data| && s.data[k].off != DataStart(s.data, k)
  }

  function Entsize(s: Shdr): nat {
    match s.kind
    case Table(n) => n
    case Group => 4
    case _ => Word(s.entsize)
  }

  function DataError(data: seq<Data>, n: nat): Option<Error>
    requires n <= |data|
  {
    if n == 0 then None
    else if DataError(data, n - 1).Some? then DataError(data, n - 1)
    else if data[n - 1].version == 0 || data[n - 1].version >= EV_NUM then Some(EVersion)
    else if !PowerOrZero(data[n - 1].align) then Some(EAlign)
    else None
  }

  function ScnError(s: Section, relocatable: bool, permissive: bool): Option<Error> {
    if !PowerOrZero(FirstAlign(s.shdr)) then Some(EAlign)
    else if s.shdr.kind.Group? && !relocatable then Some(EGroup)
    else if s.listed && DataError(s.data, |s.data|).Some? then DataError(s.data, |s.data|)
    else if Entsize(s.shdr) > 1 && !permissive && Word(Contents(s)) % Entsize(s.shdr) != 0 then Some(EEntsize)
    else None
  }

  /** `(size + a - 1) & ~(a - 1)` with `a` 32 bits wide: the mask is too, so that the upper half of the size is lost. */
  function AlignSize(size: nat, a: nat): nat {
    if a == 0 then 0 else Word(RoundUp(size, a))
  }

  function ScnStart(size: nat, s: Section): nat {
    AlignSize(size, ScnAlign(s))
  }

  /** Whether anything about the place of a section changes. */
  predicate ScnChanges(size: nat, s: Section) {
    DataMoved(s) || s.shdr.offset != ScnStart(size, s) || s.shdr.size != Word(Contents(s))
  }

  /** A section that is placed at the running size; `changed` says whether an earlier one has changed. */
  function PlacedScn(size: nat, changed: bool, s: Section): Section {
    var moved := s.shdr.offset != ScnStart(size, s);
    var data := if s.listed then PlacedData(s.data, |s.data|) else if moved then [s.raw] else s.data;
    s.(shdr := s.shdr.(offset := ScnStart(size, s), size := Word(Contents(s)),
                       addralign := ScnAlign(s), entsize := Entsize(s.shdr)),
       listed := s.listed || moved, data := data,
       shdrDirty := s.shdrDirty || s.shdr.addralign != ScnAlign(s) || s.shdr.entsize != Entsize(s.shdr),
       dirty := s.dirty || changed || ScnChanges(size, s))
  }

  function ScnEnd(size: nat, s: Section): nat {
    ScnStart(size, s) + if s.shdr.kind.NoBits? then 0 else Contents(s)
  }

  // ----- all sections

  /** The running size before section `n`; section 0 takes no part. */
  function Running(scns: seq<Section>, start: nat, n: nat): nat
    requires n <= |scns|
  {
    if n <= 1 then start else ScnEnd(Running(scns, start, n - 1), scns[n - 1])
  }

  predicate ChangedBefore(scns: seq<Section>, start: nat, n: nat)
    requires n <= |scns|
  {
    if n <= 1 then false
    else ChangedBefore(scns, start, n - 1) || ScnChanges(Running(scns, start, n - 1), scns[n - 1])
  }

  function FirstError(scns: seq<Section>, relocatable: bool, permissive: bool, n: nat): Option<Error>
    requires n <= |scns|
  {
    if n <= 1 then None
    else if FirstError(scns, relocatable, permissive, n - 1).Some? then FirstError(scns, relocatable, permissive, n - 1)
    else ScnError(scns[n - 1], relocatable, permissive)
  }

  function Placed(scns: seq<Section>, start: nat, n: nat): (r: seq<Section>)
    requires n <= |scns|
    ensures |r| == |scns|
  {
    seq(|scns|, i requires 0 <= i < |scns| =>
      if 1 <= i < n then PlacedScn(Running(scns, start, i), ChangedBefore(scns, start, i), scns[i]) else scns[i])
  }

  /** Where the headers end. */
  function HeaderEnd(c: Format, o: Object): nat {
    c.ehsz + o.PhdrSize()
  }

  function TableAlign(c: Format): nat { if c.is64 then 8 else 4 }

  /** Section zero keeps a section count that is too large for the ELF header. */
  function Numbered(scns: seq<Section>): (r: seq<Section>)
    ensures |r| == |scns|
  {
    if |scns| >= SHN_LORESERVE then
      var zero := scns[0];
      scns[0 := zero.(shdr := zero.shdr.(size := |scns|), shdrDirty := zero.shdrDirty || zero.shdr.size != |scns|)]
    else scns
  }

  function TableStart(c: Format, o: Object): nat {
    RoundUp(Running(Numbered(o.scns), HeaderEnd(c, o), |o.scns|), TableAlign(c))
  }

  function TotalSize(c: Format, o: Object): nat {
    if |o.scns| == 0 then HeaderEnd(c, o) else TableStart(c, o) + |o.scns| * c.shsz
  }

  function NewEhdr(c: Format, o: Object): Ehdr {
    var e := o.ehdr.(shnum := if |o.scns| >= SHN_LORESERVE then 0 else |o.scns|, ehsize := c.ehsz,
                     phoff := if o.phdr.Some? then c.ehsz else 0);
    if |o.scns| == 0 then e else e.(shentsize := c.shsz, shoff := Word(TableStart(c, o)))
  }

  /** The object after a successful layout pass. */
  function LaidOut(c: Format, o: Object): Object {
    o.(ehdr := NewEhdr(c, o),
       ehdrDirty := o.ehdrDirty || NewEhdr(c, o).(shoff := o.ehdr.shoff) != o.ehdr,
       dirty := o.dirty || NewEhdr(c, o).shoff != o.ehdr.shoff,
       scns := Placed(Numbered(o.scns), HeaderEnd(c, o), |o.scns|))
  }

  function LayoutError(o: Object, permissive: bool): Option<Error> {
    FirstError(Numbered(o.scns), o.ehdr.relocatable, permissive, |o.scns|)
  }

  // ----- the pass

  /** default_ehdr and the program header offset. */
  method DefaultEhdr(e: Elf)
    requires e.phdr.Some? ==> |e.phdr.value| > 0
    modifies e`ehdr, e`ehdrDirty
    ensures e.ehdr == NewEhdr(e.fmt, old(e.Obj())).(shoff := old(e.ehdr.shoff), shentsize := old(e.ehdr.shentsize))
    ensures e.ehdrDirty == (old(e.ehdrDirty) || e.ehdr != old(e.ehdr))
  {
    var shnum := if |e.scns| >= SHN_LORESERVE then 0 else |e.scns|;
    if e.ehdr.shnum != shnum {
      e.ehdr, e.ehdrDirty := e.ehdr.(shnum := shnum), true;
    }
    if e.ehdr.ehsize != e.fmt.ehsz {
      e.ehdr, e.ehdrDirty := e.ehdr.(ehsize := e.fmt.ehsz), true;
    }
    if e.phdr.None? && e.ehdr.phoff != 0 {
      e.ehdr, e.ehdrDirty := e.ehdr.(phoff := 0), true;
    }
    if e.phdr.Some? && e.ehdr.phoff != e.fmt.ehsz {
      e.ehdr, e.ehdrDirty := e.ehdr.(phoff := e.fmt.ehsz), true;
    }
  }

  lemma PlacedNone(data: seq<Data>)
    ensures PlacedData(data, 0) == data
  {}

  lemma PlacedOne(data: seq<Data>, k: nat)
    requires k < |data|
    ensures PlacedData(data, k)[k] == data[k]
    ensures PlacedData(data, k + 1) == PlacedData(data, k)[k := data[k].(off := DataStart(data, k))]
    ensures DataStart(data, k) == Align(DataEnd(data, k), data[k].align)
  {}

  /** The loop over the data blocks of a section. */
  method PlaceData(s: Section, align0: nat) returns (r: Result<(seq<Data>, nat, nat, bool), Error>)
    requires s.listed && align0 == FirstAlign(s.shdr)
    ensures r.Err? <==> DataError(s.data, |s.data|).Some?
    ensures r.Err? ==> DataError(s.data, |s.data|) == Some(r.error)
    ensures r.Ok? ==> r.value == (PlacedData(s.data, |s.data|), DataEnd(s.data, |s.data|), ScnAlign(s), DataMoved(s))
  {
    hide Align, Word, Max, PowerOrZero, PlacedData, DataStart;
    var data, offset, align, changed := s.data, 0, align0, false;
    PlacedNone(s.data);
    var k := 0;
    while k < |s.data|
      invariant k <= |s.data| == |data| && DataError(s.data, k).None?
      invariant data == PlacedData(s.data, k)
      invariant offset == DataEnd(s.data, k) && align == Widened(align0, s.data, k)
      invariant changed <==> exists i :: 0 <= i < k && s.data[i].off != DataStart(s.data, i)
    {
      PlacedOne(s.data, k);
      var d := data[k];
      if d.version == 0 || d.version >= EV_NUM {
        ErrorStays(s.data, k + 1, |s.data|);
        return Err(EVersion);
      }
      if !PowerOrZero(d.align) {
        ErrorStays(s.data, k + 1, |s.data|);
        return Err(EAlign);
      }
      align := Word(Max(align, d.align));
      offset := Align(offset, d.align);
      if d.off != offset {
        data, changed := data[k := d.(off := offset)], true;
      }
      offset := offset + d.size;
      k := k + 1;
    }
    return Ok((data, offset, align, changed));
  }

  lemma {:induction false} ErrorStays(data: seq<Data>, n: nat, m: nat)
    requires n <= m <= |data| && DataError(data, n).Some?
    ensures DataError(data, m) == DataError(data, n)
    decreases m
  {
    if n < m {
      ErrorStays(data, n, m - 1);
    }
  }

  lemma WordTwice(size: nat, a: nat)
    ensures Word(AlignSize(size, a)) == AlignSize(size, a)
  {}

  /** The body of the loop over sections: places one of them. */
  method PlaceScn(s: Section, size: nat, changed: bool, relocatable: bool, permissive: bool)
    returns (r: Result<(Section, nat, bool), Error>)
    ensures r.Err? <==> ScnError(s, relocatable, permissive).Some?
    ensures r.Err? ==> ScnError(s, relocatable, permissive) == Some(r.error)
    ensures r.Ok? ==> r.value == (PlacedScn(size, changed, s), ScnEnd(size, s), changed || ScnChanges(size, s))
  {
    hide PowerOrZero, PlacedData, DataEnd, Widened, DataError, AlignSize, Word;
    var shdr, align, offset, listed, data, changed' := s.shdr, FirstAlign(s.shdr), 0, s.listed, s.data, changed;
    var shdrDirty := s.shdrDirty;
    if !PowerOrZero(align) {
      return Err(EAlign);
    }
    if shdr.kind.Group? && !relocatable {
      return Err(EGroup);
    }
    shdr, shdrDirty := shdr.(entsize := Entsize(shdr)), shdrDirty || shdr.entsize != Entsize(shdr);
    if listed {
      var placed := PlaceData(s, align);
      if placed.Err? {
        return Err(placed.error);
      }
      var moved;
      data, offset, align, moved := placed.value.0, placed.value.1, placed.value.2, placed.value.3;
      changed' := changed' || moved;
    } else {
      offset := offset + s.raw.size;
    }
    shdr, shdrDirty := shdr.(addralign := align), shdrDirty || shdr.addralign != align;
    var size' := AlignSize(size, align);
    WordTwice(size, align);
    var offsetChanged := shdr.offset != Word(size');
    shdr, changed' := shdr.(offset := Word(size')), changed' || offsetChanged;
    if offsetChanged && !listed {
      listed, data := true, [s.raw];
    }
    shdr, changed' := shdr.(size := Word(offset)), changed' || shdr.size != Word(offset);
    if !shdr.kind.NoBits? {
      size' := size' + offset;
    }
    if shdr.entsize > 1 && !permissive && shdr.size % shdr.entsize != 0 {
      return Err(EEntsize);
    }
    var s' := s.(shdr := shdr, listed := listed, data := data, shdrDirty := shdrDirty, dirty := s.dirty || changed');
    return Ok((s', size', changed'));
  }

  lemma PlacedScns(scns: seq<Section>, start: nat, i: nat)
    requires i < |scns|
    ensures Placed(scns, start, 0) == Placed(scns, start, 1) == scns
    ensures Placed(scns, start, i)[i] == scns[i]
    ensures var placed := PlacedScn(Running(scns, start, i), ChangedBefore(scns, start, i), scns[i]);
      i >= 1 ==> Placed(scns, start, i + 1) == Placed(scns, start, i)[i := placed]
  {
    hide PlacedScn, Running, ChangedBefore;
  }

  lemma {:induction false} FirstErrorStays(scns: seq<Section>, relocatable: bool, permissive: bool, n: nat, m: nat)
    requires n <= m <= |scns| && FirstError(scns, relocatable, permissive, n).Some?
    ensures FirstError(scns, relocatable, permissive, m) == FirstError(scns, relocatable, permissive, n)
    decreases m
  {
    if n < m {
      FirstErrorStays(scns, relocatable, permissive, n, m - 1);
    }
  }

  /** The loop over sections. */
  method PlaceScns(e: Elf, start: nat, permissive: bool) returns (r: Result<nat, Error>)
    requires |e.scns| > 0
    modifies e`scns
    ensures var error := FirstError(old(e.scns), e.ehdr.relocatable, permissive, |old(e.scns)|);
      if error.Some? then r == Err(error.value)
      else r == Ok(Running(old(e.scns), start, |old(e.scns)|)) && e.scns == Placed(old(e.scns), start, |old(e.scns)|)
  {
    hide PlacedScn, ScnError, ScnEnd, ScnChanges, Placed;
    ghost var scns := e.scns;
    var size, changed, i := start, false, 1;
    PlacedScns(scns, start, 0);
    while i < |e.scns|
      invariant 1 <= i <= |scns| == |e.scns| && e.scns == Placed(scns, start, i)
      invariant size == Running(scns, start, i) && changed == ChangedBefore(scns, start, i)
      invariant FirstError(scns, e.ehdr.relocatable, permissive, i).None?
    {
      PlacedScns(scns, start, i);
      var placed := PlaceScn(e.scns[i], size, changed, e.ehdr.relocatable, permissive);
      if placed.Err? {
        FirstErrorStays(scns, e.ehdr.relocatable, permissive, i + 1, |scns|);
        return Err(placed.error);
      }
      e.scns := e.scns[i := placed.value.0];
      size, changed := placed.value.1, placed.value.2;
      i := i + 1;
    }
    return Ok(size);
  }

  /** A count too large for the ELF header goes into section zero. */
  method NumberScns(e: Elf)
    modifies e`scns
    ensures e.scns == Numbered(old(e.scns)) && |e.scns| == |old(e.scns)|
  {
    if |e.scns| >= SHN_LORESERVE {
      var scn := e.scns[0];
      e.scns := e.scns[0 := scn.(shdr := scn.shdr.(size := |e.scns|),
                                shdrDirty := scn.shdrDirty || scn.shdr.size != |e.scns|)];
    }
  }

  /** Stores where the section header table goes; if that changes, everything has to be written. */
  method StoreTable(e: Elf, size: nat)
    modifies e`ehdr, e`ehdrDirty, e`dirty
    ensures e.ehdr == old(e.ehdr).(shentsize := e.fmt.shsz, shoff := Word(size))
    ensures e.ehdrDirty == (old(e.ehdrDirty) || old(e.ehdr.shentsize) != e.fmt.shsz)
    ensures e.dirty == (old(e.dirty) || old(e.ehdr.shoff) != Word(size))
  {
    e.ehdr, e.ehdrDirty := e.ehdr.(shentsize := e.fmt.shsz), e.ehdrDirty || e.ehdr.shentsize != e.fmt.shsz;
    e.ehdr, e.dirty := e.ehdr.(shoff := Word(size)), e.dirty || e.ehdr.shoff != Word(size);
  }

  /** updatenull(): lays out the whole file, and gives its size. */
  method UpdateNull(e: Elf, permissive: bool) returns (r: Result<nat, Error>)
    requires e.phdr.Some? ==> |e.phdr.value| > 0
    modifies e
    ensures var o := old(e.Obj());
      if LayoutError(o, permissive).Some? then r == Err(LayoutError(o, permissive).value)
      else r == Ok(TotalSize(e.fmt, o)) && e.Obj() == LaidOut(e.fmt, o)
  {
    hide Placed, FirstError, RoundUp, Running, Numbered, Word;
    DefaultEhdr(e);
    var size := e.fmt.ehsz + if e.phdr.Some? then |e.phdr.value| else 0;
    if |e.scns| > 0 {
      NumberScns(e);
      var placed := PlaceScns(e, size, permissive);
      if placed.Err? {
        return placed;
      }
      size := RoundUp(placed.value, if e.fmt.is64 then 8 else 4);
      StoreTable(e, size);
      size := size + |e.scns| * e.fmt.shsz;
    } else {
      NoScns(e.fmt, old(e.Obj()), permissive);
    }
    return Ok(size);
  }

  lemma NoScns(c: Format, o: Object, permissive: bool)
    requires o.scns == []
    ensures LayoutError(o, permissive).None? && LaidOut(c, o).scns == []
  {}
}
