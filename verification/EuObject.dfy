/** elfutils' view of an ELF file: headers, section list and dirty flags, and where their bytes are kept. */
module EuObject {
  import opened Memory
  import opened Options

  datatype Ehdr = Ehdr(relocatable: bool, phoff: nat, shoff: nat, shnum: nat, ehsize: nat, shentsize: nat, other: nat)

  /** What the layout distinguishes of sh_type: the entry size goes with the type for tables. */
  datatype Kind = NoBits | Group | Table(entsize: nat) | Other

  datatype Shdr = Shdr(kind: Kind, offset: nat, size: nat, addralign: nat, entsize: nat, other: nat)

  /** A buffer is in memory of its own, or in the mapping of the file that is to be written. */
  datatype Buf = NoBuf | Heap(bytes: seq<byte>) | InMap(from: nat)

  datatype Data = Data(off: nat, size: nat, align: nat, version: nat, buf: Buf, dirty: bool)

  /**
   * A section.  `listed` says whether its data list exists; `raw` is what is read from the file otherwise.  The header
   * is in the mapping at `at`, or else in memory of its own.
   */
  datatype Section = Section(ndx: nat, shdr: Shdr, at: Option<nat>, listed: bool, data: seq<Data>, raw: Data,
                             dirty: bool, shdrDirty: bool)

  /** Record sizes, and the bytes of a record in a file without change of byte order. */
  datatype Format = Format(is64: bool, ehsz: nat, phsz: nat, shsz: nat, ehdrOut: Ehdr -> seq<byte>,
                           shdrOut: Shdr -> seq<byte>)
  {
    ghost predicate Valid() {
      && ehsz > 0 && phsz > 0 && shsz > 0
      && (forall e :: |ehdrOut(e)| == ehsz) && (forall s :: |shdrOut(s)| == shsz)
    }
  }

  function EhdrBytes(c: Format, e: Ehdr): seq<byte> { c.ehdrOut(e) }

  function ShdrBytes(c: Format, s: Shdr): seq<byte> { c.shdrOut(s) }

  /** The record sizes of the 32-bit class, and records of zeros */
  function Elf32(): (c: Format)
    ensures c.Valid() && !c.is64 && c.ehsz == 52 && c.shsz == 40
  {
    Format(false, 52, 32, 40, _ => Repeat(0, 52), _ => Repeat(0, 40))
  }

  /** The value of an Elf descriptor; `phdr` is the program header table in file form. */
  datatype Object = Object(ehdr: Ehdr, ehdrDirty: bool, phdr: Option<seq<byte>>, phdrDirty: bool, scns: seq<Section>,
                           dirty: bool)
  {
    function PhdrSize(): nat {
      if phdr.Some? then |phdr.value| else 0
    }
  }

  /**
   * The descriptor.  `count` is the length of the array of section headers that there is once they have been read: the
   * headers of the first sections are its entries, later sections have memory of their own.
   */
  class Elf {
    const fmt: Format
    const count: Option<nat>
    var ehdr: Ehdr
    var ehdrDirty: bool
    var phdr: Option<seq<byte>>
    var phdrDirty: bool
    var scns: seq<Section>
    var dirty: bool

    constructor (fmt: Format, count: Option<nat>, o: Object)
      ensures this.fmt == fmt && this.count == count && Obj() == o
    {
      this.fmt, this.count := fmt, count;
      ehdr, ehdrDirty, phdr, phdrDirty, scns, dirty := o.ehdr, o.ehdrDirty, o.phdr, o.phdrDirty, o.scns, o.dirty;
    }

    function Obj(): Object
      reads this
    {
      Object(ehdr, ehdrDirty, phdr, phdrDirty, scns, dirty)
    }

    /** elf_newscn(): the first section that is asked for comes after section zero. */
    method NewScn() returns (ndx: nat)
      modifies `scns
      ensures var none := Data(0, 0, 0, 0, NoBuf, false);
        var zero := Section(0, Shdr(Other, 0, 0, 0, 0, 0), None, false, [], none, false, true);
        && ndx == (if old(scns) == [] then 1 else |old(scns)|)
        && scns == (if old(scns) == [] then [zero] else old(scns)) + [zero.(ndx := ndx, dirty := true)]
    {
      if |scns| == 0 {
        scns := [NewSection(0)];
      }
      ndx := |scns|;
      scns := scns + [NewSection(ndx)];
    }
  }

  /** An empty section with a header of zeros */
  function NewSection(ndx: nat): Section {
    Section(ndx, Shdr(Other, 0, 0, 0, 0, 0), None, false, [], Data(0, 0, 0, 0, NoBuf, false), ndx > 0, true)
  }

  /** The section list: position is index, and only sections of a known kind. */
  ghost predicate Indexed(scns: seq<Section>) {
    forall i :: 0 <= i < |scns| ==> scns[i].ndx == i
  }
}
