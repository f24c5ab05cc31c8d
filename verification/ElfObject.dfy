/** The parts of an ELF descriptor that elf_update() reads and rewrites. */
module ElfObject {
  import opened Arith
  import opened Memory
  import opened Options

  datatype ElfType =
    | Addr | Byte | Cap | Dyn | Ehdr | Half | Lword | Move | MoveP | Note | Off | Phdr | Rel | Rela
    | Shdr | Sword | Sxword | Syminfo | Sym | Vdef | Vneed | Word | Xword | GnuHash
    | Invalid  // any value from ELF_T_NUM upwards

  /** The alignment of a type in a file; zero for a type the class does not have. */
  function FAlign(t: ElfType, is64: bool): nat {
    match t
    case Byte => 1
    case Half | Syminfo => 2
    case Note | Sword | Vdef | Vneed | Word => 4
    case Lword | Move => 8
    case Sxword | Xword => if is64 then 8 else 0
    case MoveP | Invalid => 0
    case _ => if is64 then 8 else 4
  }

  datatype Error = EArgument | EClass | EData | EHeader | EMode | ERange
    | ESection | ESequence | EVersion
    | EOutput  // whatever elf_rawdata() or the translator reported while the image was written

  /** What a section's sh_type means to the library: contents are translated as type `t`. */
  datatype SectionType = Null | Nobits | Contents(t: ElfType)

  datatype SectionHeader = SectionHeader(
    shtype: SectionType, addralign: nat, entsize: nat, offset: nat, size: nat, link: nat, info: nat, rest: nat)

  datatype ExecHeader = ExecHeader(
    class64: bool, byteorder: nat, version: nat, phoff: nat, shoff: nat, phnum: nat, shnum: nat,
    magic: bool, identVersion: nat, ehsize: nat, phentsize: nat, shentsize: nat, rest: nat)

  /** A data descriptor: `size` bytes of memory of type `dtype`. */
  datatype Data = Data(dtype: ElfType, version: nat, align: nat, size: nat, off: nat, buf: Option<seq<byte>>)

  /** A section descriptor. `raw` is the size of its raw data descriptor, once there is one. */
  datatype Scn = Scn(
    shdr: SectionHeader, data: seq<Data>, dirty: bool, ndx: nat,
    offset: nat, rawoff: nat, size: nat, raw: Option<nat>)
  {
    /** The section has contents in the file image. */
    predicate Occupies() { shdr.shtype.Contents? && size > 0 }
  }

  /** Record sizes and translators between memory and file representations. */
  datatype Codec = Codec(
    ehsz: nat, phsz: nat, shsz: nat,
    fsz: ElfType -> nat, msz: ElfType -> nat,
    ehdr: ExecHeader -> seq<byte>,
    shdr: SectionHeader -> seq<byte>,
    shdrIn: seq<byte> -> SectionHeader,
    toFile: (ElfType, seq<byte>) -> Option<seq<byte>>,
    toMemory: (ElfType, seq<byte>) -> Option<seq<byte>>)
  {
    ghost predicate Valid() {
      && ehsz > 0 && phsz > 0 && shsz > 0
      && (forall t :: fsz(t) > 0 && msz(t) > 0)
      && (forall h :: |ehdr(h)| == ehsz)
      && (forall h :: |shdr(h)| == shsz)
      && (forall t, m :: toFile(t, m).Some? ==> |toFile(t, m).value| == fsz(t) * (|m| / msz(t)))
      && (forall t, f :: toMemory(t, f).Some? ==> |toMemory(t, f).value| == msz(t) * (|f| / fsz(t)))
    }
  }

  datatype Cmd = Read | Write | ReadWrite

  /** What does not change during an update: the class, the mode and the file as it was read. */
  datatype Context = Context(
    codec: Codec, is64: bool, cmd: Cmd, version: nat, byteorder: nat, raw: Option<seq<byte>>, fillchar: byte)
  {
    /** A header field keeps 32 bits in the 32 bit class. */
    function Store(x: nat): nat {
      if is64 then x else x % TWO32
    }

    /** The bytes a descriptor takes in the file. */
    function FileSize(d: Data): nat
      requires codec.msz(d.dtype) > 0
    {
      codec.fsz(d.dtype) * (d.size / codec.msz(d.dtype))
    }

    /** The largest size an image can have: e_shoff must hold an offset into it, off_t its size. */
    function Limit(): nat {
      if is64 then TWO64 / 2 - 1 else TWO32 - 1
    }
  }
}
