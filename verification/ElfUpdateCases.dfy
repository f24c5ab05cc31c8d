/** Files of the 32-bit class on which an update goes wrong. */
module ElfUpdateCases {
  import opened Arith
  import opened Memory
  import opened Options
  import opened ElfObject
  import opened ElfLayout
  import opened ElfLayoutFacts
  import opened ElfImage
  import opened ElfUpdateFacts

  /** Record sizes of the 32-bit class; translators are arbitrary. */
  ghost predicate Elf32(c: Context) {
    && c.codec.Valid() && !c.is64 && c.version == 1
    && c.codec.ehsz == 52 && c.codec.phsz == 32 && c.codec.shsz == 40
    && c.codec.fsz(Byte) == 1 && c.codec.msz(Byte) == 1 && c.codec.fsz(Word) == 4 && c.codec.msz(Word) == 4
  }

  function Header(c: Context, shoff: nat, phnum: nat): ExecHeader {
    ExecHeader(false, c.byteorder, 1, 0, shoff, phnum, 2, true, 1, 52, 32, 40, 0)
  }

  const ZERO := Scn(SectionHeader(Null, 0, 0, 0, 0, 0, 0, 0), [], false, 0, 0, 0, 0, None)

  /** The section in a file that was written with header, four bytes of contents, and the section header table. */
  const UNTOUCHED := Scn(SectionHeader(Contents(Byte), 1, 0, 52, 4, 0, 0, 0), [], false, 1, 52, 52, 4, None)

  /** That file as it was opened, with three program headers added. */
  function Moved(c: Context, phdr: seq<byte>): Object {
    Object(Header(c, 56, 0), [phdr, phdr, phdr], [ZERO, UNTOUCHED])
  }

  lemma MovedLayout(c: Context, phdr: seq<byte>)
    requires Elf32(c) && |phdr| == 32
    ensures WellFormed(c, Moved(c, phdr))
    ensures Headers(c, Moved(c, phdr)).end == 148
    ensures LayoutScn(c, UNTOUCHED, 148).Ok? && LayoutScn(c, UNTOUCHED, 148).value.offset == 148
  {
    RoundUpFixed(52, 4);
    RoundUpFixed(148, 1);
  }

  /** A section zero takes no part in the layout. */
  lemma AfterZero(c: Context, s: Scn, scns: seq<Scn>, start: Layout)
    requires c.codec.Valid() && |scns| > 1 && scns[0] == ZERO && s == scns[1] && s.shdr.shtype.Contents?
    requires (forall t :: t in scns ==> Known(c, t)) && LayoutScn(c, s, start.end).Ok?
    requires LayoutScn(c, s, start.end).value.size > 0
    ensures LayoutScns(c, scns, 2, start).Ok?
    ensures LayoutScns(c, scns, 2, start).value.scns == [ZERO, LayoutScn(c, s, start.end).value]
    ensures var s' := LayoutScn(c, s, start.end).value;
      LayoutScns(c, scns, 2, start).value.end == s'.offset + s'.size
  {
    hide LayoutScn, Known;
    NoSections(c, scns, start);
    LayoutOne(c, scns, 0, start);
    LayoutOne(c, scns, 1, start);
  }

  lemma MovedObject(c: Context, phdr: seq<byte>)
    requires Elf32(c) && |phdr| == 32 && c.cmd.ReadWrite? && c.raw.Some? && |c.raw.value| == 136
    ensures var o := Moved(c, phdr);
      && WellFormed(c, o) && Supported(c, o) && LayoutObject(c, o).Ok?
      && LayoutObject(c, o).value.size == 232 && |LayoutObject(c, o).value.obj.scns| == 2
      && LayoutObject(c, o).value.obj.scns[1].Occupies() && !Available(c, LayoutObject(c, o).value.obj.scns[1])
      && 232 <= c.Limit()
  {
    hide LayoutScns, Headers;
    var o := Moved(c, phdr);
    MovedLayout(c, phdr);
    AfterZero(c, UNTOUCHED, o.scns, Headers(c, o));
    RoundUpFixed(152, 4);
  }

  /** The four bytes move behind the end of the old file, where elf_rawdata() refuses to look for them. */
  lemma MovedCannotBeWritten(c: Context, phdr: seq<byte>)
    requires Elf32(c) && |phdr| == 32 && c.cmd.ReadWrite? && c.raw.Some? && |c.raw.value| == 136
    ensures var o := Moved(c, phdr);
      && WellFormed(c, o) && Supported(c, o) && LayoutObject(c, o).Ok?
      && LayoutObject(c, o).value.size == 232 && !Buildable(c, LayoutObject(c, o).value)
  {
    hide LayoutObject, WellFormed, Laid, Readable, TypeAligned, Buildable, Elf32;
    var o := Moved(c, phdr);
    MovedObject(c, phdr);
    LayoutIsLaid(c, o);
    SupportedLayout(c, o);
    WriteSucceedsIff(c, LayoutObject(c, o).value);
  }

  /** Two bytes of contents, and one word whose header asks for an alignment of 2. */
  function Bytes(): Scn {
    var d := Data(Byte, 1, 1, 2, 0, Some([0, 0]));
    Scn(SectionHeader(Contents(Byte), 1, 0, 0, 0, 0, 0, 0), [d], true, 1, 0, 0, 0, None)
  }

  function Words(): Scn {
    var d := Data(Word, 1, 1, 4, 0, Some([0, 0, 0, 0]));
    Scn(SectionHeader(Contents(Word), 2, 0, 0, 0, 0, 0, 0), [d], true, 2, 0, 0, 0, None)
  }

  lemma OneBuffer(c: Context, d: Data)
    requires Elf32(c) && d.dtype in {Byte, Word} && d.version == 1 && d.align == 1 && d.size % c.codec.msz(d.dtype) == 0
    ensures FirstError(c, [d], 1).None? && MaxAlign([d], 1) == 1 && DataSize(c, [d], 1) == c.FileSize(d)
  {
    assert FirstError(c, [d], 0).None? && MaxAlign([d], 0) == 0 && DataSize(c, [d], 0) == 0;
    RoundUpFixed(0, 1);
  }

  lemma BytesLayout(c: Context)
    requires Elf32(c)
    ensures Known(c, Bytes()) && LayoutScn(c, Bytes(), 52).Ok?
    ensures var s := LayoutScn(c, Bytes(), 52).value; s.offset == 52 && s.size == 2
  {
    OneBuffer(c, Bytes().data[0]);
    RoundUpFixed(52, 1);
  }

  lemma WordsLayout(c: Context)
    requires Elf32(c)
    ensures Known(c, Words()) && LayoutScn(c, Words(), 54).Ok?
    ensures var s := LayoutScn(c, Words(), 54).value; s.offset == 54 && s.Occupies() && s.shdr.shtype == Contents(Word)
  {
    OneBuffer(c, Words().data[0]);
    RoundUpFixed(54, 2);
  }

  /** The layout puts the word at offset 54, and the assert of _libelf_write_scn() fails. */
  lemma HalfwordBreaksAssert(c: Context)
    requires Elf32(c)
    ensures var o := Object(Header(c, 0, 0), [], [ZERO, Bytes(), Words()]);
      WellFormed(c, o) && LayoutObject(c, o).Ok? && !TypeAligned(c, LayoutObject(c, o).value.obj)
  {
    hide LayoutScn, FirstError, RoundUp, UpdatedHeader;
    var o := Object(Header(c, 0, 0), [], [ZERO, Bytes(), Words()]);
    var start := Headers(c, o);
    BytesLayout(c);
    WordsLayout(c);
    AfterZero(c, Bytes(), o.scns, start);
    LayoutOne(c, o.scns, 2, start);
    var l := LayoutScns(c, o.scns, 3, start).value;
    assert l.scns[2] == LayoutScn(c, Words(), 54).value;
    assert LayoutObject(c, o).value.obj.scns[2] == l.scns[2];
  }

  /** A section of a file, of almost 4 GiB, that has not been touched. */
  const FAR := UNTOUCHED.(shdr := UNTOUCHED.shdr.(size := TWO32 - 52), size := TWO32 - 52)

  lemma FarLayout(c: Context)
    requires Elf32(c)
    ensures Known(c, FAR) && LayoutScn(c, FAR, 52).Ok?
    ensures var s := LayoutScn(c, FAR, 52).value; s.offset == 52 && s.size == TWO32 - 52
  {
    RoundUpFixed(52, 1);
  }

  /** The section header table goes to 4 GiB, and `e_shoff` says 0. */
  lemma TableTooFar(c: Context)
    requires Elf32(c)
    ensures var o := Object(Header(c, 0, 0), [], [ZERO, FAR]);
      && WellFormed(c, o) && LayoutObject(c, o).Ok?
      && RoundUp(LayoutScns(c, o.scns, 2, Headers(c, o)).value.end, FAlign(Shdr, c.is64)) == TWO32
      && LayoutObject(c, o).value.obj.ehdr.shoff == 0
  {
    hide LayoutScn;
    var o := Object(Header(c, 0, 0), [], [ZERO, FAR]);
    FarLayout(c);
    AfterZero(c, FAR, o.scns, Headers(c, o));
    RoundUpFixed(TWO32, 4);
  }
}
