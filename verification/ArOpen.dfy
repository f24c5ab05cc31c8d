/** _libelf_ar_open(): finds the special members at the start of an archive, and the first ordinary one. */
module ArOpen {
  import opened Memory
  import opened Options
  import opened ArWalk

  datatype Error = EArchive

  /** What opening finds out: the flavour, the symbol and string tables, and where to start. */
  datatype Opening = Opening(svr4: bool, symtab: Option<Member>, strtab: Option<Member>, next: nat)

  const BACKTICK: byte := 96
  const NEWLINE: byte := 10

  /** "__.SYMDEF" */
  const BSD_SYMTAB: seq<byte> := [95, 95, 46, 83, 89, 77, 68, 69, 70]

  predicate HasMagic(raw: seq<byte>, at: nat)
    requires HasHeader(raw, at)
  {
    raw[at + FMAG_AT] == BACKTICK && raw[at + FMAG_AT + 1] == NEWLINE
  }

  /** READ_AR_HEADER succeeds. */
  predicate Readable(raw: seq<byte>, at: nat) {
    HasHeader(raw, at) && HasMagic(raw, at) && SizeField(raw, at).Some?
  }

  predicate IsSymtab(raw: seq<byte>, at: nat)
    requires HasHeader(raw, at)
  {
    raw[at] == SLASH && raw[at + 1] == SPACE
  }

  predicate IsStrtab(raw: seq<byte>, at: nat)
    requires HasHeader(raw, at)
  {
    raw[at] == SLASH && raw[at + 1] == SLASH && raw[at + 2] == SPACE
  }

  predicate IsBsdSymtab(raw: seq<byte>, at: nat)
    requires HasHeader(raw, at)
  {
    raw[at..at + |BSD_SYMTAB|] == BSD_SYMTAB
  }

  /** READ_AR_HEADER */
  method ReadHeader(raw: seq<byte>, at: nat) returns (sz: Option<nat>)
    ensures sz.Some? <==> Readable(raw, at)
    ensures sz.Some? ==> sz == SizeField(raw, at)
  {
    if at + HDRSZ > |raw| {
      return None;
    }
    if raw[at + FMAG_AT] != BACKTICK || raw[at + FMAG_AT + 1] != NEWLINE {
      return None;
    }
    sz := GetNumber(raw[at + SIZE_AT..at + SIZE_AT + SIZESZ], 10);
  }

  /** Where a member ends by its header alone, whether or not it lies in the file. */
  function Behind(raw: seq<byte>, at: nat): nat
    requires HasHeader(raw, at) && SizeField(raw, at).Some?
  {
    at + HDRSZ + Even(SizeField(raw, at).value)
  }

  function Table(raw: seq<byte>, at: nat): Member
    requires HasHeader(raw, at) && SizeField(raw, at).Some?
  {
    Member(at + HDRSZ, SizeField(raw, at).value)
  }

  /**
   * An archive is opened unless its first header is bad, or is that of an empty SVR4 table or of a lone symbol table.
   */
  predicate CanOpen(raw: seq<byte>) {
    && Readable(raw, SARMAG)
    && (raw[SARMAG] == SLASH ==> SizeField(raw, SARMAG).value > 0)
    && (IsSymtab(raw, SARMAG) ==> Readable(raw, Behind(raw, SARMAG)))
  }

  /** _libelf_ar_open() */
  method Open(raw: seq<byte>) returns (r: Result<Opening, Error>)
    ensures r.Ok? <==> CanOpen(raw)
    ensures r.Ok? ==> r.value == Found(raw)
  {
    var s := SARMAG;
    var sz := ReadHeader(raw, s);
    if sz.None? {
      return Err(EArchive);
    }
    var symtab, strtab, svr4 := None, None, false;
    if raw[s] == SLASH {
      if sz.value == 0 {
        return Err(EArchive);
      }
      svr4 := true;
      var scanahead := false;
      if raw[s + 1] == SPACE {
        scanahead := true;
        symtab := Some(Member(s + HDRSZ, sz.value));
        s := s + HDRSZ + Even(sz.value);
      } else if raw[s + 1] == SLASH && raw[s + 2] == SPACE {
        strtab := Some(Member(s + HDRSZ, sz.value));
        s := s + HDRSZ + Even(sz.value);
      }
      if scanahead {
        sz := ReadHeader(raw, s);
        if sz.None? {
          return Err(EArchive);
        }
        if raw[s] == SLASH && raw[s + 1] == SLASH && raw[s + 2] == SPACE {
          strtab := Some(Member(s + HDRSZ, sz.value));
          s := s + HDRSZ + Even(sz.value);
        }
      }
    } else if raw[s..s + |BSD_SYMTAB|] == BSD_SYMTAB {
      symtab := Some(Member(s + HDRSZ, sz.value));
      s := s + HDRSZ + Even(sz.value);
    }
    return Ok(Opening(svr4, symtab, strtab, s));
  }

  /** The tables at the start, and the position behind them. */
  function Found(raw: seq<byte>): Opening
    requires CanOpen(raw)
  {
    var after := Behind(raw, SARMAG);
    if IsSymtab(raw, SARMAG) && IsStrtab(raw, after) then
      Opening(true, Some(Table(raw, SARMAG)), Some(Table(raw, after)), Behind(raw, after))
    else if IsSymtab(raw, SARMAG) then Opening(true, Some(Table(raw, SARMAG)), None, after)
    else if IsStrtab(raw, SARMAG) then Opening(true, None, Some(Table(raw, SARMAG)), after)
    else if IsBsdSymtab(raw, SARMAG) then Opening(false, Some(Table(raw, SARMAG)), None, after)
    else Opening(raw[SARMAG] == SLASH, None, None, SARMAG)
  }

  lemma BehindIsAfter(raw: seq<byte>, at: nat)
    requires MemberOk(raw, at)
    ensures Behind(raw, at) == After(raw, at)
  {}

  /** The number of special members that opening passes over. */
  function Leading(raw: seq<byte>): nat
    requires CanOpen(raw)
  {
    var f := Found(raw);
    (if f.symtab.Some? then 1 else 0) + if f.strtab.Some? then 1 else 0
  }

  /**
   * In a file that consists of members, walking starts right behind the special members: what it will visit is the list
   * of all members without them.
   */
  lemma StartsAtOrdinary(raw: seq<byte>)
    requires Chain(raw, SARMAG) && CanOpen(raw) && Found(raw).next < |raw|
    ensures Chain(raw, Found(raw).next) && Leading(raw) <= |Members(raw, SARMAG)|
    ensures Members(raw, Found(raw).next) == Members(raw, SARMAG)[Leading(raw)..]
  {
    hide MemberOk, SizeField, NameField;
    var after := Behind(raw, SARMAG);
    BehindIsAfter(raw, SARMAG);
    if Leading(raw) == 0 {
      assert Members(raw, SARMAG)[0..] == Members(raw, SARMAG);
    } else if Leading(raw) == 2 {
      BehindIsAfter(raw, after);
      assert Members(raw, SARMAG)[2..] == Members(raw, after)[1..];
    }
  }

  /**
   * From opening to the end: all ordinary members are visited once and in order exactly if all of them can be opened.
   */
  lemma WalkVisitsAll(raw: seq<byte>, accepts: seq<byte> -> bool)
    requires Chain(raw, SARMAG) && CanOpen(raw) && Found(raw).next < |raw|
    ensures Chain(raw, Found(raw).next) && Leading(raw) <= |Members(raw, SARMAG)|
    ensures var ordinary := Members(raw, SARMAG)[Leading(raw)..];
      Openable(raw, accepts, Found(raw).next) == ordinary <==> AllOpen(raw, accepts, ordinary)
  {
    StartsAtOrdinary(raw);
    OpenableIff(raw, accepts, Found(raw).next);
  }

  /** A table that opening finds is the first member of the file, or a string table the one behind the symbol table. */
  lemma TablesAreMembers(raw: seq<byte>)
    requires Chain(raw, SARMAG) && CanOpen(raw)
    ensures Found(raw).symtab.Some? ==> Found(raw).symtab.value == Members(raw, SARMAG)[0]
    ensures var k := if Found(raw).symtab.Some? then 1 else 0;
      Found(raw).strtab.Some? ==>
        && (k == 1 ==> Chain(raw, After(raw, SARMAG))) && k < |Members(raw, SARMAG)|
        && Found(raw).strtab.value == Members(raw, SARMAG)[k]
  {
    hide SizeField, Even;
    BehindIsAfter(raw, SARMAG);
  }

  /** What opening takes for tables, and when it refuses a file, by the bytes at the start of the file. */
  lemma OpenedBy(raw: seq<byte>)
    requires |raw| >= 68
    ensures var slash, blank := raw[8] == 0x2F, raw[8] == 0x2F && raw[9] == 0x20;
      && (CanOpen(raw) <==>
            && HeaderReads(raw, 8) && (slash ==> Number(raw[56..66], 10).value > 0)
            && (blank ==> HeaderReads(raw, 68 + Even(Number(raw[56..66], 10).value))))
      && (CanOpen(raw) ==>
            && (Found(raw).svr4 <==> slash)
            && (Found(raw).symtab.Some? <==>
                  blank || raw[8..17] == [0x5F, 0x5F, 0x2E, 0x53, 0x59, 0x4D, 0x44, 0x45, 0x46])
            && (Found(raw).strtab.Some? <==>
                  var at := if blank then 68 + Even(Number(raw[56..66], 10).value) else 8;
                  at + 60 <= |raw| && raw[at] == 0x2F && raw[at + 1] == 0x2F && raw[at + 2] == 0x20))
  {
    hide Number, Even;
    assert raw[8..17][0] == raw[8];
  }

  predicate HeaderReads(raw: seq<byte>, at: nat) {
    at + 60 <= |raw| && raw[at + 58] == 0x60 && raw[at + 59] == 0x0A && Number(raw[at + 48..at + 58], 10).Some?
  }

  /**
   * In a file that consists of members, the first elf_begin() after opening reads a header in the file exactly if there
   * is a member besides the special ones; otherwise the cursor is at the end of the file, or behind it.
   */
  lemma FirstBeginInsideIff(raw: seq<byte>)
    requires Chain(raw, SARMAG) && CanOpen(raw)
    ensures HasHeader(raw, Found(raw).next) <==> Leading(raw) < |Members(raw, SARMAG)|
    ensures !HasHeader(raw, Found(raw).next) ==> |raw| <= Found(raw).next
  {
    hide MemberOk, SizeField, NameField;
    if Found(raw).next < |raw| {
      StartsAtOrdinary(raw);
    } else {
      BehindIsAfter(raw, SARMAG);
      if Leading(raw) == 2 {
        BehindIsAfter(raw, Behind(raw, SARMAG));
      }
    }
  }

  /** "//", and a string table of two bytes */
  const ONLY_STRINGS: seq<byte> :=
    [33, 60, 97, 114, 99, 104, 62, 10] + [SLASH, SLASH] + Repeat(SPACE, 46) + [50] + Repeat(SPACE, 9)
    + [BACKTICK, NEWLINE, 0, 0]

  /** An archive of this member only */
  lemma OnlyStringTable()
    ensures |ONLY_STRINGS| == 70 && Chain(ONLY_STRINGS, SARMAG) && CanOpen(ONLY_STRINGS)
    ensures Found(ONLY_STRINGS).next == 70
  {
    hide Number;
    var raw := ONLY_STRINGS;
    NumberRoundTrip(2, 0, 9);
    assert raw[SARMAG + SIZE_AT..SARMAG + SIZE_AT + SIZESZ] == Repeat(SPACE, 0) + Decimal(2) + Repeat(SPACE, 9);
    assert SizeField(raw, SARMAG) == Some(2);
    assert NameField(raw, SARMAG) == Some(0);
    assert MemberOk(raw, SARMAG) && After(raw, SARMAG) == 70;
  }
}
