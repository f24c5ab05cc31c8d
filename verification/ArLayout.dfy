/** Archives as ar(1) writes them, and what opening and walking find in them. */
module ArLayout {
  import opened Memory
  import opened Options
  import opened ArWalk
  import opened ArOpen

  const NEW_LINE: byte := 0x0A

  /**
   * A member to be archived: the name field of its header, or a long name that is stored in front of its contents; the
   * four fields between name and size; and its contents.
   */
  datatype Item = Item(name: seq<byte>, long: Option<seq<byte>>, meta: seq<byte>, contents: seq<byte>)

  function Padded(s: seq<byte>, n: nat): seq<byte> {
    s + if |s| < n then Repeat(0x20, n - |s|) else []
  }

  function NameOf(m: Item): seq<byte> {
    if m.long.None? then m.name else Padded([0x23, 0x31, 0x2F] + Decimal(|m.long.value|), 16)
  }

  function BodyOf(m: Item): seq<byte> {
    (if m.long.None? then [] else m.long.value) + m.contents
  }

  predicate Archivable(m: Item) {
    && |m.meta| == 32 && |Decimal(|BodyOf(m)|)| <= 10
    && if m.long.Some? then |Decimal(|m.long.value|)| <= 13 else |m.name| == 16 && m.name[..3] != [0x23, 0x31, 0x2F]
  }

  /** A header of sixty bytes, the body, and a byte that makes the length even. */
  function EncodeItem(m: Item): seq<byte> {
    NameOf(m) + m.meta + Padded(Decimal(|BodyOf(m)|), 10) + [0x60, 0x0A]
    + BodyOf(m) + if |BodyOf(m)| % 2 == 0 then [] else [NEW_LINE]
  }

  function EncodeItems(ms: seq<Item>): seq<byte> {
    if |ms| == 0 then [] else EncodeItem(ms[0]) + EncodeItems(ms[1..])
  }

  /** "!<arch>" and a newline, and the members. */
  function EncodeArchive(ms: seq<Item>): seq<byte> {
    [0x21, 0x3C, 0x61, 0x72, 0x63, 0x68, 0x3E, 0x0A] + EncodeItems(ms)
  }

  /** Where things are in an encoded member. */
  lemma ItemParts(m: Item)
    requires Archivable(m)
    ensures var e := EncodeItem(m);
      && |e| % 2 == 0 && 60 + |BodyOf(m)| <= |e| <= 61 + |BodyOf(m)|
      && e[..16] == NameOf(m) && e[48..58] == Padded(Decimal(|BodyOf(m)|), 10)
      && e[58] == 0x60 && e[59] == 0x0A && e[60..60 + |BodyOf(m)|] == BodyOf(m)
  {
    hide Decimal, BodyOf;
    var body, size := BodyOf(m), Padded(Decimal(|BodyOf(m)|), 10);
    assert |NameOf(m)| == 16 && |size| == 10;
    var head := NameOf(m) + m.meta;
    var pad := if |body| % 2 == 0 then [] else [NEW_LINE];
    hide NameOf, Padded;
    assert EncodeItem(m) == head + size + [0x60, 0x0A] + body + pad;
    assert |head| == 48;
    assert head[..16] == NameOf(m);
  }

  lemma FieldIs(n: nat, width: nat)
    requires |Decimal(n)| <= width
    ensures Number(Padded(Decimal(n), width), 10) == Some(n)
  {
    hide Number, Decimal;
    var k := width - |Decimal(n)|;
    NumberRoundTrip(n, 0, k);
    assert Repeat(SPACE, 0) + Decimal(n) + Repeat(SPACE, k) == Padded(Decimal(n), width);
  }

  lemma Inner(raw: seq<byte>, at: nat, e: seq<byte>, i: nat, j: nat)
    requires at + |e| <= |raw| && raw[at..at + |e|] == e && i <= j <= |e|
    ensures raw[at + i..at + j] == e[i..j]
  {
    forall k | 0 <= k < j - i
      ensures raw[at + i..at + j][k] == e[i..j][k]
    {
      assert raw[at..at + |e|][i + k] == raw[at + i + k];
    }
  }

  /** The numbers in the header of a member that starts at an even position. */
  lemma HeaderIs(raw: seq<byte>, at: nat, m: Item)
    requires Archivable(m) && at % 2 == 0
    requires at + |EncodeItem(m)| <= |raw| && raw[at..at + |EncodeItem(m)|] == EncodeItem(m)
    ensures HasHeader(raw, at) && HasMagic(raw, at) && SizeField(raw, at) == Some(|BodyOf(m)|)
    ensures NameField(raw, at) == Some(if m.long.None? then 0 else |m.long.value|)
    ensures raw[at..at + 16] == NameOf(m) && raw[at + 60..at + 60 + |BodyOf(m)|] == BodyOf(m)
  {
    hide Number, Decimal, EncodeItem, BodyOf;
    ItemParts(m);
    var e := EncodeItem(m);
    Inner(raw, at, e, 0, 16);
    Inner(raw, at, e, 48, 58);
    Inner(raw, at, e, 58, 59);
    Inner(raw, at, e, 59, 60);
    Inner(raw, at, e, 60, 60 + |BodyOf(m)|);
    assert raw[at + 58] == raw[at + 58..at + 59][0] && e[58] == e[58..59][0];
    assert raw[at + 59] == raw[at + 59..at + 60][0] && e[59] == e[59..60][0];
    FieldIs(|BodyOf(m)|, 10);
    LongName(raw, at, m);
  }

  lemma LongName(raw: seq<byte>, at: nat, m: Item)
    requires Archivable(m) && at + 60 <= |raw| && raw[at..at + 16] == NameOf(m)
    ensures NameField(raw, at) == Some(if m.long.None? then 0 else |m.long.value|)
  {
    hide Number, Decimal, BodyOf;
    var name := raw[at..at + 16];
    assert raw[at] == name[0] && raw[at + 1] == name[1] && raw[at + 2] == name[2];
    if m.long.Some? {
      FieldIs(|m.long.value|, 13);
      assert raw[at + 3..at + 16] == name[3..16] == Padded(Decimal(|m.long.value|), 13);
    } else {
      assert name[..3] == [name[0], name[1], name[2]];
    }
  }

  lemma EvenIs(x: nat, y: nat)
    requires y % 2 == 0 && x <= y <= x + 1
    ensures Even(x) == y
  {}

  lemma FromMember(raw: seq<byte>, at: nat, n: nat, size: nat)
    requires HasHeader(raw, at) && at % 2 == 0 && SizeField(raw, at) == Some(size) && NameField(raw, at) == Some(n)
    requires n <= size && at + 60 + size <= |raw|
    ensures MemberOk(raw, at) && After(raw, at) == Even(at + 60 + size)
    ensures MemberAt(raw, at) == Member(at + 60 + n, size - n)
  {
    hide SizeField, NameField, Even;
  }

  lemma Contents(m: Item)
    ensures var n := if m.long.None? then 0 else |m.long.value|;
      n <= |BodyOf(m)| && BodyOf(m)[n..] == m.contents && |m.contents| == |BodyOf(m)| - n
  {}

  lemma Tail(raw: seq<byte>, start: nat, size: nat, n: nat, body: seq<byte>)
    requires start + size <= |raw| && raw[start..start + size] == body && n <= size
    ensures raw[start + n..start + size] == body[n..]
  {}

  /** The member at a position, and where the next one is. */
  lemma MemberIs(raw: seq<byte>, at: nat, m: Item)
    requires Archivable(m) && at % 2 == 0
    requires at + |EncodeItem(m)| <= |raw| && raw[at..at + |EncodeItem(m)|] == EncodeItem(m)
    ensures MemberOk(raw, at) && After(raw, at) == at + |EncodeItem(m)|
    ensures var x := MemberAt(raw, at);
      x.start + x.size <= |raw| && raw[x.start..x.start + x.size] == m.contents
  {
    hide SizeField, NameField, EncodeItem, NameOf, BodyOf, Even, Archivable, MemberOk, After, MemberAt, Decimal, Padded;
    hide HasMagic;
    HeaderIs(raw, at, m);
    ItemParts(m);
    Contents(m);
    var n := if m.long.None? then 0 else |m.long.value|;
    FromMember(raw, at, n, |BodyOf(m)|);
    EvenIs(at + 60 + |BodyOf(m)|, at + |EncodeItem(m)|);
    Tail(raw, at + 60, |BodyOf(m)|, n, BodyOf(m));
  }

  lemma ItemsFirst(raw: seq<byte>, at: nat, ms: seq<Item>)
    requires |ms| > 0 && at <= |raw| && raw[at..] == EncodeItems(ms)
    ensures var n := |EncodeItem(ms[0])|;
      && at + n <= |raw| && raw[at..at + n] == EncodeItem(ms[0]) && raw[at + n..] == EncodeItems(ms[1..])
      && (|ms| == 1 ==> at + n == |raw|)
  {
    hide EncodeItem;
    var n := |EncodeItem(ms[0])|;
    assert raw[at..][..n] == raw[at..at + n] && raw[at..][n..] == raw[at + n..];
  }

  /** From the first of some members on, walking finds these members. */
  lemma {:induction false} MembersAre(raw: seq<byte>, at: nat, ms: seq<Item>)
    requires |ms| > 0 && (forall m :: m in ms ==> Archivable(m)) && at % 2 == 0 && at <= |raw|
    requires raw[at..] == EncodeItems(ms)
    ensures Chain(raw, at) && |Members(raw, at)| == |ms|
    ensures forall i :: 0 <= i < |ms| ==> Holds(raw, Members(raw, at)[i], ms[i])
    decreases |ms|
  {
    hide EncodeItem, EncodeItems, MemberOk, After, MemberAt, Archivable, Holds;
    var rest, next := ms[1..], at + |EncodeItem(ms[0])|;
    ItemsFirst(raw, at, ms);
    ItemParts(ms[0]);
    MemberIs(raw, at, ms[0]);
    MemberHolds(raw, at, ms[0]);
    if |rest| > 0 {
      ItemsFirst(raw, next, rest);
      ItemParts(rest[0]);
      MembersAre(raw, next, rest);
    }
  }

  /** A member found is where the contents of an item are. */
  predicate Holds(raw: seq<byte>, x: Member, m: Item) {
    x.start + x.size <= |raw| && raw[x.start..x.start + x.size] == m.contents
  }

  lemma MemberHolds(raw: seq<byte>, at: nat, m: Item)
    requires Archivable(m) && at % 2 == 0
    requires at + |EncodeItem(m)| <= |raw| && raw[at..at + |EncodeItem(m)|] == EncodeItem(m)
    ensures MemberOk(raw, at) && Holds(raw, MemberAt(raw, at), m)
  {
    hide EncodeItem, MemberOk, MemberAt, Archivable;
    MemberIs(raw, at, m);
  }

  /** Walking over an archive as it is written visits the contents of its members, in their order. */
  lemma ArchiveIs(ms: seq<Item>)
    requires |ms| > 0 && forall m :: m in ms ==> Archivable(m)
    ensures var raw := EncodeArchive(ms);
      && Chain(raw, SARMAG) && |Members(raw, SARMAG)| == |ms|
      && forall i :: 0 <= i < |ms| ==> Holds(raw, Members(raw, SARMAG)[i], ms[i])
  {
    hide EncodeItems, Holds;
    var raw := EncodeArchive(ms);
    assert raw[8..] == EncodeItems(ms);
    MembersAre(raw, 8, ms);
  }
}
