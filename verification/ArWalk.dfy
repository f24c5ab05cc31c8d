/** Walking an ar(1) archive: opening it, opening its members one after the other, and moving on. */
module ArWalk {
  import opened Memory
  import opened Options

  // ----- struct ar_hdr

  const SARMAG := 8
  const HDRSZ := 60
  const NAMESZ := 16
  const SIZE_AT := 48
  const SIZESZ := 10
  const FMAG_AT := 58

  const SPACE: byte := 32
  const ZERO: byte := 48
  const NINE: byte := 57
  const SLASH: byte := 47

  /** Where the digits of a number start: after the blanks in front. */
  function Blanks(s: seq<byte>, i: nat): (r: nat)
    requires i <= |s|
    ensures i <= r <= |s|
    decreases |s| - i
  {
    if i < |s| && s[i] == SPACE then Blanks(s, i + 1) else i
  }

  /** The number whose first digits make `r`; a blank, or a digit too large for the base, ends it. */
  function Digits(s: seq<byte>, base: nat, i: nat, r: nat): Option<nat>
    requires i <= |s|
    decreases |s| - i
  {
    if i == |s| || s[i] == SPACE then Some(r)
    else if s[i] < ZERO || s[i] > NINE then None
    else if s[i] - ZERO >= base then Some(r)
    else Digits(s, base, i + 1, r * base + (s[i] - ZERO))
  }

  function Number(s: seq<byte>, base: nat): Option<nat> {
    Digits(s, base, Blanks(s, 0), 0)
  }

  /** _libelf_ar_get_number() */
  method GetNumber(s: seq<byte>, base: nat) returns (r: Option<nat>)
    requires base <= 10
    ensures r == Number(s, base)
  {
    var i := 0;
    while i < |s| && s[i] == SPACE
      invariant i <= |s| && Blanks(s, i) == Blanks(s, 0)
    {
      i := i + 1;
    }
    var n: nat := 0;
    while i < |s|
      invariant i <= |s| && Digits(s, base, i, n) == Number(s, base)
    {
      if s[i] == SPACE {
        break;
      }
      if s[i] < ZERO || s[i] > NINE {
        return None;
      }
      var v := s[i] - ZERO;
      if v >= base {
        break;
      }
      n := n * base + v;
      i := i + 1;
    }
    return Some(n);
  }

  /** The decimal digits of a number. */
  function Decimal(n: nat): (r: seq<byte>)
    ensures |r| > 0
  {
    (if n < 10 then [] else Decimal(n / 10)) + [ZERO + n % 10]
  }

  lemma {:induction false} DigitsOfSum(n: nat, rest: seq<byte>)
    ensures Digits(Decimal(n) + rest, 10, 0, 0) == Digits(Decimal(n) + rest, 10, |Decimal(n)|, n)
  {
    if n < 10 {
      assert Decimal(n) + rest == [ZERO + n] + rest;
    } else {
      var s := Decimal(n) + rest;
      assert s == Decimal(n / 10) + ([ZERO + n % 10] + rest);
      DigitsOfSum(n / 10, [ZERO + n % 10] + rest);
      assert n / 10 * 10 + n % 10 == n;
    }
  }

  /** A decimal number, padded with blanks on either side, is read as it was written. */
  lemma {:induction false} NumberRoundTrip(n: nat, before: nat, after: nat)
    ensures Number(Repeat(SPACE, before) + Decimal(n) + Repeat(SPACE, after), 10) == Some(n)
    decreases before
  {
    if before == 0 {
      var s := Decimal(n) + Repeat(SPACE, after);
      assert Repeat(SPACE, 0) + Decimal(n) + Repeat(SPACE, after) == s;
      NotBlank(n, Repeat(SPACE, after));
      DigitsOfSum(n, Repeat(SPACE, after));
    } else {
      NumberRoundTrip(n, before - 1, after);
      var t := Repeat(SPACE, before - 1) + Decimal(n) + Repeat(SPACE, after);
      assert Repeat(SPACE, before) + Decimal(n) + Repeat(SPACE, after) == [SPACE] + t;
      BlankFirst(t, 0);
      DigitsShift(t, 10, Blanks(t, 0), 0);
    }
  }

  /** A number that runs into another character is none; blanks alone are zero. */
  lemma BadNumber(n: nat, c: byte, rest: seq<byte>)
    requires c != 0x20 && !(0x30 <= c <= 0x39)
    ensures Number(Decimal(n) + [c] + rest, 10) == None
    ensures Number([c] + rest, 10) == None
  {
    var s := Decimal(n) + ([c] + rest);
    assert Decimal(n) + [c] + rest == s;
    NotBlank(n, [c] + rest);
    DigitsOfSum(n, [c] + rest);
    assert s[|Decimal(n)|] == c;
  }

  lemma {:induction false} NotBlank(n: nat, rest: seq<byte>)
    ensures Blanks(Decimal(n) + rest, 0) == 0
  {
    if n >= 10 {
      assert Decimal(n) + rest == Decimal(n / 10) + ([ZERO + n % 10] + rest);
      NotBlank(n / 10, [ZERO + n % 10] + rest);
    }
  }

  lemma {:induction false} BlankFirst(t: seq<byte>, i: nat)
    requires i <= |t|
    ensures Blanks([SPACE] + t, i + 1) == Blanks(t, i) + 1
    decreases |t| - i
  {
    if i < |t| && t[i] == SPACE {
      BlankFirst(t, i + 1);
    }
  }

  lemma {:induction false} DigitsShift(t: seq<byte>, base: nat, i: nat, r: nat)
    requires i <= |t|
    ensures Digits([SPACE] + t, base, i + 1, r) == Digits(t, base, i, r)
    decreases |t| - i
  {
    if i < |t| && ZERO <= t[i] <= NINE && t[i] - ZERO < base {
      DigitsShift(t, base, i + 1, r * base + (t[i] - ZERO));
    }
  }

  // ----- members

  /** LIBELF_ADJUST_AR_SIZE, and the rounding in elf_next() */
  function Even(n: nat): (r: nat)
    ensures r % 2 == 0 && n <= r <= n + 1
  {
    (n + 1) / 2 * 2
  }

  predicate HasHeader(raw: seq<byte>, at: nat) { at + HDRSZ <= |raw| }

  function SizeField(raw: seq<byte>, at: nat): Option<nat>
    requires HasHeader(raw, at)
  {
    Number(raw[at + SIZE_AT..at + SIZE_AT + SIZESZ], 10)
  }

  /** IS_EXTENDED_BSD_NAME: "#1/" */
  predicate BsdName(raw: seq<byte>, at: nat)
    requires HasHeader(raw, at)
  {
    raw[at] == 35 && raw[at + 1] == 49 && raw[at + 2] == SLASH
  }

  /** The length of a name that is stored in front of the contents. */
  function NameField(raw: seq<byte>, at: nat): Option<nat>
    requires HasHeader(raw, at)
  {
    if BsdName(raw, at) then Number(raw[at + 3..at + NAMESZ], 10) else Some(0)
  }

  /** A header whose numbers can be read, and whose member lies in the file. */
  predicate MemberOk(raw: seq<byte>, at: nat) {
    && HasHeader(raw, at) && at % 2 == 0
    && SizeField(raw, at).Some? && NameField(raw, at).Some?
    && NameField(raw, at).value <= SizeField(raw, at).value && at + HDRSZ + SizeField(raw, at).value <= |raw|
  }

  /** A header, and a member that lies in the file if its numbers can be read. */
  predicate HeaderAt(raw: seq<byte>, at: nat) {
    && HasHeader(raw, at) && at % 2 == 0
    && (SizeField(raw, at).Some? && NameField(raw, at).Some? ==> MemberOk(raw, at))
  }

  /** Where the header of the next member is. */
  function After(raw: seq<byte>, at: nat): (r: nat)
    requires MemberOk(raw, at)
    ensures r % 2 == 0 && at + HDRSZ <= r
  {
    Even(at + HDRSZ + SizeField(raw, at).value)
  }

  /** From the header at `at` on, the file consists of members. */
  ghost predicate Chain(raw: seq<byte>, at: nat)
    decreases |raw| - at
  {
    MemberOk(raw, at) && (After(raw, at) < |raw| ==> Chain(raw, After(raw, at)))
  }

  /** The contents of a member. */
  datatype Member = Member(start: nat, size: nat)

  function MemberAt(raw: seq<byte>, at: nat): (m: Member)
    requires MemberOk(raw, at)
    ensures at + HDRSZ <= m.start && m.start + m.size <= |raw|
  {
    Member(at + HDRSZ + NameField(raw, at).value, SizeField(raw, at).value - NameField(raw, at).value)
  }

  /** All members from the header at `at` on, in file order. */
  ghost function Members(raw: seq<byte>, at: nat): (ms: seq<Member>)
    requires Chain(raw, at)
    ensures |ms| > 0
    decreases |raw| - at
  {
    [MemberAt(raw, at)] + if After(raw, at) < |raw| then Members(raw, After(raw, at)) else []
  }

  /** Members follow each other and lie in the file. */
  lemma {:induction false} MembersInOrder(raw: seq<byte>, at: nat)
    requires Chain(raw, at)
    ensures forall i :: 0 <= i < |Members(raw, at)| ==>
      at + HDRSZ <= Members(raw, at)[i].start && Members(raw, at)[i].start + Members(raw, at)[i].size <= |raw|
    ensures forall i, j :: 0 <= i < j < |Members(raw, at)| ==>
      Members(raw, at)[i].start + Members(raw, at)[i].size + HDRSZ <= Members(raw, at)[j].start
    decreases |raw| - at
  {
    hide MemberOk;
    MemberEnd(raw, at);
    if After(raw, at) < |raw| {
      MembersInOrder(raw, After(raw, at));
    }
  }

  lemma MemberEnd(raw: seq<byte>, at: nat)
    requires MemberOk(raw, at)
    ensures MemberAt(raw, at).start + MemberAt(raw, at).size <= After(raw, at)
    ensures Even(MemberAt(raw, at).start + MemberAt(raw, at).size) == After(raw, at)
  {}

  // ----- the cursor

  /** A member can be opened: it is not empty, and elf_memory() accepts its contents. */
  predicate Opens(raw: seq<byte>, accepts: seq<byte> -> bool, m: Member)
    requires m.start + m.size <= |raw|
  {
    m.size > 0 && accepts(raw[m.start..m.start + m.size])
  }

  /** An empty member cannot be opened; of others, the very bytes between header and padding decide. */
  lemma OpensIff(raw: seq<byte>, accepts: seq<byte> -> bool, at: nat)
    requires MemberOk(raw, at)
    ensures var skip := if BsdName(raw, at) then NameField(raw, at).value else 0;
      Opens(raw, accepts, MemberAt(raw, at)) <==>
        SizeField(raw, at).value > skip && accepts(raw[at + 60 + skip..at + 60 + SizeField(raw, at).value])
  {}

  /** The members up to the first that cannot be opened. */
  ghost function Openable(raw: seq<byte>, accepts: seq<byte> -> bool, at: nat): (ms: seq<Member>)
    requires Chain(raw, at)
    decreases |raw| - at
  {
    if !Opens(raw, accepts, MemberAt(raw, at)) then []
    else [MemberAt(raw, at)] + if After(raw, at) < |raw| then Openable(raw, accepts, After(raw, at)) else []
  }

  /** It is all of them exactly if all can be opened. */
  lemma {:induction false} OpenableIff(raw: seq<byte>, accepts: seq<byte> -> bool, at: nat)
    requires Chain(raw, at)
    ensures Openable(raw, accepts, at) <= Members(raw, at)
    ensures Openable(raw, accepts, at) == Members(raw, at) <==> AllOpen(raw, accepts, Members(raw, at))
    decreases |raw| - at
  {
    hide MemberOk, Opens, AllOpen, MemberAt, After;
    var m, open := MemberAt(raw, at), Openable(raw, accepts, at);
    MemberInside(raw, at);
    if After(raw, at) < |raw| {
      var rest := Members(raw, After(raw, at));
      OpenableIff(raw, accepts, After(raw, at));
      OpenFirst(raw, accepts, m, rest);
      if Opens(raw, accepts, m) {
        FirstAndRest(m, Openable(raw, accepts, After(raw, at)), rest);
      }
    } else {
      OpenFirst(raw, accepts, m, []);
      assert [m] + [] == [m];
    }
  }

  /** Every one of these members lies in the file and can be opened. */
  predicate AllOpen(raw: seq<byte>, accepts: seq<byte> -> bool, ms: seq<Member>) {
    forall i :: 0 <= i < |ms| ==> ms[i].start + ms[i].size <= |raw| && Opens(raw, accepts, ms[i])
  }

  lemma OpenFirst(raw: seq<byte>, accepts: seq<byte> -> bool, m: Member, rest: seq<Member>)
    requires m.start + m.size <= |raw|
    ensures AllOpen(raw, accepts, [m] + rest) <==> Opens(raw, accepts, m) && AllOpen(raw, accepts, rest)
    ensures AllOpen(raw, accepts, [])
  {
    hide Opens;
    var ms := [m] + rest;
    if AllOpen(raw, accepts, ms) {
      assert ms[0] == m;
      forall i | 0 <= i < |rest|
        ensures rest[i].start + rest[i].size <= |raw| && Opens(raw, accepts, rest[i])
      {
        assert rest[i] == ms[i + 1];
      }
    }
  }

  lemma MemberInside(raw: seq<byte>, at: nat)
    requires MemberOk(raw, at)
    ensures MemberAt(raw, at).start + MemberAt(raw, at).size <= |raw|
  {}

  lemma FirstAndRest(m: Member, a: seq<Member>, b: seq<Member>)
    ensures [m] + a == [m] + b <==> a == b
    ensures a <= b ==> [m] + a <= [m] + b
  {
    if [m] + a == [m] + b {
      assert a == ([m] + a)[1..] && b == ([m] + b)[1..];
    }
  }

  class Archive {
    const raw: seq<byte>
    /** Whether elf_memory() makes a descriptor of these bytes. */
    const accepts: seq<byte> -> bool
    var next: nat

    constructor (raw: seq<byte>, accepts: seq<byte> -> bool, next: nat)
      requires Chain(raw, next)
      ensures this.raw == raw && this.accepts == accepts && this.next == next && Valid()
    {
      this.raw, this.accepts, this.next := raw, accepts, next;
    }

    /** The cursor is zero, at the end, or at the header of a member. */
    ghost predicate Valid()
      reads this
    {
      next == 0 || Chain(raw, next)
    }

    /** elf_begin() on an archive: _libelf_ar_open_member() */
    method Begin() returns (e: Option<Member>)
      requires next != 0 ==> HeaderAt(raw, next)
      ensures e ==
        if next != 0 && MemberOk(raw, next) && Opens(raw, accepts, MemberAt(raw, next)) then Some(MemberAt(raw, next))
        else None
    {
      if next == 0 {
        return None;
      }
      hide Digits, Blanks, Number;
      assert next % 2 == 0;
      var sz := GetNumber(raw[next + SIZE_AT..next + SIZE_AT + SIZESZ], 10);
      if sz.None? {
        return None;
      }
      var member, size := next + HDRSZ, sz.value;
      if BsdName(raw, next) {
        var nsz := GetNumber(raw[next + 3..next + NAMESZ], 10);
        if nsz.None? {
          return None;
        }
        member, size := next + HDRSZ + nsz.value, size - nsz.value;
      }
      if size == 0 || !accepts(raw[member..member + size]) {
        return None;
      }
      return Some(Member(member, size));
    }

    /** elf_next() on the member whose header is at `at` */
    method Next(e: Member, ghost at: nat)
      requires Chain(raw, at) && e == MemberAt(raw, at)
      modifies this
      ensures Valid() && next == if After(raw, at) < |raw| then After(raw, at) else 0
    {
      MemberEnd(raw, at);
      var after := Even(e.start + e.size);
      next := if after >= |raw| then 0 else after;
    }

    /** The loop that applications use: every member is visited once, in file order, up to one that cannot be opened. */
    method Walk() returns (visited: seq<Member>)
      requires Valid()
      modifies this
      ensures Valid() && visited == if old(next) == 0 then [] else Openable(raw, accepts, old(next))
    {
      hide Chain, MemberOk, HeaderAt, MemberAt, Opens, After, Rest;
      visited := [];
      ghost var first := next;
      ChainIsMember(next);
      RestOne(next);
      var e := Begin();
      while e.Some?
        invariant Valid() && (next != 0 ==> MemberOk(raw, next))
        invariant e.Some? <==> next != 0 && Opens(raw, accepts, MemberAt(raw, next))
        invariant e.Some? ==> e.value == MemberAt(raw, next)
        invariant visited + Rest(next) == Rest(first)
        decreases if next == 0 then 0 else |raw| - next
      {
        ghost var at := next;
        ChainIsMember(at);
        RestOne(at);
        assert visited + ([e.value] + Rest(if After(raw, at) < |raw| then After(raw, at) else 0)) == Rest(first);
        visited := visited + [e.value];
        Next(e.value, at);
        ChainIsMember(next);
        e := Begin();
      }
      RestOne(next);
    }

    /** What is still to be visited. */
    ghost function Rest(at: nat): seq<Member> {
      if at == 0 || !Chain(raw, at) then [] else Openable(raw, accepts, at)
    }

    lemma RestOne(at: nat)
      ensures at == 0 ==> Rest(at) == []
      ensures at != 0 && Chain(raw, at) ==>
        && Rest(at) == Openable(raw, accepts, at)
        && Rest(at) == if !Opens(raw, accepts, MemberAt(raw, at)) then []
                       else [MemberAt(raw, at)] + Rest(if After(raw, at) < |raw| then After(raw, at) else 0)
    {
      hide MemberOk, Opens;
    }

    lemma ChainIsMember(at: nat)
      ensures Chain(raw, at) ==> MemberOk(raw, at) && HeaderAt(raw, at) && at < After(raw, at) && at < |raw|
    {}
  }
}
