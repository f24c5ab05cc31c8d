/** The symbol table of an SVR4 ar(1) archive: entry count, file offsets, and NUL-terminated names. */
module ArSymtab {
  import opened ElfHash
  import opened Options

  datatype Error = EArchive

  /** One symbol: its name, and the offset of the archive member that defines it. */
  datatype Entry = Entry(name: seq<bv8>, off: bv32)

  /** An Elf_Arsym; `name` is where the name starts in the file, or None for the NULL of the sentinel. */
  datatype Sym = Sym(name: Option<nat>, hash: bv64, off: nat)

  const INTSZ := 4
  const SENTINEL := Sym(None, 0xFFFF_FFFF_FFFF_FFFF, 0)

  // ----- words, most significant byte first

  function Low(v: bv32): bv8 { (v & 0xFF) as bv8 }

  function BigEndian(v: bv32): (r: seq<bv8>)
    ensures |r| == 4
  {
    [Low(v >> 24), Low(v >> 16), Low(v >> 8), Low(v)]
  }

  function Word(a: bv8, b: bv8, c: bv8, d: bv8): bv32 {
    ((((a as bv32 << 8) + b as bv32) << 8) + c as bv32 << 8) + d as bv32
  }

  /** GET_WORD */
  function WordAt(mem: seq<bv8>, p: nat): bv32
    requires p + 4 <= |mem|
  {
    Word(mem[p], mem[p + 1], mem[p + 2], mem[p + 3])
  }

  function NatAt(mem: seq<bv8>, p: nat): nat
    requires p + 4 <= |mem|
  {
    WordAt(mem, p) as nat
  }

  lemma WordOfBytes(v: bv32)
    ensures Word(Low(v >> 24), Low(v >> 16), Low(v >> 8), Low(v)) == v
  {}

  // ----- the table, as it is written

  function Offsets(es: seq<Entry>, n: nat): (r: seq<bv8>)
    requires n <= |es|
    ensures |r| == n * INTSZ
  {
    if n == 0 then [] else Offsets(es, n - 1) + BigEndian(es[n - 1].off)
  }

  function Strings(es: seq<Entry>, n: nat): seq<bv8>
    requires n <= |es|
  {
    if n == 0 then [] else Strings(es, n - 1) + es[n - 1].name + [NUL]
  }

  function Encode(count: bv32, es: seq<Entry>): seq<bv8> {
    BigEndian(count) + Offsets(es, |es|) + Strings(es, |es|)
  }

  // ----- what the parser finds

  /** The position after the string at `s`, or the end of the table. */
  function Skip(mem: seq<bv8>, sz: nat, s: nat): (r: nat)
    requires sz <= |mem|
    ensures s <= sz ==> s <= r <= sz
    decreases sz - s
  {
    if s >= sz then s else if mem[s] == NUL then s + 1 else Skip(mem, sz, s + 1)
  }

  /** Where the `k`-th name starts. */
  function StringAt(mem: seq<bv8>, sz: nat, start: nat, k: nat): (r: nat)
    requires start <= sz <= |mem|
    ensures start <= r <= sz
  {
    if k == 0 then start else Skip(mem, sz, StringAt(mem, sz, start, k - 1))
  }

  /** The table has room for its offsets and at least one byte of names. */
  predicate Sized(mem: seq<bv8>, sz: nat)
    requires sz <= |mem|
  {
    sz >= INTSZ && NatAt(mem, 0) != 0 && INTSZ + NatAt(mem, 0) * INTSZ < sz
  }

  /** Entry `k` has a name that starts in the table, and an offset in the file. */
  predicate Good(mem: seq<bv8>, sz: nat, rawsize: nat, n: nat, k: nat)
    requires sz <= |mem| && INTSZ + n * INTSZ < sz && k < n
  {
    StringAt(mem, sz, INTSZ + n * INTSZ, k) < sz && NatAt(mem, INTSZ + k * INTSZ) < rawsize
  }

  /** Reading a name stops somewhere, even if the last one is not terminated in the table. */
  predicate Terminated(mem: seq<bv8>, sz: nat) {
    sz <= |mem| && (sz > 0 ==> NUL in mem[sz - 1..])
  }

  lemma NulAfter(mem: seq<bv8>, sz: nat, s: nat)
    requires Terminated(mem, sz) && s < sz
    ensures NUL in mem[s..]
  {
    var i :| 0 <= i < |mem[sz - 1..]| && mem[sz - 1..][i] == NUL;
    assert mem[s..][sz - 1 - s + i] == NUL;
  }

  /** The C string at a position. */
  function NameAt(mem: seq<bv8>, s: nat): seq<bv8>
    requires s <= |mem| && NUL in mem[s..]
  {
    mem[s..s + Length(mem[s..])]
  }

  function SymAt(mem: seq<bv8>, sz: nat, n: nat, k: nat): Sym
    requires Terminated(mem, sz) && INTSZ + n * INTSZ < sz && k < n && StringAt(mem, sz, INTSZ + n * INTSZ, k) < sz
  {
    var s := StringAt(mem, sz, INTSZ + n * INTSZ, k);
    NulAfter(mem, sz, s);
    Sym(Some(s), Plain(mem[s..], Length(mem[s..])), NatAt(mem, INTSZ + k * INTSZ))
  }

  /** Skips to the next string. */
  method SkipString(mem: seq<bv8>, sz: nat, s0: nat) returns (s: nat)
    requires s0 <= sz <= |mem|
    ensures s == Skip(mem, sz, s0)
  {
    s := s0;
    while s < sz
      invariant s0 <= s <= sz && Skip(mem, sz, s) == Skip(mem, sz, s0)
    {
      s := s + 1;
      if mem[s - 1] == NUL {
        return;
      }
    }
  }

  /** The first `m` symbols */
  function Syms(mem: seq<bv8>, sz: nat, rawsize: nat, n: nat, m: nat): (r: Option<seq<Sym>>)
    requires Terminated(mem, sz) && INTSZ + n * INTSZ < sz && m <= n
    ensures r.Some? ==> |r.value| == m
  {
    if m == 0 then Some([])
    else
      var before := Syms(mem, sz, rawsize, n, m - 1);
      if before.None? || !Good(mem, sz, rawsize, n, m - 1) then None
      else Some(before.value + [SymAt(mem, sz, n, m - 1)])
  }

  function Svr4(mem: seq<bv8>, sz: nat, rawsize: nat): Result<seq<Sym>, Error>
    requires Terminated(mem, sz)
  {
    if !Sized(mem, sz) then Err(EArchive)
    else
      var n := NatAt(mem, 0);
      var syms := Syms(mem, sz, rawsize, n, n);
      if syms.None? then Err(EArchive) else Ok(syms.value + [SENTINEL])
  }

  lemma {:induction false} SymsStop(mem: seq<bv8>, sz: nat, rawsize: nat, n: nat, m: nat, k: nat)
    requires Terminated(mem, sz) && INTSZ + n * INTSZ < sz && m <= k <= n && Syms(mem, sz, rawsize, n, m).None?
    ensures Syms(mem, sz, rawsize, n, k).None?
    decreases k
  {
    hide Good, SymAt, Terminated;
    if m < k {
      SymsStop(mem, sz, rawsize, n, m, k - 1);
    }
  }

  /** A byte of a word counts for its place: the first is the highest. */
  lemma WordIsBig(a: bv8, b: bv8, c: bv8, d: bv8)
    ensures Word(a, b, c, d) == (a as bv32 << 24) | (b as bv32 << 16) | (c as bv32 << 8) | (d as bv32)
  {}

  /** The next string starts behind the first NUL, or at the end of the table. */
  lemma {:induction false} SkipIs(mem: seq<bv8>, sz: nat, s: nat)
    requires s < sz <= |mem|
    ensures s < Skip(mem, sz, s) <= sz && forall i :: s <= i < Skip(mem, sz, s) - 1 ==> mem[i] != NUL
    ensures mem[Skip(mem, sz, s) - 1] == NUL || Skip(mem, sz, s) == sz
    decreases sz - s
  {
    if mem[s] != NUL && s + 1 < sz {
      SkipIs(mem, sz, s + 1);
    }
  }

  lemma {:induction false} SymsIff(mem: seq<bv8>, sz: nat, rawsize: nat, n: nat, m: nat)
    requires Terminated(mem, sz) && INTSZ + n * INTSZ < sz && m <= n
    ensures Syms(mem, sz, rawsize, n, m).Some? <==> forall k :: 0 <= k < m ==> Good(mem, sz, rawsize, n, k)
    ensures Syms(mem, sz, rawsize, n, m).Some? ==> forall k :: 0 <= k < m ==>
      Good(mem, sz, rawsize, n, k) && Syms(mem, sz, rawsize, n, m).value[k] == SymAt(mem, sz, n, k)
  {
    hide Good, SymAt, Terminated;
    if m > 0 {
      SymsIff(mem, sz, rawsize, n, m - 1);
    }
  }

  /**
   * Any bytes are accepted exactly if they have room for a nonzero count, that many offsets and a byte more, each name
   * starts in them, and each offset is in the file; what comes out is an entry for each and the sentinel.
   */
  lemma ParsedIff(mem: seq<bv8>, sz: nat, rawsize: nat)
    requires Terminated(mem, sz) && sz <= |mem|
    ensures Svr4(mem, sz, rawsize).Ok? <==>
      && sz >= 4 && NatAt(mem, 0) > 0 && 4 + NatAt(mem, 0) * 4 < sz
      && forall k :: 0 <= k < NatAt(mem, 0) ==> EntryFits(mem, sz, rawsize, k)
    ensures Svr4(mem, sz, rawsize).Ok? ==>
      var n, syms := NatAt(mem, 0), Svr4(mem, sz, rawsize).value;
      && |syms| == n + 1 && syms[n] == Sym(None, 0xFFFF_FFFF_FFFF_FFFF, 0)
      && forall k :: 0 <= k < n ==>
        && EntryFits(mem, sz, rawsize, k) && syms[k].off == NatAt(mem, 4 + k * 4)
        && var s := StringAt(mem, sz, 4 + n * 4, k);
           && NUL in mem[s..] && syms[k].name == Some(s) && syms[k].hash == Plain(mem[s..], Length(mem[s..]))
  {
    hide NatAt, StringAt, Terminated, Plain, Length;
    if Sized(mem, sz) {
      var n := NatAt(mem, 0);
      SymsIff(mem, sz, rawsize, n, n);
      forall k | 0 <= k < n
        ensures Good(mem, sz, rawsize, n, k) <==> EntryFits(mem, sz, rawsize, k)
      {}
      if Syms(mem, sz, rawsize, n, n).Some? {
        var start := 4 + n * 4;
        forall k | 0 <= k < n
          ensures NUL in mem[StringAt(mem, sz, start, k)..]
        {
          assert Good(mem, sz, rawsize, n, k);
          NulAfter(mem, sz, StringAt(mem, sz, start, k));
        }
      }
    }
  }

  /** The name of entry `k` starts before the end of the table, and its offset is in the file. */
  predicate EntryFits(mem: seq<bv8>, sz: nat, rawsize: nat, k: nat) {
    && 4 <= sz <= |mem| && 4 + NatAt(mem, 0) * 4 < sz && k < NatAt(mem, 0)
    && StringAt(mem, sz, 4 + NatAt(mem, 0) * 4, k) < sz && NatAt(mem, 4 + k * 4) < rawsize
  }

  /** One turn of the loop. */
  lemma SymsStep(mem: seq<bv8>, sz: nat, rawsize: nat, n: nat, k: nat)
    requires Terminated(mem, sz) && INTSZ + n * INTSZ < sz && k < n && Syms(mem, sz, rawsize, n, k).Some?
    ensures var s, off := StringAt(mem, sz, INTSZ + n * INTSZ, k), NatAt(mem, INTSZ + k * INTSZ);
      && (s < sz ==> NUL in mem[s..])
      && Syms(mem, sz, rawsize, n, k + 1) == if s >= sz || off >= rawsize then None
           else Some(Syms(mem, sz, rawsize, n, k).value + [Sym(Some(s), Plain(mem[s..], Length(mem[s..])), off)])
  {
    hide Plain, Length, NatAt, StringAt;
    var s := StringAt(mem, sz, INTSZ + n * INTSZ, k);
    if s < sz {
      NulAfter(mem, sz, s);
    }
  }

  /**
   * _libelf_ar_process_svr4_symtab() on a table of `sz` bytes, in a file of `rawsize` bytes that goes on as `mem`
   * does.
   */
  method ProcessSvr4(mem: seq<bv8>, sz: nat, rawsize: nat) returns (r: Result<seq<Sym>, Error>)
    requires Terminated(mem, sz)
    ensures r == Svr4(mem, sz, rawsize)
  {
    hide NatAt, Skip, Plain, Length, Terminated, Syms, StringAt;
    assert sz <= |mem| by { TerminatedIn(mem, sz); }
    if sz < INTSZ {
      return Err(EArchive);
    }
    var nentries := NatAt(mem, 0);
    if nentries == 0 || INTSZ + nentries * INTSZ >= sz {
      return Err(EArchive);
    }
    var symtab := [];
    var p := INTSZ;
    var s := p + nentries * INTSZ;
    var k: nat := 0;
    SymsStart(mem, sz, rawsize, nentries);
    while k < nentries
      invariant k <= nentries && p == INTSZ + k * INTSZ && s == StringAt(mem, sz, INTSZ + nentries * INTSZ, k)
      invariant Syms(mem, sz, rawsize, nentries, k) == Some(symtab)
    {
      SymsStep(mem, sz, rawsize, nentries, k);
      StringNext(mem, sz, INTSZ + nentries * INTSZ, k);
      if s >= sz {
        SymsStop(mem, sz, rawsize, nentries, k + 1, nentries);
        return Err(EArchive);
      }
      var off := NatAt(mem, p);
      if off >= rawsize {
        SymsStop(mem, sz, rawsize, nentries, k + 1, nentries);
        return Err(EArchive);
      }
      var hash := Hash(mem[s..]);
      symtab := symtab + [Sym(Some(s), hash, off)];
      p := p + INTSZ;
      s := SkipString(mem, sz, s);
      k := k + 1;
    }
    symtab := symtab + [SENTINEL];
    return Ok(symtab);
  }

  lemma SymsStart(mem: seq<bv8>, sz: nat, rawsize: nat, n: nat)
    requires Terminated(mem, sz) && INTSZ + n * INTSZ < sz
    ensures Syms(mem, sz, rawsize, n, 0) == Some([]) && StringAt(mem, sz, INTSZ + n * INTSZ, 0) == INTSZ + n * INTSZ
  {}

  lemma StringNext(mem: seq<bv8>, sz: nat, start: nat, k: nat)
    requires start <= sz <= |mem|
    ensures StringAt(mem, sz, start, k + 1) == Skip(mem, sz, StringAt(mem, sz, start, k))
    ensures start <= StringAt(mem, sz, start, k) <= sz
  {
    hide Skip;
  }

  lemma TerminatedIn(mem: seq<bv8>, sz: nat)
    requires Terminated(mem, sz)
    ensures sz <= |mem|
  {}

  // ----- parsing undoes encoding

  function Start(es: seq<Entry>): nat { INTSZ + |es| * INTSZ }

  lemma {:induction false} OffsetsAt(es: seq<Entry>, n: nat, k: nat)
    requires k < n <= |es|
    ensures Offsets(es, n)[k * INTSZ..k * INTSZ + INTSZ] == BigEndian(es[k].off)
  {
    hide BigEndian;
    if k < n - 1 {
      OffsetsAt(es, n - 1, k);
    }
  }

  lemma {:induction false} StringsAt(es: seq<Entry>, n: nat, k: nat)
    requires k < n <= |es|
    ensures |Strings(es, k)| + |es[k].name| + 1 <= |Strings(es, n)|
    ensures Strings(es, n)[|Strings(es, k)|..|Strings(es, k)| + |es[k].name| + 1] == es[k].name + [NUL]
  {
    if k < n - 1 {
      StringsAt(es, n - 1, k);
    }
  }

  lemma Middle(a: seq<bv8>, b: seq<bv8>, c: seq<bv8>, i: nat, j: nat)
    requires i <= j <= |b|
    ensures (a + b + c)[|a| + i..|a| + j] == b[i..j]
  {}

  lemma Regroup(a: seq<bv8>, b: seq<bv8>, c: seq<bv8>, d: seq<bv8>)
    ensures a + b + c + d == a + b + (c + d) == [] + a + (b + (c + d))
  {}

  /** The words of an encoded table. */
  lemma EncodedWords(count: bv32, es: seq<Entry>, rest: seq<bv8>, k: nat)
    requires k < |es|
    ensures var mem := Encode(count, es) + rest;
      && Start(es) <= |Encode(count, es)| && NatAt(mem, 0) == count as nat
      && NatAt(mem, INTSZ + k * INTSZ) == es[k].off as nat
  {
    hide Strings;
    var a, b, c := BigEndian(count), Offsets(es, |es|), Strings(es, |es|) + rest;
    assert |a| == 4 && |b| == |es| * INTSZ;
    hide BigEndian, Offsets, WordAt, NatAt;
    Regroup(a, b, Strings(es, |es|), rest);
    assert a[0..4] == a;
    WordInMiddle([], a, b + c, 0, count);
    OffsetsAt(es, |es|, k);
    WordInMiddle(a, b, c, k * INTSZ, es[k].off);
  }

  lemma WordInMiddle(a: seq<bv8>, b: seq<bv8>, c: seq<bv8>, p: nat, v: bv32)
    requires p + 4 <= |b| && b[p..p + 4] == BigEndian(v)
    ensures NatAt(a + b + c, |a| + p) == v as nat
  {
    hide BigEndian, WordAt;
    Middle(a, b, c, p, p + 4);
    WordIs(a + b + c, |a| + p, v);
  }

  lemma WordIs(mem: seq<bv8>, p: nat, v: bv32)
    requires p + 4 <= |mem| && mem[p..p + 4] == BigEndian(v)
    ensures WordAt(mem, p) == v
  {
    hide Word, Low;
    assert mem[p] == BigEndian(v)[0] && mem[p + 1] == BigEndian(v)[1];
    assert mem[p + 2] == BigEndian(v)[2] && mem[p + 3] == BigEndian(v)[3];
    WordOfBytes(v);
  }

  /** The names of an encoded table. */
  lemma EncodedName(count: bv32, es: seq<Entry>, rest: seq<bv8>, k: nat)
    requires k < |es|
    ensures var mem, s := Encode(count, es) + rest, Start(es) + |Strings(es, k)|;
      && s + |es[k].name| < |Encode(count, es)| && mem[s..s + |es[k].name|] == es[k].name
      && mem[s + |es[k].name|] == NUL
  {
    hide BigEndian, Offsets;
    StringsAt(es, |es|, k);
    var mem, s := Encode(count, es) + rest, Start(es) + |Strings(es, k)|;
    var e := s + |es[k].name|;
    OffsetsLength(es);
    assert mem[s..e + 1] == Strings(es, |es|)[|Strings(es, k)|..|Strings(es, k)| + |es[k].name| + 1] by {
      hide Strings;
    }
    assert mem[s..e] == mem[s..e + 1][..e - s];
    assert mem[e] == mem[s..e + 1][e - s];
  }

  lemma OffsetsLength(es: seq<Entry>)
    ensures |Offsets(es, |es|)| == |es| * INTSZ
  {}

  lemma {:induction false} SkipName(mem: seq<bv8>, sz: nat, s: nat, e: nat)
    requires s <= e < sz <= |mem| && mem[e] == NUL && NUL !in mem[s..e]
    ensures Skip(mem, sz, s) == e + 1
    decreases e - s
  {
    if s < e {
      assert mem[s] == mem[s..e][0];
      assert mem[s + 1..e] == mem[s..e][1..];
      SkipName(mem, sz, s + 1, e);
    }
  }

  lemma {:induction false} EncodedStrings(count: bv32, es: seq<Entry>, rest: seq<bv8>, k: nat)
    requires k <= |es| && forall i :: 0 <= i < |es| ==> NUL !in es[i].name
    ensures Start(es) <= |Encode(count, es)|
    ensures StringAt(Encode(count, es) + rest, |Encode(count, es)|, Start(es), k) == Start(es) + |Strings(es, k)|
  {
    hide Encode, Skip;
    EncodeLength(count, es);
    if k > 0 {
      EncodedStrings(count, es, rest, k - 1);
      EncodedName(count, es, rest, k - 1);
      var s := Start(es) + |Strings(es, k - 1)|;
      SkipName(Encode(count, es) + rest, |Encode(count, es)|, s, s + |es[k - 1].name|);
    }
  }

  lemma EncodeLength(count: bv32, es: seq<Entry>)
    ensures |Encode(count, es)| == Start(es) + |Strings(es, |es|)|
  {}

  lemma {:induction false} LengthIs(s: seq<bv8>, n: nat)
    requires n < |s| && s[n] == NUL && NUL !in s[..n]
    ensures NUL in s && Length(s) == n
  {
    if n > 0 {
      assert s[0] == s[..n][0];
      assert s[1..][..n - 1] == s[..n][1..];
      LengthIs(s[1..], n - 1);
    }
  }

  lemma {:induction false} PlainPrefix(s: seq<bv8>, t: seq<bv8>, n: nat)
    requires n <= |s| && n <= |t| && s[..n] == t[..n]
    ensures Plain(s, n) == Plain(t, n)
  {
    hide PlainStep, Byte;
    if n > 0 {
      assert s[n - 1] == s[..n][n - 1] == t[..n][n - 1];
      assert s[..n - 1] == s[..n][..n - 1] == t[..n][..n - 1] == t[..n - 1];
      PlainPrefix(s, t, n - 1);
    }
  }

  /** Entry `k` is in the table: its name, terminated, where the `k`-th string starts, and its offset. */
  ghost predicate EntryIn(mem: seq<bv8>, sz: nat, es: seq<Entry>, k: nat)
    requires Start(es) < sz <= |mem| && k < |es|
  {
    var s, n := StringAt(mem, sz, Start(es), k), |es[k].name|;
    && s + n < sz && mem[s..s + n] == es[k].name && mem[s + n] == NUL
    && NatAt(mem, INTSZ + k * INTSZ) == es[k].off as nat
  }

  ghost predicate IsTable(mem: seq<bv8>, sz: nat, es: seq<Entry>) {
    && |es| > 0 && Terminated(mem, sz) && Start(es) < sz && NatAt(mem, 0) == |es|
    && forall k :: 0 <= k < |es| ==> EntryIn(mem, sz, es, k)
  }

  /** What has been encoded is such a table. */
  lemma EncodedIsTable(count: bv32, es: seq<Entry>, rest: seq<bv8>)
    requires |es| > 0 && count as nat == |es| && forall k :: 0 <= k < |es| ==> NUL !in es[k].name
    ensures IsTable(Encode(count, es) + rest, |Encode(count, es)|, es)
  {
    hide Encode, Strings, NatAt, StringAt, Terminated;
    EncodedEnds(count, es, rest);
    EncodedWords(count, es, rest, 0);
    forall k | 0 <= k < |es|
      ensures EntryIn(Encode(count, es) + rest, |Encode(count, es)|, es, k)
    {
      EncodedWords(count, es, rest, k);
      EncodedStrings(count, es, rest, k);
      EncodedName(count, es, rest, k);
    }
  }

  lemma EncodedEnds(count: bv32, es: seq<Entry>, rest: seq<bv8>)
    requires |es| > 0
    ensures var t := Encode(count, es); Start(es) < |t| && Terminated(t + rest, |t|)
  {
    var t := Encode(count, es);
    EncodeLength(count, es);
    assert (t + rest)[|t| - 1..][0] == NUL;
  }

  /** `sym` stands for an entry. */
  ghost predicate StandsFor(mem: seq<bv8>, sym: Sym, e: Entry) {
    && sym.off == e.off as nat && sym.hash == Plain(e.name, |e.name|)
    && sym.name.Some? && sym.name.value <= |mem| && NUL in mem[sym.name.value..]
    && NameAt(mem, sym.name.value) == e.name
  }

  /** The C string at the place of a name is that name. */
  lemma NamePlace(mem: seq<bv8>, s: nat, name: seq<bv8>)
    requires s + |name| < |mem| && mem[s..s + |name|] == name && mem[s + |name|] == NUL && NUL !in name
    ensures NUL in mem[s..] && Length(mem[s..]) == |name| && NameAt(mem, s) == name
    ensures Plain(mem[s..], |name|) == Plain(name, |name|)
  {
    hide Plain;
    assert mem[s..][..|name|] == mem[s..s + |name|];
    LengthIs(mem[s..], |name|);
    assert name[..|name|] == name;
    PlainPrefix(mem[s..], name, |name|);
  }

  lemma TableSym(mem: seq<bv8>, sz: nat, es: seq<Entry>, rawsize: nat, k: nat)
    requires IsTable(mem, sz, es) && k < |es| && NUL !in es[k].name && es[k].off as nat < rawsize
    ensures Good(mem, sz, rawsize, |es|, k) && StandsFor(mem, SymAt(mem, sz, |es|, k), es[k])
  {
    hide NatAt, StringAt, Plain, Length, NameAt;
    assert EntryIn(mem, sz, es, k);
    NamePlace(mem, StringAt(mem, sz, Start(es), k), es[k].name);
  }

  lemma {:induction false} TableSyms(mem: seq<bv8>, sz: nat, es: seq<Entry>, rawsize: nat, m: nat)
    requires IsTable(mem, sz, es) && m <= |es|
    requires forall k :: 0 <= k < |es| ==> NUL !in es[k].name && es[k].off as nat < rawsize
    ensures Syms(mem, sz, rawsize, |es|, m).Some?
    ensures forall k :: 0 <= k < m ==> StandsFor(mem, Syms(mem, sz, rawsize, |es|, m).value[k], es[k])
  {
    hide Good, SymAt, StandsFor, EntryIn;
    if m > 0 {
      TableSyms(mem, sz, es, rawsize, m - 1);
      TableSym(mem, sz, es, rawsize, m - 1);
    }
  }

  /** The parser returns these entries, in order, and the sentinel after them. */
  ghost predicate ParsesTo(mem: seq<bv8>, sz: nat, rawsize: nat, es: seq<Entry>) {
    && Terminated(mem, sz) && Svr4(mem, sz, rawsize).Ok?
    && var syms := Svr4(mem, sz, rawsize).value;
      && |syms| == |es| + 1 && syms[|es|] == Sym(None, 0xFFFF_FFFF_FFFF_FFFF, 0)
      && forall k :: 0 <= k < |es| ==> StandsFor(mem, syms[k], es[k])
  }

  lemma TableParsed(mem: seq<bv8>, sz: nat, es: seq<Entry>, rawsize: nat)
    requires IsTable(mem, sz, es)
    requires forall k :: 0 <= k < |es| ==> NUL !in es[k].name && es[k].off as nat < rawsize
    ensures ParsesTo(mem, sz, rawsize, es)
  {
    hide Syms, NatAt, StandsFor, EntryIn, Terminated;
    TableSyms(mem, sz, es, rawsize, |es|);
  }

  /**
   * Parsing a table gives back exactly the entries it was made from, in order, each with its name and the hash of it,
   * and the sentinel after them, whatever follows the table in the file.
   */
  lemma RoundTrip(count: bv32, es: seq<Entry>, rest: seq<bv8>, rawsize: nat)
    requires |es| > 0 && count as nat == |es|
    requires forall k :: 0 <= k < |es| ==> NUL !in es[k].name && es[k].off as nat < rawsize
    ensures ParsesTo(Encode(count, es) + rest, |Encode(count, es)|, rawsize, es)
  {
    hide Encode, IsTable, ParsesTo;
    EncodedIsTable(count, es, rest);
    TableParsed(Encode(count, es) + rest, |Encode(count, es)|, es, rawsize);
  }

  /** A table of no entries, which a writer may well produce, is refused. */
  lemma EmptyRefused(rest: seq<bv8>, rawsize: nat)
    ensures Terminated(Encode(0, []) + rest, |Encode(0, [])|)
    ensures Svr4(Encode(0, []) + rest, |Encode(0, [])|, rawsize).Err?
  {
    hide Word;
    var mem := Encode(0, []) + rest;
    assert |Encode(0, [])| == 4;
    assert mem[0..4] == BigEndian(0);
    assert mem[3..][0] == NUL;
    WordIs(mem, 0, 0);
  }

  /** So is one that names an offset outside the file. */
  lemma OutsideRefused(mem: seq<bv8>, sz: nat, es: seq<Entry>, rawsize: nat, k: nat)
    requires IsTable(mem, sz, es) && k < |es| && es[k].off as nat >= rawsize
    ensures Svr4(mem, sz, rawsize).Err?
  {
    hide NatAt, StringAt, SymAt;
    assert EntryIn(mem, sz, es, k);
    assert !Good(mem, sz, rawsize, |es|, k);
    assert Syms(mem, sz, rawsize, |es|, k + 1).None?;
    SymsStop(mem, sz, rawsize, |es|, k + 1, |es|);
  }

  lemma ParsedIsOk(mem: seq<bv8>, sz: nat, rawsize: nat, es: seq<Entry>)
    requires ParsesTo(mem, sz, rawsize, es)
    ensures Terminated(mem, sz) && Svr4(mem, sz, rawsize).Ok?
  {
    hide Svr4, StandsFor, Terminated;
  }

  predicate InFile(es: seq<Entry>, rawsize: nat) {
    forall k :: 0 <= k < |es| ==> es[k].off as nat < rawsize
  }

  lemma TableAcceptedIff(mem: seq<bv8>, sz: nat, es: seq<Entry>, rawsize: nat)
    requires IsTable(mem, sz, es) && Terminated(mem, sz) && forall k :: 0 <= k < |es| ==> NUL !in es[k].name
    ensures Svr4(mem, sz, rawsize).Ok? <==> InFile(es, rawsize)
    ensures InFile(es, rawsize) ==> ParsesTo(mem, sz, rawsize, es)
  {
    hide IsTable, Svr4, Terminated, ParsesTo;
    if InFile(es, rawsize) {
      TableParsed(mem, sz, es, rawsize);
      ParsedIsOk(mem, sz, rawsize, es);
    } else {
      var k :| 0 <= k < |es| && es[k].off as nat >= rawsize;
      OutsideRefused(mem, sz, es, rawsize, k);
    }
  }

  /**
   * An encoded table is accepted, and then read as it was written, exactly if it has entries and all are in the file.
   */
  lemma RoundTripIff(count: bv32, es: seq<Entry>, rest: seq<bv8>, rawsize: nat)
    requires count as nat == |es| && forall k :: 0 <= k < |es| ==> NUL !in es[k].name
    ensures var mem, sz := Encode(count, es) + rest, |Encode(count, es)|;
      && Terminated(mem, sz)
      && (Svr4(mem, sz, rawsize).Ok? <==> |es| > 0 && InFile(es, rawsize))
      && (Svr4(mem, sz, rawsize).Ok? ==> ParsesTo(mem, sz, rawsize, es))
  {
    hide Encode, IsTable, Svr4, Terminated, ParsesTo, InFile;
    if es == [] {
      assert count == 0;
      EmptyRefused(rest, rawsize);
    } else {
      EncodedIsTable(count, es, rest);
      EncodedEnds(count, es, rest);
      TableAcceptedIff(Encode(count, es) + rest, |Encode(count, es)|, es, rawsize);
    }
  }
}
