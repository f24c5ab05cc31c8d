/** The System V ABI hash of a symbol name: as specified (elf_hash) and as glibc computes it (_dl_elf_hash). */
module ElfHash {

  const NUL: bv8 := 0

  /** The length of a C string: the bytes before its first NUL. */
  function Length(s: seq<bv8>): (n: nat)
    requires NUL in s
    ensures n < |s| && s[n] == NUL && forall i :: 0 <= i < n ==> s[i] != NUL
  {
    if s[0] == NUL then 0 else 1 + Length(s[1..])
  }

  // ----- the operations on an unsigned long of 64 bits

  function Byte(c: bv8): bv64 { c as bv64 }

  function Shift(h: bv64, c: bv64): bv64 { (h << 4) + c }

  function Top(h: bv64): bv64 { h & 0xF000_0000 }

  function Fold(h: bv64, t: bv64): bv64 { h ^ (t >> 24) }

  function Clear(h: bv64, t: bv64): bv64 { h & !t }

  function Low28(h: bv64): bv64 { h & 0x0FFF_FFFF }

  function Low32(h: bv64): bv64 { h & 0xFFFF_FFFF }

  /** One step of elf_hash() */
  function PlainStep(h: bv64, c: bv64): bv64 {
    var x := Shift(h, c);
    Clear(if Top(x) != 0 then Fold(x, Top(x)) else x, Top(x))
  }

  /** One step of the loop of _dl_elf_hash(): the top bits are folded in but not cleared. */
  function FastStep(h: bv64, c: bv64): bv64 {
    var x := Shift(h, c);
    Fold(x, Top(x))
  }

  /** The hash of the first `n` bytes of a name. */
  function Plain(s: seq<bv8>, n: nat): bv64
    requires n <= |s|
  {
    if n == 0 then 0 else PlainStep(Plain(s, n - 1), Byte(s[n - 1]))
  }

  function Fast(s: seq<bv8>, n: nat): bv64
    requires n <= |s|
  {
    if n == 0 then 0 else FastStep(Fast(s, n - 1), Byte(s[n - 1]))
  }

  // ----- the delayed mask

  lemma SumLow(p: bv64, f: bv64, c: bv64)
    requires p & 0x0FFF_FFFF == f & 0x0FFF_FFFF
    ensures ((p << 4) + c) & 0xFFFF_FFFF == ((f << 4) + c) & 0xFFFF_FFFF
  {}

  lemma ShiftLow(h: bv64, c: bv64)
    ensures Low32(Shift(h, c)) == ((h << 4) + c) & 0xFFFF_FFFF
  {}

  lemma ShiftLows(p: bv64, f: bv64, c: bv64)
    requires p & 0x0FFF_FFFF == f & 0x0FFF_FFFF
    ensures Low32(Shift(p, c)) == Low32(Shift(f, c))
  {
    hide Shift, Low32;
    ShiftLow(p, c);
    ShiftLow(f, c);
    SumLow(p, f, c);
  }

  lemma ShiftAgrees(p: bv64, f: bv64, c: bv64)
    requires Low28(p) == Low28(f)
    ensures Low32(Shift(p, c)) == Low32(Shift(f, c))
  {
    hide Shift, Low32;
    assert p & 0x0FFF_FFFF == f & 0x0FFF_FFFF;
    ShiftLows(p, f, c);
  }

  lemma XorLow(x: bv64, t: bv64)
    ensures (x ^ t) & 0x0FFF_FFFF == ((x & 0xFFFF_FFFF) ^ t) & 0x0FFF_FFFF
  {}

  lemma FoldOfLow(x: bv64, t: bv64)
    ensures Low28(Fold(x, t)) == Low28(Fold(Low32(x), t))
  {
    XorLow(x, t >> 24);
  }

  lemma TopOfLow(x: bv64)
    ensures Top(Low32(x)) == Top(x)
  {}

  lemma FoldLow(x: bv64)
    ensures Low28(Fold(x, Top(x))) == Low28(Fold(Low32(x), Top(Low32(x))))
  {
    hide Low28, Low32, Fold, Top;
    TopOfLow(x);
    FoldOfLow(x, Top(x));
  }

  lemma FoldAgrees(x: bv64, y: bv64)
    requires Low32(x) == Low32(y)
    ensures Low28(Fold(x, Top(x))) == Low28(Fold(y, Top(y)))
  {
    hide Low28, Low32, Fold, Top;
    FoldLow(x);
    FoldLow(y);
  }

  lemma ClearKeepsLow(x: bv64)
    ensures Low28(Clear(Fold(x, Top(x)), Top(x))) == Low28(Fold(x, Top(x)))
    ensures Low32(Clear(Fold(x, Top(x)), Top(x))) == Low28(Fold(x, Top(x)))
  {}

  lemma FoldNothing(x: bv64)
    ensures Fold(x, 0) == x
  {}

  /** The bits that the fast form leaves in place never reach those that are kept. */
  lemma {:induction false} FastIsPlain(s: seq<bv8>, n: nat)
    requires n <= |s|
    ensures Low28(Plain(s, n)) == Low28(Fast(s, n))
    ensures Low32(Plain(s, n)) == Low28(Plain(s, n))
  {
    hide Shift, Top, Fold, Clear, Low28, Low32, Byte;
    if n == 0 {
      ZeroIsLow();
    } else {
      FastIsPlain(s, n - 1);
      var p, f, c := Plain(s, n - 1), Fast(s, n - 1), Byte(s[n - 1]);
      ShiftAgrees(p, f, c);
      FoldAgrees(Shift(p, c), Shift(f, c));
      ClearKeepsLow(Shift(p, c));
      FoldNothing(Shift(p, c));
    }
  }

  lemma ZeroIsLow()
    ensures Low28(0) == 0 && Low32(0) == 0
  {}

  /** elf_hash() */
  method Hash(name: seq<bv8>) returns (h: bv64)
    requires NUL in name
    ensures h == Plain(name, Length(name))
  {
    hide Shift, Top, Fold, Clear, Byte;
    h := 0;
    var t: bv64 := 0;
    var i := 0;
    while name[i] != NUL
      invariant i <= Length(name) && h == Plain(name, i)
      decreases Length(name) - i
    {
      h := Shift(h, Byte(name[i]));
      i := i + 1;
      t := Top(h);
      if t != 0 {
        h := Fold(h, t);
      }
      h := Clear(h, t);
    }
  }

  lemma LowWord(h: bv64)
    ensures Low32(h) == h & 0xFFFF_FFFF
  {}

  /** Four bits from bit 28 on move to bit 4, where they are added without carry; what is above them stays. */
  function Moved(x: bv64): bv64 { (x & 0xFFFF_FFFF_0FFF_FFFF) ^ (((x >> 28) & 0xF) << 4) }

  function Sixteen(h: bv64, c: bv64): bv64 { (h << 4) + c }

  lemma MovedAll(x: bv64)
    ensures Clear(Fold(x, Top(x)), Top(x)) == Moved(x)
  {}

  lemma MovedNone(x: bv64)
    requires Top(x) == 0
    ensures Clear(x, Top(x)) == Moved(x)
  {}

  /** In 32 bits, nothing is above them. */
  lemma MovedWord(x: bv64)
    requires x <= 0xFFFF_FFFF
    ensures Moved(x) == (x & 0x0FFF_FFFF) ^ ((x >> 28) << 4)
  {}

  lemma SixteenIs(h: bv64, d: bv64)
    ensures Shift(h, d) == Sixteen(h, d)
  {}

  lemma ByteIs(c: bv8)
    ensures Byte(c) == c as bv64
  {}

  /** The hash of a name with one more byte */
  lemma HashOfMore(s: seq<bv8>, n: nat)
    requires n < |s|
    ensures Plain(s, 0) == 0 && Plain(s, n + 1) == Moved(Sixteen(Plain(s, n), Byte(s[n])))
  {
    hide Top, Fold, Clear, Shift, Byte, Moved, Sixteen;
    var x := Sixteen(Plain(s, n), Byte(s[n]));
    SixteenIs(Plain(s, n), Byte(s[n]));
    if Top(x) != 0 {
      MovedAll(x);
    } else {
      MovedNone(x);
    }
  }

  lemma MovedFew()
    ensures Moved(Sixteen(0, 0x66)) == 0x66
    ensures Moved(Sixteen(0x66, 0x70)) == 0x6D0
    ensures Moved(Sixteen(0x6D0, 0x72)) == 0x6D72
    ensures Moved(Sixteen(0x6D72, 0x69)) == 0x6_D789
    ensures Moved(Sixteen(0x6_D789, 0x6E)) == 0x6D_78FE
    ensures Moved(Sixteen(0x6D_78FE, 0x74)) == 0x6D7_9054
    ensures Moved(Sixteen(0x6D7_9054, 0x66)) == 0x0D79_05C6
  {}

  lemma LetterBytes()
    ensures Byte(0x66) == 0x66 && Byte(0x70) == 0x70 && Byte(0x72) == 0x72 && Byte(0x69) == 0x69
    ensures Byte(0x6E) == 0x6E && Byte(0x74) == 0x74
  {}

  /** "fprintf", of whose last two bytes each folds four bits in */
  lemma HashOfFprintf()
    ensures var s := [0x66, 0x70, 0x72, 0x69, 0x6E, 0x74, 0x66, NUL];
      Length(s) == 7 && Plain(s, 7) == 0x0D79_05C6
  {
    var s: seq<bv8> := [0x66, 0x70, 0x72, 0x69, 0x6E, 0x74, 0x66, NUL];
    hide Plain, Moved, Sixteen, Byte;
    MovedFew();
    LetterBytes();
    HashOfMore(s, 0);
    HashOfMore(s, 1);
    HashOfMore(s, 2);
    HashOfMore(s, 3);
    HashOfMore(s, 4);
    HashOfMore(s, 5);
    HashOfMore(s, 6);
  }

  // ----- the first five bytes need no folding

  lemma ByteIsSmall(c: bv8)
    ensures Byte(c) <= 0xFF
  {}

  lemma Second(h: bv64, c: bv64)
    requires h <= 0xFF && c <= 0xFF
    ensures Shift(h, c) <= 0x10EF
  {}

  lemma Third(h: bv64, c: bv64)
    requires h <= 0x10EF && c <= 0xFF
    ensures Shift(h, c) <= 0x1_0FEF
  {}

  lemma Fourth(h: bv64, c: bv64)
    requires h <= 0x1_0FEF && c <= 0xFF
    ensures Shift(h, c) <= 0x10_FFEF
  {}

  lemma Fifth(h: bv64, c: bv64)
    requires h <= 0x10_FFEF && c <= 0xFF
    ensures Shift(h, c) <= 0x10F_FFEF
  {}

  lemma NothingToFold(x: bv64)
    requires x <= 0xFF || x <= 0x10EF || x <= 0x1_0FEF || x <= 0x10_FFEF || x <= 0x10F_FFEF
    ensures Fold(x, Top(x)) == x && Low28(x) == x
  {}

  lemma FirstByte(c: bv8)
    ensures Shift(0, Byte(c)) == Byte(c)
  {}

  predicate FitsFive(h: bv64, n: nat) {
    match n
    case 0 => h == 0
    case 1 => h <= 0xFF
    case 2 => h <= 0x10EF
    case 3 => h <= 0x1_0FEF
    case 4 => h <= 0x10_FFEF
    case _ => h <= 0x10F_FFEF
  }

  lemma ShiftFits(h: bv64, c: bv8, n: nat)
    requires n < 5 && FitsFive(h, n)
    ensures FitsFive(Shift(h, Byte(c)), n + 1)
  {
    hide Shift, Byte;
    ByteIsSmall(c);
    match n
    case 0 => FirstByte(c);
    case 1 => Second(h, Byte(c));
    case 2 => Third(h, Byte(c));
    case 3 => Fourth(h, Byte(c));
    case _ => Fifth(h, Byte(c));
  }

  lemma FitsIsLow(h: bv64, n: nat)
    requires n <= 5 && FitsFive(h, n)
    ensures Fold(h, Top(h)) == h && Low28(h) == h
  {
    hide Fold, Top, Low28;
    assert h <= 0xFF || h <= 0x10EF || h <= 0x1_0FEF || h <= 0x10_FFEF || h <= 0x10F_FFEF;
    NothingToFold(h);
  }

  lemma {:induction false} FirstFive(s: seq<bv8>, n: nat)
    requires n <= |s| && n <= 5
    ensures FitsFive(Fast(s, n), n) && Low28(Fast(s, n)) == Fast(s, n)
    ensures n > 0 ==> Fast(s, n) == Shift(Fast(s, n - 1), Byte(s[n - 1]))
  {
    hide Shift, Top, Fold, Low28, Byte, FitsFive;
    if n == 0 {
      ZeroFits();
    } else {
      FirstFive(s, n - 1);
      ShiftFits(Fast(s, n - 1), s[n - 1], n - 1);
      FitsIsLow(Shift(Fast(s, n - 1), Byte(s[n - 1])), n);
    }
  }

  lemma ZeroFits()
    ensures FitsFive(0, 0) && Low28(0) == 0
  {}

  /** _dl_elf_hash(): for every string the low 32 bits of elf_hash(). */
  method DlHash(name: seq<bv8>) returns (hash: bv64)
    requires NUL in name
    ensures hash == Low32(Plain(name, Length(name)))
  {
    hide Shift, Top, Fold, Clear, Low28, Low32, Byte, PlainStep, FitsFive;
    ghost var n := Length(name);
    FastIsPlain(name, n);
    FirstFive(name, if n < 5 then n else 5);
    hash := Byte(name[0]);
    FirstByte(name[0]);
    if name[0] != NUL {
      FirstFive(name, 1);
    } else {
      ZeroByte();
    }
    if name[0] != NUL && name[1] != NUL {
      hash := Shift(hash, Byte(name[1]));
      FirstFive(name, 2);
      if name[2] != NUL {
        hash := Shift(hash, Byte(name[2]));
        FirstFive(name, 3);
        if name[3] != NUL {
          hash := Shift(hash, Byte(name[3]));
          FirstFive(name, 4);
          if name[4] != NUL {
            hash := Shift(hash, Byte(name[4]));
            FirstFive(name, 5);
            var i := 5;
            while name[i] != NUL
              invariant 5 <= i <= n && hash == Fast(name, i)
              decreases n - i
            {
              hash := Shift(hash, Byte(name[i]));
              i := i + 1;
              var hi := Top(hash);
              hash := Fold(hash, hi);
            }
            hash := Low28(hash);
          }
        }
      }
    }
  }

  lemma ZeroByte()
    ensures Byte(NUL) == 0
  {}

  /** On 64 bits elf_hash() can carry into bit 32, which the fast form does not keep. */
  lemma CarryDiffers()
    ensures Plain([0xFF, 0x0F, 0x0F, 0x0F, 0x0F, 0x0F, 0x12], 7) == 0x1_0000_0002
  {
    var s: seq<bv8> := [0xFF, 0x0F, 0x0F, 0x0F, 0x0F, 0x0F, 0x12];
    assert Plain(s, 1) == 0xFF;
    assert Plain(s, 2) == 0xFFF;
    assert Plain(s, 3) == 0xFFFF;
    assert Plain(s, 4) == 0xF_FFFF;
    assert Plain(s, 5) == 0xFF_FFFF;
    assert Plain(s, 6) == 0x0FFF_FFFF;
  }

  // ----- when the carry is left in the result

  function High(h: bv64): bv64 { h >> 32 }

  /** What adding a byte to the kept bits, four places up, carries into bit 32. */
  function Carry(h: bv64, c: bv64): bv64 { (((h & 0x0FFF_FFFF) << 4) + c) >> 32 }

  /** The `k` lowest hexadecimal digits, all set. */
  function Digits(k: nat): bv64 {
    if k == 0 then 0 else OneMore(Digits(k - 1))
  }

  function OneMore(m: bv64): bv64 { (m << 4) | 0xF }

  function Masked(h: bv64, m: bv64): bv64 { h & m }

  function LowDigits(h: bv64, k: nat): bv64 { Masked(h, Digits(k)) }

  /** The upper half moves up four places and takes in a carry. */
  function TakeIn(u: bv64, b: bv64): bv64 { ((u << 4) + b) & 0xFFFF_FFFF }

  /** Byte `i` of a name makes elf_hash() carry into bit 32. */
  predicate CarryAt(s: seq<bv8>, i: nat)
    requires i < |s|
  {
    Carry(Plain(s, i), Byte(s[i])) != 0
  }

  lemma HighOfShift(h: bv64, c: bv64)
    requires h & 0xFFFF_FFFF == h & 0x0FFF_FFFF && c <= 0xFF
    ensures ((h << 4) + c) >> 32 == (((h >> 32) << 4) + ((((h & 0x0FFF_FFFF) << 4) + c) >> 32)) & 0xFFFF_FFFF
  {}

  lemma HighKept(x: bv64)
    ensures High(Clear(Fold(x, Top(x)), Top(x))) == High(x)
  {}

  lemma ShiftHigh(h: bv64, c: bv64)
    requires Low32(h) == Low28(h) && c <= 0xFF
    ensures High(Shift(h, c)) == TakeIn(High(h), Carry(h, c))
  {
    HighOfShift(h, c);
  }

  /** Every step does that. */
  lemma HighStep(h: bv64, c: bv64)
    requires Low32(h) == Low28(h) && c <= 0xFF
    ensures High(PlainStep(h, c)) == TakeIn(High(h), Carry(h, c))
  {
    hide High, Carry, Low28, Low32, Shift, Top, Fold, Clear, TakeIn;
    ShiftHigh(h, c);
    HighKept(Shift(h, c));
    FoldNothing(Shift(h, c));
  }

  lemma CarryIsBit(h: bv64, c: bv64)
    requires c <= 0xFF
    ensures Carry(h, c) <= 1
  {}

  lemma DigitsFit(k: nat)
    requires k <= 7
    ensures Digits(k) <= 0x0FFF_FFFF
  {
    assert Digits(1) == 0xF && Digits(2) == 0xFF && Digits(3) == 0xFFF;
    assert Digits(4) == 0xFFFF && Digits(5) == 0xF_FFFF && Digits(6) == 0xFF_FFFF;
  }

  lemma MaskMoved(u: bv64, b: bv64, m: bv64)
    requires b <= 1 && m <= 0x0FFF_FFFF
    ensures Masked(TakeIn(u, b), OneMore(m)) == 0 <==> b == 0 && Masked(u, m) == 0
  {
    TakeInIsOr(u, b);
    OrMasked(u, b, m);
  }

  lemma TakeInIsOr(u: bv64, b: bv64)
    requires b <= 1
    ensures TakeIn(u, b) == ((u << 4) | b) & 0xFFFF_FFFF
  {}

  lemma OrMasked(u: bv64, b: bv64, m: bv64)
    requires b <= 1 && m <= 0x0FFF_FFFF
    ensures (((u << 4) | b) & 0xFFFF_FFFF) & ((m << 4) | 0xF) == 0 <==> b == 0 && u & m == 0
  {
    if b == 0 {
      assert ((u << 4) & 0xFFFF_FFFF) & ((m << 4) | 0xF) == ((u & m) << 4) & 0xFFFF_FFFF;
      assert ((u & m) << 4) & 0xFFFF_FFFF == 0 <==> u & m == 0;
    } else {
      assert (((u << 4) | 1) & 0xFFFF_FFFF) & ((m << 4) | 0xF) & 1 == 1;
    }
  }

  lemma DigitIn(u: bv64, b: bv64, k: nat)
    requires 0 < k <= 8 && b <= 1
    ensures LowDigits(TakeIn(u, b), k) == 0 <==> b == 0 && LowDigits(u, k - 1) == 0
  {
    hide Masked, TakeIn, OneMore;
    DigitsFit(k - 1);
    MaskMoved(u, b, Digits(k - 1));
  }

  lemma NoDigits(h: bv64, k: nat)
    ensures LowDigits(h, 0) == 0 && High(0) == 0 && LowDigits(0, k) == 0
  {}

  /** The last `k` digits of the upper half are what the last `k` bytes carried. */
  lemma {:induction false} DigitsAreCarries(s: seq<bv8>, n: nat, k: nat)
    requires n <= |s| && k <= 8
    ensures LowDigits(High(Plain(s, n)), k) == 0 <==> forall i :: 0 <= i < n && n - k <= i ==> !CarryAt(s, i)
    decreases n
  {
    hide High, Carry, LowDigits, Byte, PlainStep, Low28, Low32, TakeIn;
    NoDigits(High(Plain(s, n)), k);
    if n > 0 && k > 0 {
      var h, c := Plain(s, n - 1), Byte(s[n - 1]);
      FastIsPlain(s, n - 1);
      ByteIsSmall(s[n - 1]);
      HighStep(h, c);
      CarryIsBit(h, c);
      DigitIn(High(h), Carry(h, c), k);
      DigitsAreCarries(s, n - 1, k - 1);
      assert CarryAt(s, n - 1) <==> Carry(h, c) != 0;
    }
  }

  lemma HighIsEight(h: bv64)
    ensures LowDigits(High(h), 8) == 0 <==> h == Low32(h)
  {
    DigitsFit(7);
    assert Digits(1) == 0xF && Digits(2) == 0xFF && Digits(3) == 0xFFF && Digits(4) == 0xFFFF;
    assert Digits(5) == 0xF_FFFF && Digits(6) == 0xFF_FFFF && Digits(7) == 0xFFF_FFFF;
    assert Digits(8) == 0xFFFF_FFFF;
    HalvesOf(h);
  }

  lemma HalvesOf(h: bv64)
    ensures (h >> 32) & 0xFFFF_FFFF == 0 <==> h == h & 0xFFFF_FFFF
  {}

  /**
   * elf_hash() stays within 32 bits, and so is what _dl_elf_hash() computes, exactly if none of the last eight bytes
   * carries: what an earlier byte carried has been shifted out again.
   */
  lemma WithinIff(s: seq<bv8>, n: nat)
    requires n <= |s|
    ensures Plain(s, n) == Low32(Plain(s, n)) <==> forall i :: 0 <= i < n && n - 8 <= i ==> !CarryAt(s, i)
  {
    hide LowDigits, High, Low32, CarryAt, Plain;
    DigitsAreCarries(s, n, 8);
    HighIsEight(Plain(s, n));
  }
}
