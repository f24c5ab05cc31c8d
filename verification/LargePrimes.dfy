/** Two large primes, and that tables of every size can be made because of them. */
module LargePrimes {
  import opened Arith
  import opened Primes

  const LOW_PRIME: nat := 6000000434121474049   // 1396983963 * 2^32 + 1
  const HIGH_PRIME: nat := 9223372195768565761  // 2147483685 * 2^32 + 1

  // ----- congruence

  predicate Cong(x: int, y: int, d: nat)
    requires d > 0
  {
    (x - y) % d == 0
  }

  lemma TimesMultiple(x: int, z: int, d: nat)
    requires d > 0 && x % d == 0
    ensures (x * z) % d == 0
  {
    var q := x / d;
    assert x == q * d;
    assert x * z == (q * z) * d;
    MulMod(q * z, d);
  }

  lemma CongTimes(x: int, y: int, z: int, w: int, d: nat)
    requires d > 0 && Cong(x, y, d) && Cong(z, w, d)
    ensures Cong(x * z, y * w, d)
  {
    TimesMultiple(x - y, z, d);
    TimesMultiple(z - w, y, d);
    SumMod((x - y) * z, (z - w) * y, d);
    assert x * z - y * w == (x - y) * z + (z - w) * y;
  }

  lemma CongTrans(x: int, y: int, z: int, d: nat)
    requires d > 0 && Cong(x, y, d) && Cong(y, z, d)
    ensures Cong(x, z, d)
  {
    SumMod(x - y, y - z, d);
  }

  lemma CongBack(x: int, y: int, d: nat)
    requires d > 0 && Cong(x, y, d)
    ensures Cong(y, x, d)
  {
    TimesMultiple(x - y, -1, d);
  }

  // ----- powers

  function Pow(b: int, e: nat): int {
    if e == 0 then 1 else b * Pow(b, e - 1)
  }

  /** `b` squared `s` times. */
  function Tower(b: int, s: nat): int
    decreases s
  {
    if s == 0 then b else Tower(b * b, s - 1)
  }

  lemma {:induction false} PowTimes(a: int, b: int, e: nat)
    ensures Pow(a, e) * Pow(b, e) == Pow(a * b, e)
  {
    if e > 0 {
      PowTimes(a, b, e - 1);
      var x, y := Pow(a, e - 1), Pow(b, e - 1);
      assert (a * x) * (b * y) == (a * b) * (x * y);
    }
  }

  lemma {:induction false} PowAdd(b: int, i: nat, j: nat)
    ensures Pow(b, i) * Pow(b, j) == Pow(b, i + j)
  {
    if i > 0 {
      PowAdd(b, i - 1, j);
      var x, y := Pow(b, i - 1), Pow(b, j);
      assert (b * x) * y == b * (x * y);
    }
  }

  lemma PowEven(b: int, e: nat)
    ensures Pow(b * b, e) == Pow(b, 2 * e)
  {
    PowTimes(b, b, e);
    PowAdd(b, e, e);
  }

  lemma {:induction false} PowCong(x: int, y: int, e: nat, d: nat)
    requires d > 0 && Cong(x, y, d)
    ensures Cong(Pow(x, e), Pow(y, e), d)
  {
    if e > 0 {
      PowCong(x, y, e - 1, d);
      CongTimes(x, y, Pow(x, e - 1), Pow(y, e - 1), d);
    }
  }

  lemma {:induction false} TowerCong(x: int, y: int, s: nat, d: nat)
    requires d > 0 && Cong(x, y, d)
    ensures Cong(Tower(x, s), Tower(y, s), d)
    decreases s
  {
    if s > 0 {
      CongTimes(x, y, x, y, d);
      TowerCong(x * x, y * y, s - 1, d);
    }
  }

  lemma {:induction false} TowerOfPow(b: int, e: nat, s: nat)
    ensures Tower(Pow(b, e), s) == Pow(Tower(b, s), e)
    decreases s
  {
    if s > 0 {
      PowTimes(b, b, e);
      TowerOfPow(b * b, e, s - 1);
    }
  }

  lemma {:induction false} TowerIsPow(b: int, s: nat)
    ensures Tower(b, s) == Pow(b, Pow2(s))
    decreases s
  {
    if s > 0 {
      TowerIsPow(b * b, s - 1);
      PowEven(b, Pow2(s - 1));
    } else {
      assert Pow(b, 1) == b * Pow(b, 0);
    }
  }

  lemma {:induction false} TowerOfOne(s: nat)
    ensures Tower(1, s) == 1
  {
    if s > 0 {
      TowerOfOne(s - 1);
    }
  }

  lemma {:induction false} PowOfMinusOne(e: nat)
    ensures Pow(-1, e) == if e % 2 == 0 then 1 else -1
  {
    if e > 0 {
      PowOfMinusOne(e - 1);
    }
  }

  // ----- an element of order 2^(s + 1) makes room for as many residues

  /** `b` squared `s` times is -1. */
  predicate Root(b: int, s: nat, d: nat)
    requires d > 0
  {
    Cong(Tower(b, s), -1, d)
  }

  lemma TwoIsNotZero(d: nat)
    requires d > 2
    ensures !Cong(1, -1, d)
  {
    ModSmall(2, d);
  }

  lemma {:induction false} NotOne(b: int, s: nat, e: nat, d: nat)
    requires d > 2 && Root(b, s, d) && 0 < e < Pow2(s + 1)
    ensures !Cong(Pow(b, e), 1, d)
    decreases s
  {
    hide Cong;
    if e % 2 == 0 {
      assert s > 0 by { assert Pow2(1) == 2 * Pow2(0); }
      PowEven(b, e / 2);
      NotOne(b * b, s - 1, e / 2, d);
    } else if Cong(Pow(b, e), 1, d) {
      TowerCong(Pow(b, e), 1, s, d);
      TowerOfOne(s);
      TowerOfPow(b, e, s);
      PowCong(Tower(b, s), -1, e, d);
      PowOfMinusOne(e);
      CongBack(Pow(Tower(b, s), e), 1, d);
      CongTrans(1, Pow(Tower(b, s), e), -1, d);
      TwoIsNotZero(d);
    }
  }

  /** Its powers up to the order differ. */
  lemma PowersDiffer(b: int, s: nat, i: nat, j: nat, d: nat)
    requires d > 2 && Root(b, s, d) && i < j < Pow2(s + 1)
    ensures !Cong(Pow(b, i), Pow(b, j), d)
  {
    hide Cong, Pow2;
    if Cong(Pow(b, i), Pow(b, j), d) {
      var n := Pow2(s + 1);
      FullPower(b, s, d);
      CongSelf(Pow(b, n - i), d);
      CongTimes(Pow(b, i), Pow(b, j), Pow(b, n - i), Pow(b, n - i), d);
      PowAdd(b, i, n - i);
      PowAdd(b, j, n - i);
      PowAdd(b, n, j - i);
      CongSelf(Pow(b, j - i), d);
      CongTimes(Pow(b, n), 1, Pow(b, j - i), Pow(b, j - i), d);
      CongBack(Pow(b, n), Pow(b, n + (j - i)), d);
      CongTrans(Pow(b, n + (j - i)), Pow(b, n), 1, d);
      CongBack(Pow(b, n + (j - i)), Pow(b, j - i), d);
      CongTrans(Pow(b, j - i), Pow(b, n + (j - i)), 1, d);
      NotOne(b, s, j - i, d);
    }
  }

  lemma CongSelf(x: int, d: nat)
    requires d > 0
    ensures Cong(x, x, d)
  {}

  lemma FullPower(b: int, s: nat, d: nat)
    requires d > 0 && Root(b, s, d)
    ensures Cong(Pow(b, Pow2(s + 1)), 1, d)
  {
    TowerIsPow(b, s);
    PowAdd(b, Pow2(s), Pow2(s));
    CongTimes(Tower(b, s), -1, Tower(b, s), -1, d);
  }

  /** There are at most `d` different numbers below `d`. */
  lemma {:induction false} Pigeonhole(xs: seq<int>, d: nat)
    requires forall i :: 0 <= i < |xs| ==> 0 <= xs[i] < d
    requires forall i, j :: 0 <= i < j < |xs| ==> xs[i] != xs[j]
    ensures |xs| <= d
    decreases d
  {
    if |xs| > 0 {
      assert 0 <= xs[0] < d;
      if k :| 0 <= k < |xs| && xs[k] == d - 1 {
        Pigeonhole(xs[..k] + xs[k + 1..], d - 1);
      } else {
        Pigeonhole(xs, d - 1);
      }
    }
  }

  function Residues(b: int, n: nat, d: nat): (r: seq<int>)
    requires d > 0
    ensures |r| == n && forall i :: 0 <= i < n ==> r[i] == Pow(b, i) % d
  {
    seq(n, i requires 0 <= i < n => Pow(b, i) % d)
  }

  lemma FactorIsLarge(b: int, s: nat, d: nat)
    requires d > 2 && Root(b, s, d)
    ensures d >= Pow2(s + 1)
  {
    hide Pow, Pow2, Root, Cong;
    var xs := Residues(b, Pow2(s + 1), d);
    forall i: nat, j: nat | i < j < |xs|
      ensures xs[i] != xs[j]
    {
      PowersDiffer(b, s, i, j, d);
      SameResidue(Pow(b, i), Pow(b, j), d);
    }
    Pigeonhole(xs, d);
  }

  lemma SameResidue(x: int, y: int, d: nat)
    requires d > 0
    ensures x % d == y % d ==> Cong(x, y, d)
  {
    if x % d == y % d {
      DivMod(x, d);
      DivMod(y, d);
      assert x - y == (x / d - y / d) * d;
      MulMod(x / d - y / d, d);
    }
  }

  /** An odd number below 2^(2s + 2) with such an element is prime: every factor is too large to have another. */
  lemma PrimeByRoot(n: nat, b: int, s: nat)
    requires n > 2 && n % 2 == 1 && Root(b, s, n) && Square(Pow2(s + 1)) > n && Pow2(s + 1) >= 2
    ensures IsPrime(n)
  {
    hide Square;
    forall d: nat | 2 <= d < Pow2(s + 1)
      ensures !Factor(d, n)
    {
      if Factor(d, n) {
        if d == 2 {
          EvenMultiple(n, d);
        }
        ModTrans(Tower(b, s) + 1, n, d);
        FactorIsLarge(b, s, d);
      }
    }
    NoFactorBySquare(n, Pow2(s + 1));
  }

  // ----- the two

  lemma Certified(x: int, y: int, q: int, d: nat)
    requires d > 0 && x * x == y + q * d
    ensures Cong(x * x, y, d)
  {
    MulMod(q, d);
  }

  lemma {:induction false} Climb(xs: seq<nat>, i: nat, d: nat)
    requires d > 0 && i < |xs| && forall j :: 0 <= j < |xs| - 1 ==> Cong(xs[j] * xs[j], xs[j + 1], d)
    ensures Cong(Tower(xs[i], |xs| - 1 - i), xs[|xs| - 1], d)
    decreases |xs| - i
  {
    if i < |xs| - 1 {
      Climb(xs, i + 1, d);
      TowerCong(xs[i] * xs[i], xs[i + 1], |xs| - 2 - i, d);
      CongTrans(Tower(xs[i] * xs[i], |xs| - 2 - i), Tower(xs[i + 1], |xs| - 2 - i), xs[|xs| - 1], d);
    }
  }

  lemma PrimeByChain(xs: seq<nat>, n: nat)
    requires 2 < n < TWO64 && n % 2 == 1 && |xs| == 32 && xs[31] == n - 1
    requires forall i :: 0 <= i < 31 ==> Cong(xs[i] * xs[i], xs[i + 1], n)
    ensures IsPrime(n)
  {
    Climb(xs, 0, n);
    assert Cong(n - 1, -1, n) by { MulMod(1, n); }
    CongTrans(Tower(xs[0], 31), n - 1, -1, n);
    PowerOf32();
    PrimeByRoot(n, xs[0], 31);
  }

  lemma PowerOf32()
    ensures Pow2(32) == TWO32 && Square(Pow2(32)) == TWO64
  {
    assert Pow2(8) == 256;
    assert Pow2(16) == 0x1_0000;
    assert Pow2(24) == 0x100_0000;
  }

  const LOW_CHAIN: seq<nat> := [
    2470013229593530370, 4291799256790139169, 2512161826494546912, 5931978516246682888, 5598297500166614670,
    2268029129077248941, 1258356666306099860, 5787509661776425403, 1468260980007089061, 5328989948793792867,
    136794805709651610, 2167803833040985685, 616514541111738828, 3705764984520696545, 416611943495449617,
    2326761980188396933, 2848444295732566258, 2527268542413135772, 1319041720183375066, 5595211115388075915,
    1318796150879618040, 528695509476359704, 3368448210541341329, 2689715405877958188, 1984593121775936586,
    4671410445130326623, 5506371000490675421, 4219279629660484637, 5897377502805947720, 4008473293371112362,
    574507818800816937, 6000000434121474048]

  const HIGH_CHAIN: seq<nat> := [
    2838588523691248872, 4243890668868736572, 5373432664222306561, 4521816649378516632, 7639628744652455123,
    2989497915244218997, 351123615898811422, 132045376374851418, 4860436578094930306, 76027088070079599,
    4397416499433215646, 1344896110654153232, 8106394041545983744, 1378268847993753252, 7364479264696271183,
    4408441730391423998, 1555067403656255195, 2244392741309900612, 2909132903673115185, 6113571660435442084,
    7601802060547725574, 8460919852439198061, 5770266022018190558, 4026328987031810477, 3591845339032163846,
    5081264389107384698, 920409107037553857, 5989206813005793993, 5009744011719179574, 101295739236358398,
    9048166886559738156, 9223372195768565760]

  lemma LowSquares()
    ensures |LOW_CHAIN| == 32 && LOW_CHAIN[31] == LOW_PRIME - 1
    ensures forall i :: 0 <= i < 31 ==> Cong(LOW_CHAIN[i] * LOW_CHAIN[i], LOW_CHAIN[i + 1], LOW_PRIME)
  {
    Certified(2470013229593530370, 4291799256790139169, 1016827485490069219, LOW_PRIME);
    Certified(4291799256790139169, 2512161826494546912, 3069923254644130401, LOW_PRIME);
    Certified(2512161826494546912, 5931978516246682888, 1051826097646020344, LOW_PRIME);
    Certified(5931978516246682888, 5598297500166614670, 5864727761867989426, LOW_PRIME);
    Certified(5598297500166614670, 2268029129077248941, 5223488772123853591, LOW_PRIME);
    Certified(2268029129077248941, 1258356666306099860, 857325959693215829, LOW_PRIME);
    Certified(1258356666306099860, 5787509661776425403, 263910230844650453, LOW_PRIME);
    Certified(5787509661776425403, 1468260980007089061, 5582544276942187252, LOW_PRIME);
    Certified(1468260980007089061, 5328989948793792867, 359298358238707446, LOW_PRIME);
    Certified(5328989948793792867, 136794805709651610, 4733021969939799471, LOW_PRIME);
    Certified(136794805709651610, 2167803833040985685, 3118802919200335, LOW_PRIME);
    Certified(2167803833040985685, 616514541111738828, 783228853088454253, LOW_PRIME);
    Certified(616514541111738828, 3705764984520696545, 63348358650222511, LOW_PRIME);
    Certified(3705764984520696545, 416611943495449617, 2288782187815030192, LOW_PRIME);
    Certified(416611943495449617, 2326761980188396933, 28927583150828444, LOW_PRIME);
    Certified(2326761980188396933, 2848444295732566258, 902303486790151719, LOW_PRIME);
    Certified(2848444295732566258, 2527268542413135772, 1352272386473485608, LOW_PRIME);
    Certified(2527268542413135772, 1319041720183375066, 1064514303890416182, LOW_PRIME);
    Certified(1319041720183375066, 5595211115388075915, 289978488949738009, LOW_PRIME);
    Certified(5595211115388075915, 1318796150879618040, 5217730860105544065, LOW_PRIME);
    Certified(1318796150879618040, 528695509476359704, 289870526955979304, LOW_PRIME);
    Certified(528695509476359704, 3368448210541341329, 46586486919378863, LOW_PRIME);
    Certified(3368448210541341329, 2689715405877958188, 1891073754357239797, LOW_PRIME);
    Certified(2689715405877958188, 1984593121775936586, 1205761406861718342, LOW_PRIME);
    Certified(1984593121775936586, 4671410445130326623, 656434929004643077, LOW_PRIME);
    Certified(4671410445130326623, 5506371000490675421, 3637012327994593892, LOW_PRIME);
    Certified(5506371000490675421, 4219279629660484637, 5053353233545921196, LOW_PRIME);
    Certified(4219279629660484637, 5897377502805947720, 2967053217534400001, LOW_PRIME);
    Certified(5897377502805947720, 4008473293371112362, 5796509815702055062, LOW_PRIME);
    Certified(4008473293371112362, 574507818800816937, 2677976163517082043, LOW_PRIME);
    Certified(574507818800816937, 6000000434121474048, 55009868330384529, LOW_PRIME);
  }

  lemma HighSquares()
    ensures |HIGH_CHAIN| == 32 && HIGH_CHAIN[31] == HIGH_PRIME - 1
    ensures forall i :: 0 <= i < 31 ==> Cong(HIGH_CHAIN[i] * HIGH_CHAIN[i], HIGH_CHAIN[i + 1], HIGH_PRIME)
  {
    Certified(2838588523691248872, 4243890668868736572, 873605080203557892, HIGH_PRIME);
    Certified(4243890668868736572, 5373432664222306561, 1952713999503772943, HIGH_PRIME);
    Certified(5373432664222306561, 4521816649378516632, 3130501294328959849, HIGH_PRIME);
    Certified(4521816649378516632, 7639628744652455123, 2216849258233036141, HIGH_PRIME);
    Certified(7639628744652455123, 2989497915244218997, 6327829574404017012, HIGH_PRIME);
    Certified(2989497915244218997, 351123615898811422, 968962066753592667, HIGH_PRIME);
    Certified(351123615898811422, 132045376374851418, 13366889140440106, HIGH_PRIME);
    Certified(132045376374851418, 4860436578094930306, 1890412861141538, HIGH_PRIME);
    Certified(4860436578094930306, 76027088070079599, 2561302225288180117, HIGH_PRIME);
    Certified(76027088070079599, 4397416499433215646, 626681651540355, HIGH_PRIME);
    Certified(4397416499433215646, 1344896110654153232, 2096551180961654644, HIGH_PRIME);
    Certified(1344896110654153232, 8106394041545983744, 196104581931809280, HIGH_PRIME);
    Certified(8106394041545983744, 1378268847993753252, 7124685306200682844, HIGH_PRIME);
    Certified(1378268847993753252, 7364479264696271183, 205957753523328961, HIGH_PRIME);
    Certified(7364479264696271183, 4408441730391423998, 5880230537050552931, HIGH_PRIME);
    Certified(4408441730391423998, 1555067403656255195, 2107077333296003369, HIGH_PRIME);
    Certified(1555067403656255195, 2244392741309900612, 262185519415949333, HIGH_PRIME);
    Certified(2244392741309900612, 2909132903673115185, 546145018364925919, HIGH_PRIME);
    Certified(2909132903673115185, 6113571660435442084, 917566164695835581, HIGH_PRIME);
    Certified(6113571660435442084, 7601802060547725574, 4052287780864612362, HIGH_PRIME);
    Certified(7601802060547725574, 8460919852439198061, 6265321765314745015, HIGH_PRIME);
    Certified(8460919852439198061, 5770266022018190558, 7761495820611251083, HIGH_PRIME);
    Certified(5770266022018190558, 4026328987031810477, 3609956234893450967, HIGH_PRIME);
    Certified(4026328987031810477, 3591845339032163846, 1757635360226482403, HIGH_PRIME);
    Certified(3591845339032163846, 5081264389107384698, 1398767464403732138, HIGH_PRIME);
    Certified(5081264389107384698, 920409107037553857, 2799328406573033827, HIGH_PRIME);
    Certified(920409107037553857, 5989206813005793993, 91848502514765496, HIGH_PRIME);
    Certified(5989206813005793993, 5009744011719179574, 3889097987980088475, HIGH_PRIME);
    Certified(5009744011719179574, 101295739236358398, 2721080157046058598, HIGH_PRIME);
    Certified(101295739236358398, 9048166886559738156, 1112481050276568, HIGH_PRIME);
    Certified(9048166886559738156, 9223372195768565760, 8876289741901078416, HIGH_PRIME);
  }

  lemma LargePrimesArePrime()
    ensures IsPrime(LOW_PRIME) && IsPrime(HIGH_PRIME)
  {
    hide IsPrime;
    LowSquares();
    PrimeByChain(LOW_CHAIN, LOW_PRIME);
    HighSquares();
    PrimeByChain(HIGH_CHAIN, HIGH_PRIME);
  }
}
