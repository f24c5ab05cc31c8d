/** The chained buckets of uthash, and the bit masks that select among them. */
module UtBuckets {
  import opened Arith

  // ----- masks

  /** Bitwise and. */
  function And(a: nat, b: nat): nat {
    if a == 0 || b == 0 then 0 else 2 * And(a / 2, b / 2) + (a % 2) * (b % 2)
  }

  /** Masking with a power of two less one is taking the remainder. */
  lemma {:induction false} MaskIsModulus(h: nat, k: nat)
    ensures And(h, Pow2(k) - 1) == h % Pow2(k)
    decreases k
  {
    hide And, Pow2;
    PowerStep(h, k);
    if k > 0 {
      var p := Pow2(k - 1);
      MaskIsModulus(h / 2, k - 1);
      HalfMask(h, p);
      HalfModulus(h, p);
    }
  }

  lemma PowerStep(h: nat, k: nat)
    ensures k == 0 ==> And(h, Pow2(k) - 1) == h % Pow2(k)
    ensures k > 0 ==> Pow2(k) == 2 * Pow2(k - 1)
  {}

  lemma HalfMask(h: nat, p: nat)
    requires p > 0
    ensures And(h, 2 * p - 1) == 2 * And(h / 2, p - 1) + h % 2
  {
    assert (2 * p - 1) / 2 == p - 1 && (2 * p - 1) % 2 == 1;
  }

  lemma HalfModulus(h: nat, p: nat)
    requires p > 0
    ensures h % (2 * p) == 2 * (h / 2 % p) + h % 2
  {
    var r := 2 * (h / 2 % p) + h % 2;
    var q := h / 2 / p;
    DivMod(h / 2, p);
    assert h == 2 * (q * p + h / 2 % p) + h % 2;
    assert h - r == q * (2 * p);
    MulMod(q, 2 * p);
    ModUnique(h, r, 2 * p);
  }

  // ----- elements and chains

  /** An item with its hash handle: the application order and the bucket order run through it. */
  class Elem<K> {
    const key: K
    var hashv: nat
    var prev: Elem?<K>
    var next: Elem?<K>
    var hhPrev: Elem?<K>
    var hhNext: Elem?<K>

    constructor (key: K)
      ensures this.key == key
    {
      this.key := key;
    }
  }

  datatype Bucket<K> = Bucket(head: Elem?<K>, count: nat, expandMult: nat)

  ghost predicate Distinct<K>(s: seq<Elem<K>>) {
    forall i, j :: 0 <= i < j < |s| ==> s[i] != s[j]
  }

  /** The chain `c` is doubly linked in bucket order. */
  ghost predicate Linked<K>(c: seq<Elem<K>>)
    reads c`hhNext, c`hhPrev
  {
    && (|c| > 0 ==> c[0].hhPrev == null && c[|c| - 1].hhNext == null)
    && (forall i :: 0 <= i < |c| - 1 ==> c[i].hhNext == c[i + 1])
    && (forall i :: 0 < i < |c| ==> c[i].hhPrev == c[i - 1])
  }

  /** HASH_FCN, before it is reduced to a bucket */
  function HashOf<K>(fcn: K -> nat, key: K): nat {
    fcn(key)
  }

  /** The bucket an element belongs in, among `n`. */
  function Home<K>(fcn: K -> nat, n: nat, key: K): nat
    requires n > 0
  {
    And(HashOf(fcn, key), n - 1)
  }

  ghost predicate BucketIs<K>(b: Bucket<K>, c: seq<Elem<K>>)
    reads c`hhNext, c`hhPrev
  {
    && b.head == (if |c| == 0 then null else c[0]) && b.count == |c|
    && Linked(c) && Distinct(c)
  }

  ghost function Members<K>(chains: seq<seq<Elem<K>>>): set<Elem<K>> {
    set b, i | 0 <= b < |chains| && 0 <= i < |chains[b]| :: chains[b][i]
  }

  /** The buckets hold the chains, and every element is in its own bucket. */
  ghost predicate Chained<K>(fcn: K -> nat, buckets: array<Bucket<K>>, chains: seq<seq<Elem<K>>>)
    reads buckets, Members(chains)`hhNext, Members(chains)`hhPrev
  {
    && |chains| == buckets.Length
    && (forall b :: 0 <= b < |chains| ==> BucketIs(buckets[b], chains[b]))
    && (forall b, i :: 0 <= b < |chains| && 0 <= i < |chains[b]| ==> Home(fcn, |chains|, chains[b][i].key) == b)
  }

  /** HASH_ADD_TO_BKT, up to the test for expansion: puts `e` at the head of its bucket. */
  method PushFront<K>(buckets: array<Bucket<K>>, b: nat, e: Elem<K>,
                      ghost fcn: K -> nat, ghost chains: seq<seq<Elem<K>>>)
    requires Chained(fcn, buckets, chains) && b < |chains| && e !in chains[b] && Home(fcn, |chains|, e.key) == b
    modifies buckets, e`hhNext, e`hhPrev, chains[b]`hhPrev
    ensures Chained(fcn, buckets, chains[b := [e] + chains[b]])
    ensures buckets[b].count == old(buckets[b].count) + 1 && buckets[b].expandMult == old(buckets[b].expandMult)
    ensures forall i :: 0 <= i < buckets.Length && i != b ==> buckets[i] == old(buckets[i])
  {
    hide Home;
    var head := buckets[b].head;
    assert BucketIs(buckets[b], chains[b]);
    e.hhNext := head;
    e.hhPrev := null;
    if head != null {
      head.hhPrev := e;
    }
    buckets[b] := Bucket(e, buckets[b].count + 1, buckets[b].expandMult);
    ghost var c := [e] + chains[b];
    ghost var chains' := chains[b := c];
    assert BucketIs(buckets[b], c);
    forall i | 0 <= i < |chains| && i != b
      ensures BucketIs(buckets[i], chains'[i])
    {
      assert old(BucketIs(buckets[i], chains[i]));
      OtherChain(fcn, chains, b, i, e);
    }
  }

  lemma OtherChain<K>(fcn: K -> nat, chains: seq<seq<Elem<K>>>, b: nat, i: nat, e: Elem<K>)
    requires b < |chains| && i < |chains| && i != b && Home(fcn, |chains|, e.key) == b
    requires forall b, i :: 0 <= b < |chains| && 0 <= i < |chains[b]| ==> Home(fcn, |chains|, chains[b][i].key) == b
    ensures e !in chains[i]
    ensures forall x :: x in chains[b] ==> x !in chains[i]
  {}

  function Without<X>(s: seq<X>, at: nat): (r: seq<X>)
    requires at < |s|
    ensures |r| == |s| - 1 && forall i :: 0 <= i < |r| ==> r[i] == if i < at then s[i] else s[i + 1]
  {
    s[..at] + s[at + 1..]
  }

  /** Takes an element out of a doubly linked chain. */
  method UnlinkChain<K>(e: Elem<K>, ghost c: seq<Elem<K>>, ghost at: nat)
    requires Linked(c) && Distinct(c) && at < |c| && c[at] == e
    modifies c`hhNext, c`hhPrev
    ensures Linked(Without(c, at)) && Distinct(Without(c, at)) && e.hhNext == old(e.hhNext)
  {
    assert at > 0 ==> e.hhPrev == c[at - 1];
    assert at < |c| - 1 ==> e.hhNext == c[at + 1];
    assert at == 0 ==> e.hhPrev == null;
    assert at == |c| - 1 ==> e.hhNext == null;
    if e.hhPrev != null {
      e.hhPrev.hhNext := e.hhNext;
    }
    if e.hhNext != null {
      e.hhNext.hhPrev := e.hhPrev;
    }
    ghost var w := Without(c, at);
    WithoutDistinct(c, at);
    hide Distinct, Without;
    forall i | 0 <= i < |w| - 1
      ensures w[i].hhNext == w[i + 1] && w[i + 1].hhPrev == w[i]
    {
      if i < at {
        assert old(c[i].hhNext) == c[i + 1];
      } else {
        assert old(c[i + 1].hhNext) == c[i + 2];
      }
    }
  }

  lemma WithoutDistinct<K>(s: seq<Elem<K>>, at: nat)
    requires Distinct(s) && at < |s|
    ensures Distinct(Without(s, at))
    ensures |Without(s, at)| == |s| - 1
    ensures forall i :: 0 <= i < |s| - 1 ==> Without(s, at)[i] == if i < at then s[i] else s[i + 1]
    ensures forall i, j :: 0 <= i < j < |s| ==> s[i] != s[j]
  {}

  /** HASH_DEL_IN_BKT: takes the element at position `at` out of its bucket. */
  method Unlink<K>(buckets: array<Bucket<K>>, b: nat, e: Elem<K>,
                   ghost fcn: K -> nat, ghost chains: seq<seq<Elem<K>>>, ghost at: nat)
    requires Chained(fcn, buckets, chains) && b < |chains| && at < |chains[b]| && chains[b][at] == e
    modifies buckets, chains[b]`hhNext, chains[b]`hhPrev
    ensures Chained(fcn, buckets, chains[b := Without(chains[b], at)])
    ensures buckets[b].expandMult == old(buckets[b].expandMult)
    ensures forall i :: 0 <= i < buckets.Length && i != b ==> buckets[i] == old(buckets[i])
  {
    hide Home, Without;
    ghost var c := chains[b];
    assert BucketIs(buckets[b], c);
    var bucket := buckets[b];
    var head := if bucket.head == e then e.hhNext else bucket.head;
    NewHead(c, at);
    buckets[b] := Bucket(head, bucket.count - 1, bucket.expandMult);
    UnlinkChain(e, c, at);
    ghost var chains' := chains[b := Without(c, at)];
    forall i | 0 <= i < |chains| && i != b
      ensures BucketIs(buckets[i], chains'[i])
    {
      assert old(BucketIs(buckets[i], chains[i]));
      OtherChain(fcn, chains, b, i, e);
    }
    MembersLeft(fcn, chains, b, at);
  }

  lemma NewHead<K>(c: seq<Elem<K>>, at: nat)
    requires Linked(c) && Distinct(c) && at < |c|
    ensures var rest := Without(c, at);
      (if c[0] == c[at] then c[at].hhNext else c[0]) == if |rest| == 0 then null else rest[0]
  {}

  lemma MembersLeft<K>(fcn: K -> nat, chains: seq<seq<Elem<K>>>, b: nat, at: nat)
    requires b < |chains| && at < |chains[b]|
    requires forall b, i :: 0 <= b < |chains| && 0 <= i < |chains[b]| ==> Home(fcn, |chains|, chains[b][i].key) == b
    ensures var chains' := chains[b := Without(chains[b], at)];
      forall b, i :: 0 <= b < |chains'| && 0 <= i < |chains'[b]| ==> Home(fcn, |chains'|, chains'[b][i].key) == b
  {}

  // ----- counting

  /** The elements in the first `n` chains. */
  function Total<K>(chains: seq<seq<Elem<K>>>, n: nat): nat
    requires n <= |chains|
  {
    if n == 0 then 0 else Total(chains, n - 1) + |chains[n - 1]|
  }

  /** The elements of the first `n` chains that lie beyond the ideal chain length. */
  function Excess<K>(chains: seq<seq<Elem<K>>>, ideal: nat, n: nat): nat
    requires n <= |chains|
  {
    if n == 0 then 0
    else Excess(chains, ideal, n - 1) + (if |chains[n - 1]| > ideal then |chains[n - 1]| - ideal else 0)
  }

  lemma {:induction false} CountChanged<K>(chains: seq<seq<Elem<K>>>, b: nat, c: seq<Elem<K>>, ideal: nat, n: nat)
    requires b < |chains| && n <= |chains|
    ensures Total(chains[b := c], n) == Total(chains, n) + (if b < n then |c| - |chains[b]| else 0)
    ensures Excess(chains[b := c], ideal, n) == Excess(chains, ideal, n) +
      (if b < n then (if |c| > ideal then |c| - ideal else 0) - (if |chains[b]| > ideal then |chains[b]| - ideal else 0)
       else 0)
  {
    if n > 0 {
      CountChanged(chains, b, c, ideal, n - 1);
    }
  }

  /** Bucket counts as an expansion leaves them. */
  predicate Multiplied<K>(b: Bucket<K>, ideal: nat)
    requires ideal > 0
  {
    b.expandMult == if b.count > ideal then b.count / ideal else 0
  }

  lemma InMembers<K>(chains: seq<seq<Elem<K>>>, b: nat, e: Elem<K>)
    requires b < |chains| && e in chains[b]
    ensures e in Members(chains)
  {
    var i :| 0 <= i < |chains[b]| && chains[b][i] == e;
  }

  lemma InMembersAll<K>(chains: seq<seq<Elem<K>>>, b: nat)
    requires b < |chains|
    ensures forall e :: e in chains[b] ==> e in Members(chains)
  {
    forall e | e in chains[b]
      ensures e in Members(chains)
    {
      InMembers(chains, b, e);
    }
  }

  /** Puts one element in its new bucket. */
  method MoveOne<K>(buckets: array<Bucket<K>>, e: Elem<K>, ideal: nat, nonideal: nat,
                    ghost fcn: K -> nat, ghost chains: seq<seq<Elem<K>>>)
    returns (nonideal': nat, ghost b: nat)
    requires Chained(fcn, buckets, chains) && |chains| > 0 && ideal > 0
    requires e.hashv == HashOf(fcn, e.key) && Home(fcn, |chains|, e.key) < |chains|
    requires e !in Members(chains)
    requires forall i :: 0 <= i < |chains| ==> Multiplied(buckets[i], ideal)
    modifies buckets, e`hhNext, e`hhPrev, Members(chains)`hhPrev
    ensures b == Home(fcn, |chains|, e.key)
    ensures Chained(fcn, buckets, chains[b := [e] + chains[b]])
    ensures forall i :: 0 <= i < |chains| ==> Multiplied(buckets[i], ideal)
    ensures nonideal' == nonideal + if |chains[b]| + 1 > ideal then 1 else 0
  {
    var bkt := And(e.hashv, buckets.Length - 1);
    b := bkt;
    assert BucketIs(buckets[b], chains[b]);
    InMembersAll(chains, b);
    PushFront(buckets, bkt, e, fcn, chains);
    nonideal' := nonideal;
    if buckets[bkt].count > ideal {
      nonideal' := nonideal + 1;
      buckets[bkt] := buckets[bkt].(expandMult := buckets[bkt].count / ideal);
    }
  }

  ghost function Elems<K>(c: seq<Elem<K>>): set<Elem<K>> {
    set i | 0 <= i < |c| :: c[i]
  }

  lemma MembersGrow<K>(chains: seq<seq<Elem<K>>>, b: nat, e: Elem<K>)
    requires b < |chains|
    ensures Members(chains[b := [e] + chains[b]]) == Members(chains) + {e}
  {
    var chains' := chains[b := [e] + chains[b]];
    forall x | x in Members(chains) + {e}
      ensures x in Members(chains')
    {
      if x in Members(chains) {
        var i, j :| 0 <= i < |chains| && 0 <= j < |chains[i]| && chains[i][j] == x;
        assert chains'[i][if i == b then j + 1 else j] == x;
      } else {
        assert chains'[b][0] == e;
      }
    }
    forall x | x in Members(chains')
      ensures x in Members(chains) + {e}
    {
      var i, j :| 0 <= i < |chains'| && 0 <= j < |chains'[i]| && chains'[i][j] == x;
      if i == b && j > 0 {
        assert chains[b][j - 1] == x;
      }
    }
  }

  /** Moves the chain `c` of an old bucket, which starts at `first`, to the new buckets. */
  method MoveChain<K>(buckets: array<Bucket<K>>, first: Elem?<K>, ideal: nat, nonideal: nat,
                      ghost fcn: K -> nat, ghost chains: seq<seq<Elem<K>>>, ghost c: seq<Elem<K>>)
    returns (nonideal': nat, ghost chains': seq<seq<Elem<K>>>)
    requires Chained(fcn, buckets, chains) && |chains| > 0 && ideal > 0
    requires Linked(c) && Distinct(c) && first == if |c| == 0 then null else c[0]
    requires forall e :: e in c ==>
      e.hashv == HashOf(fcn, e.key) && Home(fcn, |chains|, e.key) < |chains| && e !in Members(chains)
    requires forall i :: 0 <= i < |chains| ==> Multiplied(buckets[i], ideal)
    modifies buckets, c`hhNext, c`hhPrev, Members(chains)`hhPrev
    ensures Chained(fcn, buckets, chains') && |chains'| == |chains|
    ensures Members(chains') == Members(chains) + Elems(c)
    ensures Total(chains', |chains|) == Total(chains, |chains|) + |c|
    ensures nonideal' - nonideal == Excess(chains', ideal, |chains|) - Excess(chains, ideal, |chains|)
    ensures forall i :: 0 <= i < |chains| ==> Multiplied(buckets[i], ideal)
  {
    hide Chained, Multiplied, Total, Excess, Home, Members, HashOf;
    assert |chains| == buckets.Length by { SameLength(fcn, buckets, chains); }
    chains', nonideal' := chains, nonideal;
    var thh := first;
    ghost var k := 0;
    assert Elems(c[..0]) == {};
    while thh != null
      invariant k <= |c| && thh == if k < |c| then c[k] else null
      invariant forall i :: k <= i < |c| ==> c[i].hhNext == old(c[i].hhNext)
      invariant Chained(fcn, buckets, chains') && |chains'| == |chains|
      invariant Members(chains') == Members(chains) + Elems(c[..k])
      invariant Total(chains', |chains|) == Total(chains, |chains|) + k
      invariant nonideal' - nonideal == Excess(chains', ideal, |chains|) - Excess(chains, ideal, |chains|)
      invariant forall i :: 0 <= i < |chains| ==> Multiplied(buckets[i], ideal)
      decreases |c| - k
    {
      var nxt := thh.hhNext;
      assert nxt == if k + 1 < |c| then c[k + 1] else null;
      assert thh in c && thh !in Elems(c[..k]);
      ghost var b;
      ghost var before := chains';
      nonideal', b := MoveOne(buckets, thh, ideal, nonideal', fcn, chains');
      CountChanged(before, b, [thh] + before[b], ideal, |chains|);
      MembersGrow(before, b, thh);
      chains' := before[b := [thh] + before[b]];
      assert Elems(c[..k + 1]) == Elems(c[..k]) + {thh};
      thh := nxt;
      k := k + 1;
    }
    assert c[..k] == c;
  }

  lemma SameLength<K>(fcn: K -> nat, buckets: array<Bucket<K>>, chains: seq<seq<Elem<K>>>)
    requires Chained(fcn, buckets, chains)
    ensures |chains| == buckets.Length
  {}

  /** Every element hashes to a bucket, also when there are twice as many. */
  ghost predicate Hashed<K>(fcn: K -> nat, chains: seq<seq<Elem<K>>>)
    reads Members(chains)`hashv
  {
    forall b, i :: 0 <= b < |chains| && 0 <= i < |chains[b]| ==> chains[b][i].hashv == HashOf(fcn, chains[b][i].key)
  }

  lemma AllMask(h: nat, k: nat)
    ensures And(h, Pow2(k) - 1) < Pow2(k)
  {
    MaskIsModulus(h, k);
  }

  /** How many elements there are, and how many have at least `ideal` elements in front of them in their chain. */
  lemma {:induction false} CountsAre<K>(chains: seq<seq<Elem<K>>>, ideal: nat, n: nat)
    requires n <= |chains|
    ensures Total(chains, n) == |Places(chains, 0, n)| && Excess(chains, ideal, n) == |Places(chains, ideal, n)|
  {
    if n > 0 {
      CountsAre(chains, ideal, n - 1);
      PlacesOfOne(0, n - 1, |chains[n - 1]|);
      PlacesOfOne(ideal, n - 1, |chains[n - 1]|);
      PlacesMore(chains, 0, n - 1);
      PlacesMore(chains, ideal, n - 1);
    }
  }

  ghost function Places<K>(chains: seq<seq<Elem<K>>>, low: nat, n: nat): set<(nat, nat)>
    requires n <= |chains|
  {
    set b: nat, i: nat | b < n && low <= i < |chains[b]| :: (b, i)
  }

  ghost function InOne(b: nat, low: nat, high: nat): set<(nat, nat)> {
    set i: nat | low <= i < high :: (b, i)
  }

  lemma {:induction false} PlacesOfOne(low: nat, b: nat, high: nat)
    ensures |InOne(b, low, high)| == if high <= low then 0 else high - low
    decreases high
  {
    if high > low {
      PlacesOfOne(low, b, high - 1);
      assert InOne(b, low, high) == InOne(b, low, high - 1) + {(b, high - 1)};
    } else {
      assert InOne(b, low, high) == {};
    }
  }

  lemma PlacesMore<K>(chains: seq<seq<Elem<K>>>, low: nat, n: nat)
    requires n < |chains|
    ensures |Places(chains, low, n + 1)| == |Places(chains, low, n)| + |InOne(n, low, |chains[n]|)|
  {
    assert Places(chains, low, n + 1) == Places(chains, low, n) + InOne(n, low, |chains[n]|);
  }

  lemma {:induction false} NoElements<K>(chains: seq<seq<Elem<K>>>, ideal: nat, n: nat)
    requires n <= |chains| && forall b :: 0 <= b < |chains| ==> chains[b] == []
    ensures Total(chains, n) == 0 && Excess(chains, ideal, n) == 0 && Members(chains) == {}
  {
    if n > 0 {
      NoElements(chains, ideal, n - 1);
    }
  }

  /** The elements of one chain of many: none is in an earlier chain. */
  lemma NextChain<K>(fcn: K -> nat, chains: seq<seq<Elem<K>>>, b: nat)
    requires b < |chains|
    requires forall b, i :: 0 <= b < |chains| && 0 <= i < |chains[b]| ==> Home(fcn, |chains|, chains[b][i].key) == b
    ensures forall e :: e in chains[b] ==> e !in Members(chains[..b])
    ensures Members(chains[..b + 1]) == Members(chains[..b]) + Elems(chains[b])
    ensures Total(chains[..b + 1], b + 1) == Total(chains[..b], b) + |chains[b]|
  {
    var low, high := chains[..b], chains[..b + 1];
    forall x | x in Members(low) + Elems(chains[b])
      ensures x in Members(high)
    {
      if x in Members(low) {
        var i, j :| 0 <= i < |low| && 0 <= j < |low[i]| && low[i][j] == x;
        assert high[i][j] == x;
      } else {
        var j :| 0 <= j < |chains[b]| && chains[b][j] == x;
        assert high[b][j] == x;
      }
    }
    TotalPrefix(low, high, b);
  }

  lemma {:induction false} TotalPrefix<K>(chains: seq<seq<Elem<K>>>, more: seq<seq<Elem<K>>>, n: nat)
    requires n <= |chains| && chains <= more
    ensures Total(chains, n) == Total(more, n)
  {
    if n > 0 {
      TotalPrefix(chains, more, n - 1);
    }
  }

  ghost predicate AtHome<K>(fcn: K -> nat, chains: seq<seq<Elem<K>>>) {
    forall b, i :: 0 <= b < |chains| && 0 <= i < |chains[b]| ==> Home(fcn, |chains|, chains[b][i].key) == b
  }

  /** Elements of the chains that come later are in no chain before. */
  lemma LaterChain<K>(fcn: K -> nat, chains: seq<seq<Elem<K>>>, i: nat, b: nat)
    requires i < b < |chains| && AtHome(fcn, chains)
    ensures forall e :: e in chains[b] ==> e !in chains[i] && e !in Members(chains[..i])
  {}

  /** The old buckets from the `i`-th on are as they were. */
  ghost predicate Rest<K>(buckets: array<Bucket<K>>, chains: seq<seq<Elem<K>>>, i: nat)
    requires |chains| == buckets.Length
    reads buckets, Members(chains)`hhNext, Members(chains)`hhPrev
  {
    forall b :: i <= b < |chains| ==> BucketIs(buckets[b], chains[b])
  }

  /** What has been moved when the first `i` old buckets are done. */
  ghost predicate Moved<K>(fcn: K -> nat, buckets: array<Bucket<K>>, chains: seq<seq<Elem<K>>>, i: nat, ideal: nat,
                           nonideal: nat, chains': seq<seq<Elem<K>>>)
    requires i <= |chains| && ideal > 0
    reads buckets, Members(chains')`hhNext, Members(chains')`hhPrev
  {
    && |chains'| == 2 * |chains| && Chained(fcn, buckets, chains')
    && Members(chains') == Members(chains[..i]) && Total(chains', |chains'|) == Total(chains[..i], i)
    && nonideal == Excess(chains', ideal, |chains'|)
    && (forall b :: 0 <= b < |chains'| ==> Multiplied(buckets[b], ideal))
  }

  lemma MembersIn<K>(chains: seq<seq<Elem<K>>>, i: nat)
    requires i <= |chains|
    ensures Members(chains[..i]) <= Members(chains)
    ensures i < |chains| ==> forall e :: e in chains[i] ==> e in Members(chains)
  {
    if i < |chains| {
      forall e | e in chains[i]
        ensures e in Members(chains)
      {
        var j :| 0 <= j < |chains[i]| && chains[i][j] == e;
      }
    }
  }

  /** Moves the `i`-th old bucket. */
  method MoveBucket<K>(buckets: array<Bucket<K>>, i: nat, buckets': array<Bucket<K>>, ideal: nat, nonideal: nat,
                       ghost fcn: K -> nat, ghost chains: seq<seq<Elem<K>>>, ghost moved: seq<seq<Elem<K>>>,
                       ghost log2: nat)
    returns (nonideal': nat, ghost chains': seq<seq<Elem<K>>>)
    requires |chains| == buckets.Length == Pow2(log2) && i < |chains| && ideal > 0 && buckets != buckets'
    requires AtHome(fcn, chains) && Hashed(fcn, chains) && Rest(buckets, chains, i)
    requires Moved(fcn, buckets', chains, i, ideal, nonideal, moved)
    modifies buckets', Members(chains)`hhNext, Members(chains)`hhPrev
    ensures Rest(buckets, chains, i + 1)
    ensures Moved(fcn, buckets', chains, i + 1, ideal, nonideal', chains')
  {
    hide Chained, Multiplied, Total, Excess, Members, AtHome;
    ghost var c := chains[i];
    MembersIn(chains, i);
    assert BucketIs(buckets[i], c);
    NextChain(fcn, chains, i) by { AtHomeIs(fcn, chains); }
    ChainCanMove(fcn, chains, i, log2);
    forall b | i < b < |chains|
      ensures forall e :: e in chains[b] ==> e !in c && e !in Members(moved)
    {
      LaterChain(fcn, chains, i, b);
    }
    nonideal', chains' := MoveChain(buckets', buckets[i].head, ideal, nonideal, fcn, moved, c);
    forall b | i < b < |chains|
      ensures BucketIs(buckets[b], chains[b])
    {
      assert old(BucketIs(buckets[b], chains[b]));
    }
  }

  lemma AtHomeIs<K>(fcn: K -> nat, chains: seq<seq<Elem<K>>>)
    requires AtHome(fcn, chains)
    ensures forall b, i :: 0 <= b < |chains| && 0 <= i < |chains[b]| ==> Home(fcn, |chains|, chains[b][i].key) == b
  {}

  lemma ChainCanMove<K>(fcn: K -> nat, chains: seq<seq<Elem<K>>>, i: nat, log2: nat)
    requires i < |chains| == Pow2(log2) && Hashed(fcn, chains)
    ensures forall e :: e in chains[i] ==>
      e.hashv == HashOf(fcn, e.key) && Home(fcn, 2 * |chains|, e.key) < 2 * |chains|
  {
    forall e | e in chains[i]
      ensures e.hashv == HashOf(fcn, e.key) && Home(fcn, 2 * |chains|, e.key) < 2 * |chains|
    {
      var j :| 0 <= j < |chains[i]| && chains[i][j] == e;
      AllMask(HashOf(fcn, e.key), log2 + 1);
    }
  }

  lemma StartMoving<K>(fcn: K -> nat, buckets: array<Bucket<K>>, chains: seq<seq<Elem<K>>>, ideal: nat,
                       buckets': array<Bucket<K>>, chains': seq<seq<Elem<K>>>)
    requires Chained(fcn, buckets, chains) && ideal > 0
    requires |chains'| == buckets'.Length == 2 * |chains|
    requires forall b :: 0 <= b < |chains'| ==> chains'[b] == [] && buckets'[b] == Bucket(null, 0, 0)
    ensures Rest(buckets, chains, 0) && AtHome(fcn, chains)
    ensures Moved(fcn, buckets', chains, 0, ideal, 0, chains')
  {
    NoElements(chains', ideal, |chains'|);
    NoElements(chains[..0], ideal, 0);
  }

  lemma EndMoving<K>(fcn: K -> nat, chains: seq<seq<Elem<K>>>, ideal: nat,
                     buckets': array<Bucket<K>>, nonideal: nat, chains': seq<seq<Elem<K>>>)
    requires ideal > 0 && Moved(fcn, buckets', chains, |chains|, ideal, nonideal, chains')
    ensures |chains'| == 2 * |chains| && Chained(fcn, buckets', chains')
    ensures Members(chains') == Members(chains) && Total(chains', |chains'|) == Total(chains, |chains|)
    ensures nonideal == Excess(chains', ideal, |chains'|)
    ensures forall i :: 0 <= i < |chains'| ==> Multiplied(buckets'[i], ideal)
  {
    assert chains[..|chains|] == chains;
  }

  /** The loops of HASH_EXPAND_BUCKETS: moves all elements to twice as many new buckets. */
  method Redistribute<K>(buckets: array<Bucket<K>>, ideal: nat, ghost log2: nat,
                         ghost fcn: K -> nat, ghost chains: seq<seq<Elem<K>>>)
    returns (buckets': array<Bucket<K>>, nonideal: nat, ghost chains': seq<seq<Elem<K>>>)
    requires Chained(fcn, buckets, chains) && Hashed(fcn, chains) && |chains| == buckets.Length == Pow2(log2)
    requires ideal > 0
    modifies Members(chains)`hhNext, Members(chains)`hhPrev
    ensures fresh(buckets') && buckets'.Length == |chains'| == Pow2(log2 + 1) && Chained(fcn, buckets', chains')
    ensures Members(chains') == Members(chains) && Total(chains', |chains'|) == Total(chains, |chains|)
    ensures nonideal == Excess(chains', ideal, |chains'|)
    ensures forall i :: 0 <= i < |chains'| ==> Multiplied(buckets'[i], ideal)
  {
    hide Rest, Moved, Chained, AtHome, Total, Excess, Members, Multiplied;
    var n := 2 * buckets.Length;
    buckets' := new Bucket<K>[n](_ => Bucket(null, 0, 0));
    chains' := seq(n, _ => []);
    StartMoving(fcn, buckets, chains, ideal, buckets', chains');
    nonideal := 0;
    var i := 0;
    while i < buckets.Length
      invariant i <= |chains| && fresh(buckets')
      invariant AtHome(fcn, chains) && Hashed(fcn, chains)
      invariant Rest(buckets, chains, i) && Moved(fcn, buckets', chains, i, ideal, nonideal, chains')
    {
      nonideal, chains' := MoveBucket(buckets, i, buckets', ideal, nonideal, fcn, chains, chains', log2);
      i := i + 1;
    }
    EndMoving(fcn, chains, ideal, buckets', nonideal, chains');
    SameLength(fcn, buckets', chains');
  }
}
