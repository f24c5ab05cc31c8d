/** The hash tables of uthash: bucket chains and application order over the same elements. */
module UtHash {
  import opened Arith
  import opened Options
  import opened UtBuckets
  import MergeSpec
  import UtBloom
  import UtOrder

  const INITIAL_LOG2 := 5
  const CAPACITY_THRESHOLD := 10

  /** Shifting to the right */
  function Shr(n: nat, k: nat): nat {
    if k == 0 then n else Shr(n / 2, k - 1)
  }

  lemma {:induction false} ShiftIsDivision(n: nat, k: nat)
    ensures Shr(n, k) == n / Pow2(k)
    decreases k
  {
    if k > 0 {
      var p := Pow2(k - 1);
      ShiftIsDivision(n / 2, k - 1);
      HalfQuotient(n, p);
    }
  }

  lemma HalfQuotient(n: nat, p: nat)
    requires p > 0
    ensures n / 2 / p == n / (2 * p)
  {
    var d, q, r := 2 * p, n / 2 / p, 2 * (n / 2 % p) + n % 2;
    DivMod(n / 2, p);
    assert n == q * d + r && r < d;
    MulMod(q, d);
    ModUnique(n, r, d);
    DivMod(n, d);
    Cancel(q, n / d, d);
  }

  lemma Cancel(q: nat, r: nat, d: nat)
    requires d > 0 && q * d == r * d
    ensures q == r
  {
    if q < r {
      LessProduct(q, r, d);
    } else if r < q {
      LessProduct(r, q, d);
    }
  }

  /** The chain length that HASH_EXPAND_BUCKETS aims at, with a shift and a mask instead of a division. */
  function IdealLength(items: nat, log2: nat): nat {
    Shr(items, log2 + 1) + if And(items, Pow2(log2 + 1) - 1) != 0 then 1 else 0
  }

  /** It is the quotient of items and new buckets, rounded up; so it is zero only for no items. */
  lemma IdealIsCeiling(items: nat, log2: nat)
    ensures var n, ideal := Pow2(log2 + 1), IdealLength(items, log2);
      items <= ideal * n < items + n && (items > 0 ==> ideal > 0)
  {
    hide And, Shr, Pow2;
    var n := Pow2(log2 + 1);
    MaskIsModulus(items, log2 + 1);
    ShiftIsDivision(items, log2 + 1);
    DivMod(items, n);
    assert IdealLength(items, log2) == items / n + if items % n != 0 then 1 else 0;
    assert (items / n + 1) * n == items / n * n + n;
  }

  predicate DistinctKeys<K(==)>(s: seq<Elem<K>>) {
    forall i, j :: 0 <= i < j < |s| ==> s[i].key != s[j].key
  }

  /** The first element of a chain with the key. */
  function Lookup<K(==)>(chain: seq<Elem<K>>, key: K): (r: Elem?<K>)
    ensures r == null ==> forall e :: e in chain ==> e.key != key
    ensures r != null ==> r in chain && r.key == key
  {
    if |chain| == 0 then null else if chain[0].key == key then chain[0] else Lookup(chain[1..], key)
  }

  lemma InChain<K>(fcn: K -> nat, chains: seq<seq<Elem<K>>>, e: Elem<K>)
    requires e in Members(chains) && AtHome(fcn, chains) && |chains| > 0
    ensures var b := Home(fcn, |chains|, e.key); b < |chains| && e in chains[b]
  {
    var b, i :| 0 <= b < |chains| && 0 <= i < |chains[b]| && chains[b][i] == e;
  }

  lemma ShrOne(n: nat)
    ensures Shr(n, 1) == n / 2
  {
    assert Shr(n / 2, 0) == n / 2;
  }

  lemma DoublePow2(k: nat)
    ensures Pow2(k + 1) == 2 * Pow2(k)
  {}

  lemma InitialBuckets()
    ensures Pow2(INITIAL_LOG2) == 32
  {
    assert Pow2(1) == 2 && Pow2(2) == 4 && Pow2(3) == 8 && Pow2(4) == 16;
  }

  class Hash<K(==)> {
    /** HASH_FCN */
    const fcn: K -> nat
    /** HASH_BLOOM, when it is defined */
    const bloom: Option<nat>

    var head: Elem?<K>
    var tail: Elem?<K>
    var buckets: array<Bucket<K>>
    var log2: nat
    var numItems: nat
    var ideal: nat
    var nonideal: nat
    var ineffExpands: nat
    var noexpand: bool
    var bits: array<bv8>

    ghost var order: seq<Elem<K>>
    ghost var chains: seq<seq<Elem<K>>>

    constructor (fcn: K -> nat, bloom: Option<nat>)
      ensures this.fcn == fcn && this.bloom == bloom && Valid() && order == []
    {
      this.fcn, this.bloom := fcn, bloom;
      head, tail, order, chains := null, null, [], [];
    }

    /** The buckets hold exactly `items`. */
    ghost predicate Stored(items: set<Elem<K>>)
      reads `buckets, `chains, `log2, buckets, Members(chains)`hhNext, Members(chains)`hhPrev, Members(chains)`hashv
    {
      && Chained(fcn, buckets, chains) && Hashed(fcn, chains) && Members(chains) == items
      && buckets.Length == |chains| == Pow2(log2)
    }

    /** The filter lets all of `items` pass. */
    ghost predicate Filtered(items: set<Elem<K>>)
      reads `bits, bits, items`hashv
    {
      bloom.Some? ==>
        && bits.Length == UtBloom.ByteLength(bloom.value)
        && forall e :: e in items ==> Passes(e.hashv)
    }

    /** HASH_BLOOM_TEST */
    predicate Passes(hashv: nat)
      reads `bits, bits
    {
      bloom.Some? ==>
        && UtBloom.Index(hashv, bloom.value) / 8 < bits.Length
        && UtBloom.Bit(bits[..], UtBloom.Index(hashv, bloom.value))
    }

    /** Both views of the table: a table exists exactly while there are elements. */
    ghost predicate Valid()
      reads this, buckets, bits, Elems(order), Members(chains)
    {
      && (head == null <==> order == [])
      && (head != null ==>
            && UtOrder.InOrder(order, head, tail) && numItems == |order| == Total(chains, |chains|)
            && Stored(Elems(order)) && Filtered(Elems(order)) && bits as object != buckets as object)
    }

    /** HASH_MAKE_TABLE */
    method MakeTable()
      requires head == null
      modifies this
      ensures head == null && tail == null && order == old(order) && fresh(buckets) && fresh(bits)
      ensures Stored({}) && Filtered({}) && numItems == 0 == Total(chains, |chains|)
      ensures log2 == INITIAL_LOG2 && ineffExpands == 0 && !noexpand && bits as object != buckets as object
      ensures forall b :: 0 <= b < buckets.Length ==> buckets[b] == Bucket(null, 0, 0)
    {
      hide And, Home, Excess, HashOf, Total, Pow2, Chained, Hashed, Filtered, BucketIs;
      tail, log2, numItems := null, INITIAL_LOG2, 0;
      ideal, nonideal, ineffExpands, noexpand := 0, 0, 0, false;
      buckets := new Bucket<K>[32](_ => Bucket(null, 0, 0));
      MakeFilter();
      chains := seq(32, _ => []);
      NoElements(chains, 0, 32);
      EmptyChained(fcn, buckets, chains);
      InitialBuckets();
    }

    /** HASH_BLOOM_MAKE */
    method MakeFilter()
      modifies `bits
      ensures fresh(bits) && Filtered({}) && forall i :: 0 <= i < bits.Length ==> bits[i] == 0
    {
      hide UtBloom.ByteLength;
      bits := new bv8[if bloom.Some? then UtBloom.ByteLength(bloom.value) else 0](_ => 0);
    }

    /** The first part of HASH_EXPAND_BUCKETS: twice as many buckets. */
    method Rehash(ghost items: set<Elem<K>>)
      requires Stored(items) && numItems > 0
      modifies `buckets, `chains, `log2, `ideal, `nonideal, items`hhNext, items`hhPrev
      ensures Stored(items) && fresh(buckets) && log2 == old(log2) + 1
      ensures Total(chains, |chains|) == old(Total(chains, |chains|))
      ensures numItems <= ideal * buckets.Length < numItems + buckets.Length && ideal > 0
      ensures nonideal == Excess(chains, ideal, |chains|)
      ensures forall b :: 0 <= b < buckets.Length ==> Multiplied(buckets[b], ideal)
    {
      hide And, Shr, IdealLength, Pow2, Chained, Excess, Total, Multiplied, Hashed, Home, HashOf;
      HashedItems(fcn, chains, items);
      DoublePow2(log2);
      ideal := IdealLength(numItems, log2);
      IdealIsCeiling(numItems, log2);
      buckets, nonideal, chains := Redistribute(buckets, ideal, log2, fcn, chains);
      HashedMoved(fcn, chains, items);
      log2 := log2 + 1;
    }

    /** HASH_EXPAND_BUCKETS */
    method Expand(ghost items: set<Elem<K>>)
      requires Stored(items) && numItems > 0
      modifies this, items`hhNext, items`hhPrev
      ensures Stored(items) && fresh(buckets) && log2 == old(log2) + 1 && numItems == old(numItems)
      ensures Total(chains, |chains|) == old(Total(chains, |chains|))
      ensures unchanged(`head, `tail, `order, `bits)
      ensures numItems <= ideal * buckets.Length < numItems + buckets.Length && ideal > 0
      ensures nonideal == Excess(chains, ideal, |chains|)
      ensures forall b :: 0 <= b < buckets.Length ==>
        buckets[b].expandMult == if buckets[b].count > ideal then buckets[b].count / ideal else 0
      ensures ineffExpands == if nonideal > numItems / 2 then old(ineffExpands) + 1 else 0
      ensures noexpand == (old(noexpand) || ineffExpands > 1)
    {
      hide Stored, Shr, Excess, Total;
      Rehash(items);
      ShrOne(numItems);
      ineffExpands := if nonideal > Shr(numItems, 1) then ineffExpands + 1 else 0;
      if ineffExpands > 1 {
        noexpand := true;
      }
    }

    /** The test in HASH_ADD_TO_BKT, before an element with this key is put in its bucket */
    predicate MustExpand(key: K)
      reads `buckets, `noexpand, buckets
    {
      && 0 < buckets.Length && Home(fcn, buckets.Length, key) < buckets.Length
      && var b := buckets[Home(fcn, buckets.Length, key)];
        b.count + 1 >= (b.expandMult + 1) * CAPACITY_THRESHOLD && !noexpand
    }

    /** The bucket becomes ten times as long as it may be, and expanding has not been given up. */
    lemma ExpandIff(key: K)
      requires Valid() && head != null
      ensures buckets.Length == Pow2(log2)
      ensures MustExpand(key) <==>
        var b := buckets[fcn(key) % buckets.Length];
        b.count + 1 >= 10 * (b.expandMult + 1) && !noexpand
    {
      hide UtOrder.InOrder, Chained, Total, Filtered;
      MaskIsModulus(fcn(key), log2);
    }

    /** Every element is in the bucket that its hash modulo their number selects, and is let pass by the filter. */
    lemma BucketsHold(e: Elem<K>)
      requires Valid() && head != null && e in order
      ensures |chains| == buckets.Length == Pow2(log2) && e.hashv == fcn(e.key)
      ensures e in chains[fcn(e.key) % buckets.Length]
      ensures bloom.Some? ==>
        var bit := fcn(e.key) % Pow2(bloom.value);
        bit / 8 < bits.Length && bits[bit / 8] & ((1 as bv8) << (bit % 8)) != 0
    {
      hide UtOrder.InOrder, Total, And, UtBloom.ByteLength, Pow2;
      ElemsGrow(order, e);
      HashedItems(fcn, chains, Elems(order));
      AtHomeOf(fcn, buckets, chains);
      InChain(fcn, chains, e);
      MaskIsModulus(fcn(e.key), log2);
      if bloom.Some? {
        MaskIsModulus(fcn(e.key), bloom.value);
        assert Passes(e.hashv);
      }
    }

    /** Its bucket is counted, starts with the first of its chain, and holds nothing but elements that belong there. */
    lemma BucketsOnly(b: nat, i: nat)
      requires Valid() && head != null && b < |chains| && i < |chains[b]|
      ensures b < buckets.Length && buckets[b].count == |chains[b]| && buckets[b].head == chains[b][0]
      ensures chains[b][i] in order && fcn(chains[b][i].key) % buckets.Length == b
    {
      hide UtOrder.InOrder, Total, And, Filtered, Pow2;
      var e := chains[b][i];
      assert BucketIs(buckets[b], chains[b]);
      InMembers(chains, b, e);
      ElemsGrow(order, e);
      AtHomeOf(fcn, buckets, chains);
      MaskIsModulus(fcn(e.key), log2);
    }

    /** HASH_ADD_TO_BKT; the element has been counted already. */
    method AddToBucket(e: Elem<K>, ghost items: set<Elem<K>>)
      requires Stored(items) && e !in items && e.hashv == HashOf(fcn, e.key)
      requires numItems == Total(chains, |chains|) + 1
      modifies this, buckets, e`hhNext, e`hhPrev, items`hhNext, items`hhPrev
      ensures Stored(items + {e}) && numItems == old(numItems) == Total(chains, |chains|)
      ensures unchanged(`head, `tail, `order, `bits) && (buckets == old(buckets) || fresh(buckets))
      ensures log2 == old(log2) + if old(MustExpand(e.key)) then 1 else 0
      ensures if !old(MustExpand(e.key)) then unchanged(`ideal, `nonideal, `ineffExpands, `noexpand)
        else
          && ineffExpands == (if nonideal > numItems / 2 then old(ineffExpands) + 1 else 0)
          && noexpand == (old(noexpand) || ineffExpands > 1)
    {
      hide And, Shr, IdealLength, Pow2, Chained, Excess, Total, Multiplied, Hashed, HashOf, Members;
      BucketOf(fcn, chains, log2, e);
      HashedItems(fcn, chains, items);
      var b := And(e.hashv, buckets.Length - 1);
      PushFront(buckets, b, e, fcn, chains);
      MembersGrow(chains, b, e);
      CountChanged(chains, b, [e] + chains[b], 0, |chains|);
      chains := chains[b := [e] + chains[b]];
      HashedMoved(fcn, chains, items + {e});
      if buckets[b].count >= (buckets[b].expandMult + 1) * CAPACITY_THRESHOLD && !noexpand {
        Expand(items + {e});
      }
    }

    /** HASH_BLOOM_ADD */
    method AddToFilter(e: Elem<K>, ghost items: set<Elem<K>>)
      requires Filtered(items)
      modifies bits
      ensures Filtered(items + {e})
      ensures bloom.Some? ==>
        var n := And(e.hashv, Pow2(bloom.value) - 1);
        forall j: nat :: j / 8 < bits.Length ==>
          (UtBloom.Bit(bits[..], j) <==> j == n || UtBloom.Bit(old(bits[..]), j))
    {
      if bloom.Some? {
        var i := UtBloom.Index(e.hashv, bloom.value);
        UtBloom.IndexFits(e.hashv, bloom.value);
        hide UtBloom.Index, UtBloom.Bit, UtBloom.ByteLength;
        assert forall x :: x in items ==> Passes(x.hashv);
        UtBloom.SetBit(bits, i);
      }
    }

    lemma StoredMembers(items: set<Elem<K>>)
      requires Stored(items)
      ensures Members(chains) == items
    {}

    /** The first half of HASH_ADD_KEYPTR: the element is in application order, and counted. */
    method Enter(e: Elem<K>)
      requires Valid() && e !in order
      modifies this, order`next, e
      ensures UtOrder.InOrder(order + [e], head, tail) && head != null && order == old(order)
      ensures Stored(Elems(order)) && Filtered(Elems(order)) && bits as object != buckets as object
      ensures e.hashv == HashOf(fcn, e.key) && numItems == |order| + 1 == Total(chains, |chains|) + 1
      ensures if old(order) == [] then fresh(buckets) && fresh(bits) && ineffExpands == 0 && !noexpand
        else unchanged(`buckets, `bits, `log2, `noexpand, `ideal, `nonideal, `ineffExpands)
      ensures old(order) == [] ==> log2 == INITIAL_LOG2 && !MustExpand(e.key)
    {
      hide Stored, Filtered, HashOf, Total, UtOrder.InOrder, Elems, And, Home;
      ElemsGrow(order, e);
      if head == null {
        MakeTable();
        EmptyOrder<K>();
      }
      StoredMembers(Elems(order));
      head, tail := UtOrder.Append(head, tail, e, order);
      numItems := numItems + 1;
      e.hashv := HashOf(fcn, e.key);
    }

    /** HASH_ADD_KEYPTR; as in the source, nothing keeps out a second element with the same key. */
    method Add(e: Elem<K>)
      requires Valid() && e !in order
      modifies this, buckets, bits, Elems(order), e
      ensures Valid() && order == old(order) + [e]
      ensures (buckets == old(buckets) || fresh(buckets)) && (bits == old(bits) || fresh(bits))
      ensures log2 == if old(order) == [] then 5 else old(log2 + if MustExpand(e.key) then 1 else 0)
      ensures old(order) == [] ==> ineffExpands == 0 && !noexpand
      ensures old(order) != [] && !old(MustExpand(e.key)) ==> unchanged(`ideal, `nonideal, `ineffExpands, `noexpand)
      ensures old(order) != [] && old(MustExpand(e.key)) ==>
        && ineffExpands == (if nonideal > numItems / 2 then old(ineffExpands) + 1 else 0)
        && noexpand == (old(noexpand) || ineffExpands > 1)
    {
      hide Stored, Filtered, HashOf, Total, UtOrder.InOrder, Elems, And, Home, MustExpand, Distinct;
      ElemsGrow(order, e);
      Enter(e);
      FilterApart(Elems(order));
      AddToBucket(e, Elems(order));
      FilterApart(Elems(order) + {e});
      AddToFilter(e, Elems(order));
      order := order + [e];
    }

    lemma FilterApart(items: set<Elem<K>>)
      requires Stored(items)
      ensures Members(chains) == items
      ensures forall x :: x in items ==> x as object != bits as object && x as object != buckets as object
    {}

    // ----- HASH_FIND

    /** What the bucket chains say about a key: the filter has no part in it. */
    ghost function Found(key: K): Elem?<K>
      reads `head, `chains
    {
      if head == null || |chains| == 0 || Home(fcn, |chains|, key) >= |chains| then null
      else Lookup(chains[Home(fcn, |chains|, key)], key)
    }

    /** HASH_FIND_IN_BKT */
    method FindInBucket(first: Elem?<K>, key: K, ghost chain: seq<Elem<K>>) returns (out: Elem?<K>)
      requires Linked(chain) && first == if |chain| == 0 then null else chain[0]
      ensures out == Lookup(chain, key)
    {
      out := first;
      ghost var i := 0;
      while out != null
        invariant i <= |chain| && out == (if i < |chain| then chain[i] else null)
        invariant Lookup(chain[i..], key) == Lookup(chain, key)
        decreases |chain| - i
      {
        if out.key == key {
          return;
        }
        out := out.hhNext;
        i := i + 1;
      }
    }

    /**
     * HASH_FIND.  The first clause determines the result without the filter, so that turning the filter on or off
     * makes no difference; the others say that it is the element with this key, if there is one.
     */
    method Find(key: K) returns (out: Elem?<K>)
      requires Valid()
      ensures out == Found(key)
      ensures out == null <==> forall e :: e in order ==> e.key != key
      ensures out != null ==> out in order && out.key == key
      ensures DistinctKeys(order) ==> forall e :: e in order && e.key == key ==> out == e
    {
      hide And, UtOrder.InOrder, Passes, Lookup, Elems, Members, Linked;
      out := null;
      if head != null {
        ChainsHold(key);
        var hashv := HashOf(fcn, key);
        var b := And(hashv, buckets.Length - 1);
        assert BucketIs(buckets[b], chains[b]);
        if Passes(hashv) {
          out := FindInBucket(buckets[b].head, key, chains[b]);
        }
      }
    }

    /** Looking in the one bucket is looking everywhere, and the filter stops only what is not there. */
    lemma ChainsHold(key: K)
      requires Valid() && head != null
      ensures Home(fcn, |chains|, key) < |chains|
      ensures var r := Lookup(chains[Home(fcn, |chains|, key)], key);
        && (r == null ==> forall e :: e in order ==> e.key != key)
        && (r != null ==> r in order && r.key == key && Passes(HashOf(fcn, key)))
        && (DistinctKeys(order) ==> forall e :: e in order && e.key == key ==> r == e)
    {
      hide And, UtOrder.InOrder, UtBloom.Bit, UtBloom.Index, Home;
      HomeFits(fcn, key, log2);
      var b := Home(fcn, |chains|, key);
      var r := Lookup(chains[b], key);
      ElemsGrow(order, head);
      HashedItems(fcn, chains, Elems(order));
      AtHomeOf(fcn, buckets, chains);
      forall e | e in order && e.key == key
        ensures e in chains[b]
      {
        InChain(fcn, chains, e);
      }
      if r != null {
        InMembers(chains, b, r);
      }
      if DistinctKeys(order) {
        forall e | e in order && e.key == key
          ensures r == e
        {
          SameKey(order, r, e);
        }
      }
    }

    // ----- HASH_DELETE

    /** HASH_DELETE */
    method Delete(e: Elem<K>, ghost at: nat)
      requires Valid() && at < |order| && order[at] == e
      modifies this, buckets, Elems(order)
      ensures Valid() && order == Without(old(order), at)
      ensures unchanged(`buckets, `bits, `log2, `ideal, `nonideal, `ineffExpands, `noexpand)
    {
      hide And, UtOrder.InOrder, Stored, Filtered, Elems, Total, Home;
      AloneIs(order, head, tail, at);
      if e.prev == null && e.next == null {
        head, order := null, [];
      } else {
        Leave(e, at);
      }
    }

    /** HASH_DELETE for an element that is not the only one. */
    method Leave(e: Elem<K>, ghost at: nat)
      requires Valid() && at < |order| && order[at] == e && |order| > 1
      modifies this, buckets, Elems(order)
      ensures Valid() && order == Without(old(order), at)
      ensures unchanged(`buckets, `bits, `log2, `ideal, `nonideal, `ineffExpands, `noexpand)
    {
      hide And, UtOrder.InOrder, Stored, Filtered, Total, Home, Distinct;
      ghost var left := Without(order, at);
      LeaveOrder(e, at);
      TakeFromBucket(e, Elems(order));
      FewerFiltered(Elems(order), Elems(left));
      order := left;
    }

    /** The list half of HASH_DELETE */
    method LeaveOrder(e: Elem<K>, ghost at: nat)
      requires Valid() && at < |order| && order[at] == e && |order| > 1
      modifies `head, `tail, Elems(order)`next, Elems(order)`prev
      ensures UtOrder.InOrder(Without(order, at), head, tail) && head != null
      ensures Stored(Elems(order)) && Filtered(Elems(order)) && e in Elems(order)
      ensures Elems(Without(order, at)) == Elems(order) - {e} && |Without(order, at)| == |order| - 1
      ensures forall x :: x in Elems(order) ==> x as object != buckets as object && x as object != bits as object
      ensures forall x :: x in Without(order, at) ==> x as object != buckets as object && x in Elems(order)
    {
      hide And, UtOrder.InOrder, Stored, Filtered, Total, Home, Distinct;
      AloneIs(order, head, tail, at);
      ElemsShrink(order, at);
      UtOrder.ElemsOf(order);
      UtOrder.ElemsOf(Without(order, at));
      FilterApart(Elems(order));
      head, tail := UtOrder.Remove(head, tail, e, order, at);
      HeadOf(Without(order, at), head, tail);
      forall x | x in Without(order, at)
        ensures x as object != buckets as object && x in Elems(order)
      {
        assert x in Elems(Without(order, at));
      }
    }

    lemma FewerFiltered(items: set<Elem<K>>, left: set<Elem<K>>)
      requires Filtered(items) && left <= items
      ensures Filtered(left)
    {}

    /** The bucket half of HASH_DELETE */
    method TakeFromBucket(e: Elem<K>, ghost items: set<Elem<K>>)
      requires Stored(items) && e in items && numItems == Total(chains, |chains|)
      modifies `numItems, `chains, buckets, items`hhNext, items`hhPrev
      ensures Stored(items - {e}) && numItems == Total(chains, |chains|) == old(numItems) - 1
    {
      hide And, Total, Chained, Excess, Home;
      SameLength(fcn, buckets, chains);
      AtHomeOf(fcn, buckets, chains);
      ChainDistinct(fcn, buckets, chains);
      InChain(fcn, chains, e);
      HashedItems(fcn, chains, items);
      BucketIsHome(fcn, chains, e);
      var b := And(e.hashv, buckets.Length - 1);
      ghost var at :| 0 <= at < |chains[b]| && chains[b][at] == e;
      InMembersAll(chains, b);
      Unlink(buckets, b, e, fcn, chains, at);
      CountChanged(chains, b, Without(chains[b], at), 0, |chains|);
      MembersShrink(fcn, chains, b, at);
      chains := chains[b := Without(chains[b], at)];
      HashedMoved(fcn, chains, items - {e});
      numItems := numItems - 1;
    }

    // ----- HASH_SRT

    /** HASH_SRT; chains, buckets and filter are not touched. */
    method Sort(cmp: (Elem<K>, Elem<K>) -> int)
      requires Valid()
      modifies this, Elems(order)`next, Elems(order)`prev
      ensures Valid() && Elems(order) == old(Elems(order)) && |order| == |old(order)|
      ensures order == MergeSpec.Sort(cmp, old(order), 1)
      ensures unchanged(`buckets, `chains, `bits, `log2, `numItems, `ideal, `nonideal, `ineffExpands, `noexpand)
    {
      hide MergeSpec.Pass, UtOrder.InOrder, Stored, Filtered, Elems, Total;
      if head != null {
        FilterApart(Elems(order));
        head, tail, order := UtOrder.Sort(head, tail, cmp, order);
        UtOrder.HeadIs(order, head, tail);
      }
    }

    // ----- HASH_FSCK

    /** Links forward lead through all chains and the application order, whatever else is wrong. */
    ghost predicate Walkable()
      reads this, buckets, Members(chains), Elems(order)
    {
      && |chains| == buckets.Length
      && (forall b :: 0 <= b < |chains| ==> NextLinked(chains[b], buckets[b].head))
      && (head != null ==> |order| > 0 && head == order[0] && UtOrder.Forward(order))
    }

    /** Links back and all counts are right. */
    ghost predicate Consistent()
      requires |chains| == buckets.Length
      reads this, buckets, Members(chains), Elems(order)
    {
      && (forall b :: 0 <= b < |chains| ==> buckets[b].count == |chains[b]| && PrevLinked(chains[b]))
      && numItems == Total(chains, |chains|) && numItems == |order|
      && OrderLinked(order)
    }

    /** HASH_FSCK accepts a table exactly if links back and counts are right. */
    method Fsck() returns (ok: bool)
      requires Walkable()
      ensures ok <==> head == null || Consistent()
    {
      hide Elems, Members, Total, PrevLinked, NextLinked, UtOrder.Forward;
      if head == null {
        return true;
      }
      var count, i := 0, 0;
      NoneCounted(chains);
      while i < buckets.Length
        invariant i <= buckets.Length && count == Total(chains, i)
        invariant forall b :: 0 <= b < i ==> buckets[b].count == |chains[b]| && PrevLinked(chains[b])
      {
        var n, linked := FsckBucket(buckets[i].head, chains[i]);
        if !linked || buckets[i].count != n {
          return false;
        }
        OneCounted(chains, i);
        count := count + n;
        i := i + 1;
      }
      if count != numItems {
        return false;
      }
      assert i == |chains| && numItems == Total(chains, |chains|);
      var n, linked := FsckOrder(head, order);
      return linked && n == numItems;
    }

    /** So it finds nothing to complain about in any table that the operations leave. */
    lemma ValidIsConsistent()
      requires Valid() && head != null
      ensures Walkable() && Consistent()
    {
      hide Total, Elems, Filtered, Hashed, Home;
      HeadOf(order, head, tail);
      forall b | 0 <= b < |chains|
        ensures NextLinked(chains[b], buckets[b].head) && buckets[b].count == |chains[b]| && PrevLinked(chains[b])
      {
        assert BucketIs(buckets[b], chains[b]);
      }
    }
  }

  ghost predicate NextLinked<K>(c: seq<Elem<K>>, first: Elem?<K>)
    reads c`hhNext
  {
    && first == (if |c| == 0 then null else c[0])
    && (|c| > 0 ==> c[|c| - 1].hhNext == null) && forall i :: 0 <= i < |c| - 1 ==> c[i].hhNext == c[i + 1]
  }

  ghost predicate PrevLinked<K>(c: seq<Elem<K>>)
    reads c`hhPrev
  {
    (|c| > 0 ==> c[0].hhPrev == null) && forall i :: 0 < i < |c| ==> c[i].hhPrev == c[i - 1]
  }

  ghost predicate OrderLinked<K>(s: seq<Elem<K>>)
    reads s`prev
  {
    (|s| > 0 ==> s[0].prev == null) && forall i :: 0 < i < |s| ==> s[i].prev == s[i - 1]
  }

  lemma NoneCounted<K>(chains: seq<seq<Elem<K>>>)
    ensures Total(chains, 0) == 0
  {}

  lemma OneCounted<K>(chains: seq<seq<Elem<K>>>, n: nat)
    requires n < |chains|
    ensures Total(chains, n + 1) == Total(chains, n) + |chains[n]|
  {}

  /** HASH_FSCK for one chain: compares the links back with the way walked, and counts the chain. */
  method FsckBucket<K>(first: Elem?<K>, ghost chain: seq<Elem<K>>) returns (count: nat, ok: bool)
    requires NextLinked(chain, first)
    ensures (ok <==> PrevLinked(chain)) && (ok ==> count == |chain|)
  {
    var prev: Elem?<K>, thh := null, first;
    count := 0;
    while thh != null
      invariant count <= |chain| && thh == if count < |chain| then chain[count] else null
      invariant prev == if count == 0 then null else chain[count - 1]
      invariant (count > 0 ==> chain[0].hhPrev == null) && forall i :: 0 < i < count ==> chain[i].hhPrev == chain[i - 1]
      decreases |chain| - count
    {
      if prev != thh.hhPrev {
        return count, false;
      }
      count := count + 1;
      prev := thh;
      thh := thh.hhNext;
    }
    ok := true;
  }

  /** HASH_FSCK for the application order. */
  method FsckOrder<K>(head: Elem<K>, ghost s: seq<Elem<K>>) returns (count: nat, ok: bool)
    requires |s| > 0 && head == s[0] && UtOrder.Forward(s)
    ensures (ok <==> OrderLinked(s)) && (ok ==> count == |s|)
  {
    var prev: Elem?<K>, thh: Elem?<K> := null, head;
    count := 0;
    while thh != null
      invariant count <= |s| && thh == if count < |s| then s[count] else null
      invariant prev == if count == 0 then null else s[count - 1]
      invariant (count > 0 ==> s[0].prev == null) && forall i :: 0 < i < count ==> s[i].prev == s[i - 1]
      decreases |s| - count
    {
      count := count + 1;
      if prev != thh.prev {
        return count, false;
      }
      prev := thh;
      thh := thh.next;
    }
    ok := true;
  }

  lemma BucketIsHome<K>(fcn: K -> nat, chains: seq<seq<Elem<K>>>, e: Elem<K>)
    ensures |chains| > 0 ==> Home(fcn, |chains|, e.key) == And(HashOf(fcn, e.key), |chains| - 1)
  {}

  lemma MembersShrink<K>(fcn: K -> nat, chains: seq<seq<Elem<K>>>, b: nat, at: nat)
    requires AtHome(fcn, chains) && b < |chains| && Distinct(chains[b]) && at < |chains[b]|
    ensures Members(chains[b := Without(chains[b], at)]) == Members(chains) - {chains[b][at]}
  {
    var e := chains[b][at];
    var chains' := chains[b := Without(chains[b], at)];
    forall x | x in Members(chains) - {e}
      ensures x in Members(chains')
    {
      var i, j :| 0 <= i < |chains| && 0 <= j < |chains[i]| && chains[i][j] == x;
      assert chains'[i][if i == b && j > at then j - 1 else j] == x;
    }
    forall x | x in Members(chains')
      ensures x in Members(chains) - {e}
    {
      var i, j :| 0 <= i < |chains'| && 0 <= j < |chains'[i]| && chains'[i][j] == x;
      assert chains[i][if i == b && j >= at then j + 1 else j] == x;
    }
  }

  /** The test of HASH_DELETE for the last element. */
  lemma AloneIs<K>(s: seq<Elem<K>>, head: Elem?<K>, tail: Elem?<K>, at: nat)
    requires UtOrder.InOrder(s, head, tail) && at < |s|
    ensures s[at].prev == null && s[at].next == null <==> |s| == 1
    ensures |s| == 1 ==> Without(s, at) == []
    ensures Distinct(s) && head == s[0]
  {
    if at > 0 {
      assert s[at].prev == s[at - 1];
    } else if |s| > 1 {
      assert s[0].next == s[1];
    }
  }

  lemma HeadOf<K>(s: seq<Elem<K>>, head: Elem?<K>, tail: Elem?<K>)
    requires UtOrder.InOrder(s, head, tail)
    ensures head == null <==> s == []
  {}

  lemma ChainDistinct<K>(fcn: K -> nat, buckets: array<Bucket<K>>, chains: seq<seq<Elem<K>>>)
    requires Chained(fcn, buckets, chains)
    ensures forall b :: 0 <= b < |chains| ==> Distinct(chains[b])
  {
    forall b | 0 <= b < |chains|
      ensures Distinct(chains[b])
    {
      assert BucketIs(buckets[b], chains[b]);
    }
  }

  lemma ElemsShrink<K>(s: seq<Elem<K>>, at: nat)
    requires Distinct(s) && at < |s|
    ensures Elems(Without(s, at)) == Elems(s) - {s[at]} && s[at] in Elems(s) && |Without(s, at)| == |s| - 1
  {
    var t := Without(s, at);
    forall x | x in Elems(s) - {s[at]}
      ensures x in Elems(t)
    {
      var i :| 0 <= i < |s| && s[i] == x;
      assert t[if i > at then i - 1 else i] == x;
    }
  }

  lemma HomeFits<K>(fcn: K -> nat, key: K, log2: nat)
    ensures Home(fcn, Pow2(log2), key) < Pow2(log2)
  {
    AllMask(HashOf(fcn, key), log2);
  }

  lemma AtHomeOf<K>(fcn: K -> nat, buckets: array<Bucket<K>>, chains: seq<seq<Elem<K>>>)
    requires Chained(fcn, buckets, chains)
    ensures AtHome(fcn, chains)
  {}

  lemma SameKey<K>(s: seq<Elem<K>>, d: Elem<K>, e: Elem<K>)
    requires DistinctKeys(s) && d in s && e in s && d.key == e.key
    ensures d == e
  {
    var i :| 0 <= i < |s| && s[i] == d;
    var j :| 0 <= j < |s| && s[j] == e;
  }

  lemma EmptyChained<K>(fcn: K -> nat, buckets: array<Bucket<K>>, chains: seq<seq<Elem<K>>>)
    requires |chains| == buckets.Length
    requires forall b :: 0 <= b < |chains| ==> chains[b] == [] && buckets[b] == Bucket(null, 0, 0)
    ensures Chained(fcn, buckets, chains) && Hashed(fcn, chains)
  {}

  lemma EmptyOrder<K>()
    ensures UtOrder.InOrder<K>([], null, null) && Elems<K>([]) == {}
  {}

  lemma ElemsGrow<K>(s: seq<Elem<K>>, e: Elem<K>)
    ensures Elems(s + [e]) == Elems(s) + {e} && (e !in s ==> e !in Elems(s))
    ensures forall x :: x in s <==> x in Elems(s)
  {
    var t := s + [e];
    assert t[|s|] == e;
    forall x | x in Elems(s)
      ensures x in Elems(t)
    {
      var i :| 0 <= i < |s| && s[i] == x;
      assert t[i] == x;
    }
  }

  lemma BucketOf<K>(fcn: K -> nat, chains: seq<seq<Elem<K>>>, log2: nat, e: Elem<K>)
    requires |chains| == Pow2(log2) && e !in Members(chains)
    ensures var b := Home(fcn, |chains|, e.key);
      b < |chains| && e !in chains[b] && forall x :: x in chains[b] ==> x in Members(chains)
  {
    AllMask(HashOf(fcn, e.key), log2);
    var c := chains[Home(fcn, |chains|, e.key)];
    forall x | x in c
      ensures x in Members(chains)
    {
      var i :| 0 <= i < |c| && c[i] == x;
    }
  }

  lemma HashedItems<K>(fcn: K -> nat, chains: seq<seq<Elem<K>>>, items: set<Elem<K>>)
    requires Hashed(fcn, chains) && Members(chains) == items
    ensures forall e :: e in items ==> e.hashv == HashOf(fcn, e.key)
  {}

  lemma HashedMoved<K>(fcn: K -> nat, chains: seq<seq<Elem<K>>>, items: set<Elem<K>>)
    requires Members(chains) == items && forall e :: e in items ==> e.hashv == HashOf(fcn, e.key)
    ensures Hashed(fcn, chains)
  {
    forall b, i | 0 <= b < |chains| && 0 <= i < |chains[b]|
      ensures chains[b][i].hashv == HashOf(fcn, chains[b][i].key)
    {
      assert chains[b][i] in items;
    }
  }
}
