/** fixedsizehash.h: open addressing with double hashing in a table of prime size. */
module FixedHash {
  import opened Arith
  import opened LargePrimes
  import opened Options
  import opened Primes

  // ----- the probe sequence

  function Step(h: nat, n: nat): nat
    requires n > 2
  {
    1 + h % (n - 2)
  }

  /** One probe further: `step` slots back, around the slots 1..n. */
  function Back(idx: nat, step: nat, n: nat): nat
    requires 1 <= idx <= n && 1 <= step < n
  {
    if idx <= step then n + idx - step else idx - step
  }

  function Probe(h: nat, n: nat, k: nat): (idx: nat)
    requires n > 2
    ensures 1 <= idx <= n
  {
    if k == 0 then 1 + h % n else Back(Probe(h, n, k - 1), Step(h, n), n)
  }

  function Times(i: nat, s: nat): nat { i * s }

  lemma {:induction false} ProbeOffset(h: nat, n: nat, j: nat, k: nat)
    requires n > 2 && j <= k
    ensures (Probe(h, n, j) - Probe(h, n, k) - Times(k - j, Step(h, n))) % n == 0
  {
    hide Times, Step, Probe, Back;
    if j < k {
      ProbeOffset(h, n, j, k - 1);
      ProbeOne(h, n, k);
      OneMore(k - 1 - j, Step(h, n));
      OffsetStep(Probe(h, n, j), Probe(h, n, k - 1), Step(h, n), Times(k - 1 - j, Step(h, n)), n);
    } else {
      OneMore(0, Step(h, n));
      MulMod(0, n);
    }
  }

  lemma ProbeOne(h: nat, n: nat, k: nat)
    requires n > 2 && k > 0
    ensures 1 <= Step(h, n) < n && Probe(h, n, k) == Back(Probe(h, n, k - 1), Step(h, n), n)
  {}

  lemma OffsetStep(start: int, idx: nat, step: nat, sum: nat, n: nat)
    requires 1 <= idx <= n && 1 <= step < n && (start - idx - sum) % n == 0
    ensures (start - Back(idx, step, n) - (sum + step)) % n == 0
  {
    MulMod(1, n);
    SumMod(start - idx - sum, n, n);
  }

  /** Probes go down by one plus the remainder by two less than the size, around the table. */
  lemma ProbeIs(h: nat, n: nat, k: nat)
    requires n > 2
    ensures 1 <= Probe(h, n, k) <= n
    ensures (Probe(h, n, k) - (1 + h % n - k * (1 + h % (n - 2)))) % n == 0
  {
    ProbeOffset(h, n, 0, k);
    var x := Probe(h, n, 0) - Probe(h, n, k) - Times(k, Step(h, n));
    MulMod(0, n);
    SumMod(0, x, n);
    assert Times(k, Step(h, n)) == k * (1 + h % (n - 2));
  }

  lemma OneMore(i: nat, s: nat)
    ensures Times(i + 1, s) == Times(i, s) + s
    ensures Times(0, s) == 0
  {}

  /** Before it has gone round, the probe sequence never comes back to a slot. */
  lemma ProbesDiffer(h: nat, n: nat, j: nat, k: nat)
    requires n > 2 && IsPrime(n) && j < k < n
    ensures Probe(h, n, j) != Probe(h, n, k)
  {
    hide IsPrime, Probe;
    if Probe(h, n, j) == Probe(h, n, k) {
      ProbeOffset(h, n, j, k);
      var p: int := Times(k - j, Step(h, n));
      MulMod(0, n);
      SumMod(0, -p, n);
      NoZeroDivisor(n, k - j, Step(h, n));
    }
  }

  ghost function Slots(n: nat): (r: set<nat>)
    ensures forall i: nat :: i in r <==> 1 <= i <= n
  {
    if n == 0 then {} else Slots(n - 1) + {n}
  }

  lemma {:induction false} SlotsSize(n: nat)
    ensures |Slots(n)| == n
  {
    if n > 0 {
      SlotsSize(n - 1);
    }
  }

  ghost function Probed(h: nat, n: nat, k: nat): set<nat>
    requires n > 2
  {
    if k == 0 then {} else Probed(h, n, k - 1) + {Probe(h, n, k - 1)}
  }

  lemma {:induction false} ProbedFrom(h: nat, n: nat, k: nat, idx: nat)
    requires n > 2 && idx in Probed(h, n, k)
    ensures exists j: nat :: j < k && Probe(h, n, j) == idx
  {
    if idx in Probed(h, n, k - 1) {
      ProbedFrom(h, n, k - 1, idx);
    } else {
      assert Probe(h, n, k - 1) == idx;
    }
  }

  lemma {:induction false} ProbedSize(h: nat, n: nat, k: nat)
    requires n > 2 && IsPrime(n) && k <= n
    ensures |Probed(h, n, k)| == k && Probed(h, n, k) <= Slots(n)
  {
    hide IsPrime, Probe, Slots;
    if k > 0 {
      ProbedSize(h, n, k - 1);
      if Probe(h, n, k - 1) in Probed(h, n, k - 1) {
        ProbedFrom(h, n, k - 1, Probe(h, n, k - 1));
        var j: nat :| j < k - 1 && Probe(h, n, j) == Probe(h, n, k - 1);
        ProbesDiffer(h, n, j, k - 1);
      }
    }
  }

  lemma {:induction false} SubsetOfSameSize(a: set<nat>, b: set<nat>)
    requires a <= b && |a| == |b|
    ensures a == b
  {
    if a != b {
      ProperSubset(a, b);
    }
  }

  lemma ProperSubset(a: set<nat>, b: set<nat>)
    requires a <= b && a != b
    ensures |a| < |b|
  {
    assert b == a + (b - a);
    var x :| x in b - a;
    assert |b - {x}| == |b| - 1;
    SubsetSize(a, b - {x});
  }

  lemma {:induction false} SubsetSize(a: set<nat>, b: set<nat>)
    requires a <= b
    ensures |a| <= |b|
    decreases a
  {
    if a != {} {
      var x :| x in a;
      SubsetSize(a - {x}, b - {x});
    }
  }

  /** In a table of prime size the probe sequence of any hash visits every slot. */
  lemma FullCycle(h: nat, n: nat, idx: nat) returns (k: nat)
    requires n > 2 && IsPrime(n) && 1 <= idx <= n
    ensures k < n && Probe(h, n, k) == idx
  {
    ProbedSize(h, n, n);
    SlotsSize(n);
    SubsetOfSameSize(Probed(h, n, n), Slots(n));
    ProbedFrom(h, n, n, idx);
    k :| k < n && Probe(h, n, k) == idx;
  }

  /** In a table whose size is not prime a hash can keep missing slots. */
  lemma {:induction false} CompositeMisses(k: nat)
    ensures Probe(1, 4, k) == if k % 2 == 0 then 2 else 4
  {
    if k > 0 {
      CompositeMisses(k - 1);
    }
  }

  // ----- what a table means

  /** A slot is empty when its hash value is zero. */
  datatype Slot<K, V> = Slot(hval: nat, entry: Option<(K, V)>)

  function HashOf<K>(hash: K -> nat, k: K): nat {
    hash(k)
  }

  predicate Used<K, V>(t: seq<Slot<K, V>>, i: nat)
    requires i < |t|
  {
    t[i].hval != 0
  }

  predicate IsKey<K(==), V>(t: seq<Slot<K, V>>, i: nat, k: K)
    requires i < |t|
  {
    Used(t, i) && t[i].entry.Some? && t[i].entry.value.0 == k
  }

  function ProbeIn<K, V>(t: seq<Slot<K, V>>, h: nat, j: nat): (idx: nat)
    requires |t| > 3
    ensures 1 <= idx < |t|
  {
    Probe(h, |t| - 1, j)
  }

  /** Every probe before the `j`-th finds an entry. */
  ghost predicate UsedBefore<K, V>(t: seq<Slot<K, V>>, h: nat, j: nat)
    requires |t| > 3
  {
    forall i: nat :: i < j ==> Used(t, ProbeIn(t, h, i))
  }

  ghost predicate Reached<K, V>(t: seq<Slot<K, V>>, h: nat, i: nat)
    requires |t| > 3
  {
    exists j: nat :: j < |t| - 1 && ProbeIn(t, h, j) == i && UsedBefore(t, h, j)
  }

  /** Slot `i` has an entry of the map, with its hash, where a lookup finds it. */
  ghost predicate Holds<K, V>(t: seq<Slot<K, V>>, hash: K -> nat, m: map<K, V>, i: nat)
    requires |t| > 3 && i < |t|
  {
    && t[i].entry.Some?
    && var (k, v) := t[i].entry.value;
       k in m && m[k] == v && t[i].hval == HashOf(hash, k) && Reached(t, HashOf(hash, k), i)
  }

  /** The slots 1 to `|t| - 1` hold exactly the map. */
  ghost predicate Stands<K, V>(t: seq<Slot<K, V>>, hash: K -> nat, m: map<K, V>)
    requires |t| > 3
  {
    && (forall i: nat :: 1 <= i < |t| && Used(t, i) ==> Holds(t, hash, m, i))
    && (forall i: nat, j: nat ::
          1 <= i < j < |t| && Used(t, i) && Used(t, j) && Holds(t, hash, m, i) && Holds(t, hash, m, j) ==>
            t[i].entry.value.0 != t[j].entry.value.0)
    && (forall k :: k in m ==> exists i: nat :: 1 <= i < |t| && IsKey(t, i, k))
  }

  ghost predicate HasRoom<K, V>(t: seq<Slot<K, V>>) {
    exists i: nat :: 1 <= i < |t| && !Used(t, i)
  }

  /** The probe at which a lookup of `k` has to stop. */
  lemma Goal<K, V>(t: seq<Slot<K, V>>, hash: K -> nat, m: map<K, V>, k: K) returns (last: nat)
    requires |t| > 3 && IsPrime(|t| - 1) && Stands(t, hash, m) && (HasRoom(t) || k in m)
    ensures last < |t| - 1
    ensures var idx := ProbeIn(t, HashOf(hash, k), last); !Used(t, idx) || IsKey(t, idx, k)
  {
    hide IsPrime, Probe;
    var goal: nat :| 1 <= goal < |t| && (!Used(t, goal) || IsKey(t, goal, k));
    last := FullCycle(HashOf(hash, k), |t| - 1, goal);
  }

  lemma EntriesThere<K, V>(t: seq<Slot<K, V>>, hash: K -> nat, m: map<K, V>, k: K)
    requires |t| > 3 && Stands(t, hash, m)
    ensures forall i: nat :: 1 <= i < |t| && Used(t, i) ==> t[i].entry.Some?
    ensures forall i: nat :: 1 <= i < |t| && IsKey(t, i, k) ==> t[i].hval == HashOf(hash, k)
  {
    hide Reached;
    assert forall i: nat :: 1 <= i < |t| && IsKey(t, i, k) ==> Holds(t, hash, m, i);
  }

  /** The first `j` probes find entries of other keys. */
  ghost predicate Passed<K, V>(t: seq<Slot<K, V>>, h: nat, k: K, j: nat)
    requires |t| > 3
  {
    forall i: nat :: i < j ==> Used(t, ProbeIn(t, h, i)) && !IsKey(t, ProbeIn(t, h, i), k)
  }

  lemma PassedOne<K, V>(t: seq<Slot<K, V>>, h: nat, k: K, j: nat)
    requires |t| > 3
    ensures Passed(t, h, k, 0)
    ensures Passed(t, h, k, j) && Used(t, ProbeIn(t, h, j)) && !IsKey(t, ProbeIn(t, h, j), k) ==>
      Passed(t, h, k, j + 1)
  {
    hide Used, IsKey, Probe;
  }

  /** A lookup that stops at probe `j` has found the entry of `k`, or where it would be. */
  lemma LookupDone<K, V>(t: seq<Slot<K, V>>, hash: K -> nat, m: map<K, V>, k: K, j: nat)
    requires |t| > 3 && Stands(t, hash, m) && j < |t| - 1
    requires Passed(t, HashOf(hash, k), k, j)
    requires var idx := ProbeIn(t, HashOf(hash, k), j); IsKey(t, idx, k) || !Used(t, idx)
    ensures Looked(t, hash, m, k, ProbeIn(t, HashOf(hash, k), j))
  {
    hide Probe;
    var idx := ProbeIn(t, HashOf(hash, k), j);
    if Used(t, idx) {
      assert Holds(t, hash, m, idx);
    } else {
      AbsentAfter(t, hash, m, k, j);
    }
  }

  /** A lookup that has come to an empty slot has passed every entry of its key. */
  lemma AbsentAfter<K, V>(t: seq<Slot<K, V>>, hash: K -> nat, m: map<K, V>, k: K, j: nat)
    requires |t| > 3 && Stands(t, hash, m) && j < |t| - 1 && !Used(t, ProbeIn(t, HashOf(hash, k), j))
    requires forall i: nat :: i < j ==> !IsKey(t, ProbeIn(t, HashOf(hash, k), i), k)
    ensures k !in m
  {
    hide Probe, Stands;
    if k in m {
      ghost var n := EntryProbe(t, hash, m, k);
      assert false;
    }
  }

  /** Every entry lies on the probe sequence of its key, after used slots only. */
  lemma EntryProbe<K, V>(t: seq<Slot<K, V>>, hash: K -> nat, m: map<K, V>, k: K) returns (n: nat)
    requires |t| > 3 && Stands(t, hash, m) && k in m
    ensures n < |t| - 1 && IsKey(t, ProbeIn(t, HashOf(hash, k), n), k) && UsedBefore(t, HashOf(hash, k), n)
  {
    hide Probe;
    var i: nat :| 1 <= i < |t| && IsKey(t, i, k);
    assert Holds(t, hash, m, i) && Reached(t, HashOf(hash, k), i);
    n :| n < |t| - 1 && ProbeIn(t, HashOf(hash, k), n) == i && UsedBefore(t, HashOf(hash, k), n);
  }

  // ----- storing

  /** The map after an entry has been stored: one with hash zero marks its own slot as empty. */
  function Put<K, V>(hash: K -> nat, m: map<K, V>, k: K, v: V): map<K, V> {
    if HashOf(hash, k) == 0 then m else m[k := v]
  }

  function Written<K, V>(t: seq<Slot<K, V>>, hash: K -> nat, idx: nat, k: K, v: V): seq<Slot<K, V>>
    requires idx < |t|
  {
    t[idx := Slot(HashOf(hash, k), Some((k, v)))]
  }

  /** What a lookup of `k` returns. */
  ghost predicate Looked<K, V>(t: seq<Slot<K, V>>, hash: K -> nat, m: map<K, V>, k: K, idx: nat)
    requires |t| > 3
  {
    && 1 <= idx < |t| && Used(t, idx) == (k in m) && (Used(t, idx) ==> IsKey(t, idx, k))
    && Reached(t, HashOf(hash, k), idx)
  }

  lemma UsedStays<K, V>(t: seq<Slot<K, V>>, hash: K -> nat, m: map<K, V>, k: K, v: V, idx: nat)
    requires |t| > 3 && Stands(t, hash, m) && Looked(t, hash, m, k, idx)
    ensures Used(t, idx) ==> HashOf(hash, k) != 0
    ensures forall i: nat :: i < |t| && Used(t, i) ==> Used(Written(t, hash, idx, k, v), i)
  {
    hide Reached;
    if Used(t, idx) {
      assert Holds(t, hash, m, idx);
    }
  }

  lemma ReachedStays<K, V>(t: seq<Slot<K, V>>, t': seq<Slot<K, V>>, h: nat, i: nat)
    requires |t| == |t'| > 3 && (forall i: nat :: i < |t| && Used(t, i) ==> Used(t', i)) && Reached(t, h, i)
    ensures Reached(t', h, i)
  {
    hide Probe, Used;
    var j: nat :| j < |t| - 1 && ProbeIn(t, h, j) == i && UsedBefore(t, h, j);
    forall i: nat | i < j
      ensures Used(t', ProbeIn(t', h, i))
    {
      assert ProbeIn(t', h, i) == ProbeIn(t, h, i);
    }
    assert ProbeIn(t', h, j) == ProbeIn(t, h, j);
  }

  lemma HoldsAfter<K, V>(t: seq<Slot<K, V>>, hash: K -> nat, m: map<K, V>, k: K, v: V, idx: nat, i: nat)
    requires |t| > 3 && Stands(t, hash, m) && Looked(t, hash, m, k, idx)
    requires 1 <= i < |t| && Used(Written(t, hash, idx, k, v), i)
    ensures Holds(Written(t, hash, idx, k, v), hash, Put(hash, m, k, v), i)
    ensures i != idx ==> Used(t, i) && Holds(t, hash, m, i) && t[i].entry.value.0 != k
  {
    hide Reached, Probe;
    var t' := Written(t, hash, idx, k, v);
    UsedStays(t, hash, m, k, v, idx);
    if i != idx {
      assert Used(t, i) && Holds(t, hash, m, i);
      if Used(t, idx) {
        assert Holds(t, hash, m, idx);
      }
    }
    ReachedStays(t, t', HashOf(hash, t'[i].entry.value.0), i);
  }

  lemma StoredDiffer<K, V>(t: seq<Slot<K, V>>, hash: K -> nat, m: map<K, V>, k: K, v: V, idx: nat, i: nat, j: nat)
    requires |t| > 3 && Stands(t, hash, m) && Looked(t, hash, m, k, idx) && 1 <= i < j < |t|
    requires var t' := Written(t, hash, idx, k, v); Used(t', i) && Used(t', j)
    ensures var t' := Written(t, hash, idx, k, v);
      t'[i].entry.Some? && t'[j].entry.Some? && t'[i].entry.value.0 != t'[j].entry.value.0
  {
    hide Reached, Looked, Stands;
    LookedIn(t, hash, m, k, idx);
    HoldsAfter(t, hash, m, k, v, idx, i);
    HoldsAfter(t, hash, m, k, v, idx, j);
    if i != idx && j != idx {
      SameSlot(t, hash, m, i, j);
    }
  }

  lemma StoredThere<K, V>(t: seq<Slot<K, V>>, hash: K -> nat, m: map<K, V>, k: K, v: V, idx: nat, k': K)
    requires |t| > 3 && Stands(t, hash, m) && Looked(t, hash, m, k, idx) && k' in Put(hash, m, k, v)
    ensures exists i: nat :: 1 <= i < |t| && IsKey(Written(t, hash, idx, k, v), i, k')
  {
    hide Reached, Holds;
    var t' := Written(t, hash, idx, k, v);
    UsedStays(t, hash, m, k, v, idx);
    if k' == k && Used(t', idx) {
      assert IsKey(t', idx, k);
    } else {
      var i: nat :| 1 <= i < |t| && IsKey(t, i, k');
      assert IsKey(t', i, k');
    }
  }

  /** Storing an entry where its lookup ended keeps the table in order. */
  lemma StoreStands<K, V>(t: seq<Slot<K, V>>, hash: K -> nat, m: map<K, V>, k: K, v: V, idx: nat)
    requires |t| > 3 && Stands(t, hash, m) && Looked(t, hash, m, k, idx)
    ensures Stands(Written(t, hash, idx, k, v), hash, Put(hash, m, k, v))
  {
    LookedIn(t, hash, m, k, idx);
    var t', m' := Written(t, hash, idx, k, v), Put(hash, m, k, v);
    assert Stands(t', hash, m') by {
      forall i: nat | 1 <= i < |t| && Used(t', i)
        ensures Holds(t', hash, m', i)
      {
        HoldsAfter(t, hash, m, k, v, idx, i);
      }
      forall i: nat, j: nat | 1 <= i < j < |t| && Used(t', i) && Used(t', j)
        ensures t'[i].entry.Some? && t'[j].entry.Some? && t'[i].entry.value.0 != t'[j].entry.value.0
      {
        StoredDiffer(t, hash, m, k, v, idx, i, j);
      }
      forall k' | k' in m'
        ensures exists i: nat :: 1 <= i < |t| && IsKey(t', i, k')
      {
        StoredThere(t, hash, m, k, v, idx, k');
      }
      hide Looked, Holds, Put, Written, IsKey, Used;
    }
  }

  // ----- room

  ghost function KeysUpTo<K, V>(t: seq<Slot<K, V>>, n: nat): set<K>
    requires n < |t| && forall i: nat :: 1 <= i <= n ==> t[i].entry.Some?
  {
    if n == 0 then {} else KeysUpTo(t, n - 1) + {t[n].entry.value.0}
  }

  lemma {:induction false} KeyFrom<K, V>(t: seq<Slot<K, V>>, n: nat, k: K)
    requires n < |t| && (forall i: nat :: 1 <= i <= n ==> t[i].entry.Some?) && k in KeysUpTo(t, n)
    ensures exists i: nat :: 1 <= i <= n && t[i].entry.value.0 == k
  {
    if k in KeysUpTo(t, n - 1) {
      KeyFrom(t, n - 1, k);
    }
  }

  /** No two slots have the same key. */
  lemma SameSlot<K, V>(t: seq<Slot<K, V>>, hash: K -> nat, m: map<K, V>, i: nat, n: nat)
    requires |t| > 3 && Stands(t, hash, m) && 1 <= i < |t| && 1 <= n < |t| && Used(t, i) && Used(t, n)
    ensures t[i].entry.Some? && t[n].entry.Some?
    ensures t[i].entry.value.0 == t[n].entry.value.0 ==> i == n
  {
    hide Reached;
    assert Holds(t, hash, m, i) && Holds(t, hash, m, n);
  }

  lemma {:induction false} KeysOfSlots<K, V>(t: seq<Slot<K, V>>, hash: K -> nat, m: map<K, V>, n: nat)
    requires |t| > 3 && Stands(t, hash, m) && n < |t|
    requires forall i: nat :: 1 <= i < |t| ==> Used(t, i) && t[i].entry.Some?
    ensures |KeysUpTo(t, n)| == n
  {
    hide Stands;
    if n > 0 {
      KeysOfSlots(t, hash, m, n - 1);
      var k := t[n].entry.value.0;
      if k in KeysUpTo(t, n - 1) {
        KeyFrom(t, n - 1, k);
        var i: nat :| 1 <= i <= n - 1 && t[i].entry.value.0 == k;
        SameSlot(t, hash, m, i, n);
      }
    }
  }

  /** There is an empty slot as long as there are fewer entries than slots. */
  lemma RoomLeft<K, V>(t: seq<Slot<K, V>>, hash: K -> nat, m: map<K, V>)
    requires |t| > 3 && Stands(t, hash, m) && |m| < |t| - 1
    ensures HasRoom(t)
  {
    hide Reached;
    if !HasRoom(t) {
      forall i: nat | 1 <= i < |t|
        ensures Used(t, i) && t[i].entry.Some? && t[i].entry.value.0 in m
      {
        assert Used(t, i);
        assert Holds(t, hash, m, i);
      }
      KeysOfSlots(t, hash, m, |t| - 1);
      forall k | k in KeysUpTo(t, |t| - 1)
        ensures k in m
      {
        KeyFrom(t, |t| - 1, k);
      }
      KeySetSize(KeysUpTo(t, |t| - 1), m.Keys);
    }
  }

  lemma {:induction false} KeySetSize<K>(a: set<K>, b: set<K>)
    requires a <= b
    ensures |a| <= |b|
    decreases a
  {
    if a != {} {
      var x :| x in a;
      KeySetSize(a - {x}, b - {x});
    }
  }

  lemma EmptyStands<K, V>(t: seq<Slot<K, V>>, hash: K -> nat)
    requires |t| > 3 && forall i: nat :: i < |t| ==> t[i].hval == 0
    ensures Stands(t, hash, map[])
  {}

  // ----- the table

  class Table<K(==), V> {
    const hash: K -> nat
    var nslots: nat
    var table: array<Slot<K, V>>
    ghost var contents: map<K, V>

    /** An empty table for `nelems` entries; the size is computed in size_t. */
    constructor (hash: K -> nat, nelems: nat)
      requires nelems < (TWO64 - 1) / 3 * 2
      ensures this.hash == hash && Valid() && fresh(table) && contents == map[]
      ensures LeastPrime(nslots, Wanted(nelems))
      ensures 3 * nelems < TWO64 ==> LeastPrime(nslots, if nelems < 7 then 10 else 3 * nelems / 2)
    {
      this.hash := hash;
      var size := nelems * 3 % TWO64 / 2;
      if size < 10 {
        size := 10;
      }
      PrimeIsThere(nelems);
      var n := NextPrime(size);
      nslots := n;
      table := new Slot<K, V>[n + 1](_ => Slot(0, None));
      contents := map[];
      new;
      EmptyStands(table[..], hash);
    }

    ghost predicate Valid()
      reads this, table
    {
      && nslots > 2 && IsPrime(nslots) && table.Length == nslots + 1
      && Stands(table[..], hash, contents)
    }

    /**
     * fshash_lookup(): the slot of `k`, or else the empty slot where it would go.  `bare` says whether an entry that is
     * not there was compared with the key: the empty slot where the search ends has the hash zero too.
     */
    method Lookup(k: K) returns (idx: nat, ghost bare: bool)
      requires Valid() && (HasRoom(table[..]) || k in contents)
      ensures Looked(table[..], hash, contents, k, idx)
      ensures bare <==>
        hash(k) == 0 && table[1].hval != 0 && table[idx].entry.None?
    {
      hide IsPrime, Probe, Stands, HasRoom, Looked, HashOf;
      HashOfKey(k);
      ghost var t := table[..];
      var hval := HashOf(hash, k);
      ghost var last := Goal(t, hash, contents, k);
      idx, bare := 1 + hval % nslots, false;
      ProbeStart(hval, nslots);
      EntriesThere(t, hash, contents, k);
      if table[idx].hval == 0 || (table[idx].hval == hval && HasKey(idx, k)) {
        PassedOne(t, hval, k, 0);
        LookupDone(t, hash, contents, k, 0);
        LookedIn(t, hash, contents, k, idx);
      } else {
        idx, bare := Search(k, idx, last);
      }
    }

    lemma HashOfKey(k: K)
      ensures HashOf(hash, k) == hash(k)
    {}

    /** The loop of the lookup, from a first slot with another entry on. */
    method Search(k: K, first: nat, ghost last: nat) returns (idx: nat, ghost bare: bool)
      requires Valid() && last < nslots && first == ProbeIn(table[..], HashOf(hash, k), 0)
      requires Used(table[..], first) && !IsKey(table[..], first, k)
      requires var goal := ProbeIn(table[..], HashOf(hash, k), last);
        !Used(table[..], goal) || IsKey(table[..], goal, k)
      ensures Looked(table[..], hash, contents, k, idx)
      ensures bare <==> HashOf(hash, k) == 0 && table[idx].entry.None?
    {
      hide IsPrime, Probe, Stands, Looked, HashOf, Reached, Passed, Step, Back;
      ghost var t := table[..];
      var hval := HashOf(hash, k);
      EntriesThere(t, hash, contents, k);
      PassedOne(t, hval, k, 0);
      ghost var j := 0;
      idx := first;
      var step := Step(hval, nslots);
      while true
        invariant j < last && idx == ProbeIn(t, hval, j) && Passed(t, hval, k, j) && Used(t, idx) && !IsKey(t, idx, k)
        decreases last - j
      {
        PassedOne(t, hval, k, j);
        ProbeStep(hval, nslots, j);
        idx := Back(idx, step, nslots);
        j := j + 1;
        bare := table[idx].hval == hval && table[idx].entry.None?;
        if (table[idx].hval == hval && HasKey(idx, k)) || table[idx].hval == 0 {
          break;
        }
      }
      LookupDone(t, hash, contents, k, j);
      LookedIn(t, hash, contents, k, idx);
    }

    predicate HasKey(i: nat, k: K)
      requires i < table.Length
      reads this, table
    {
      table[i].entry.Some? && table[i].entry.value.0 == k
    }

    /** Stores `v` for `k` in the slot that a lookup returned. */
    method Store(idx: nat, k: K, v: V)
      requires Valid() && Looked(table[..], hash, contents, k, idx)
      modifies this`contents, table
      ensures Valid() && contents == if hash(k) == 0 then old(contents) else old(contents)[k := v]
    {
      hide IsPrime, Stands, Looked;
      StoreStands(table[..], hash, contents, k, v, idx);
      assert 1 <= idx < table.Length by { LookedIn(table[..], hash, contents, k, idx); }
      table[idx] := Slot(HashOf(hash, k), Some((k, v)));
      contents := Put(hash, contents, k, v);
      assert table[..] == Written(old(table[..]), hash, idx, k, v);
    }

    /** fshash_insert(): adds an entry unless its key is there; the result is then -1. */
    method Insert(k: K, v: V) returns (r: int)
      requires Valid() && (HasRoom(table[..]) || k in contents)
      modifies this`contents, table
      ensures Valid()
      ensures r == if k in old(contents) then -1 else 0
      ensures contents == if k in old(contents) || hash(k) == 0 then old(contents) else old(contents)[k := v]
    {
      var idx, _ := Lookup(k);
      if table[idx].hval != 0 {
        return -1;
      }
      Store(idx, k, v);
      r := 0;
    }

    /** fshash_overwrite(): adds an entry, in place of one with its key if there is one. */
    method Overwrite(k: K, v: V) returns (r: int)
      requires Valid() && (HasRoom(table[..]) || k in contents)
      modifies this`contents, table
      ensures Valid() && r == 0 && contents == if hash(k) == 0 then old(contents) else old(contents)[k := v]
    {
      var idx, _ := Lookup(k);
      Store(idx, k, v);
      r := 0;
    }

    /** fshash_find() */
    method Find(k: K) returns (r: Option<V>)
      requires Valid() && (HasRoom(table[..]) || k in contents)
      ensures r == if k in contents then Some(contents[k]) else None
    {
      var idx, _ := Lookup(k);
      if table[idx].hval == 0 {
        return None;
      }
      assert Holds(table[..], hash, contents, idx);
      r := Some(table[idx].entry.value.1);
    }
  }

  lemma LookedIn<K, V>(t: seq<Slot<K, V>>, hash: K -> nat, m: map<K, V>, k: K, idx: nat)
    requires |t| > 3 && Looked(t, hash, m, k, idx)
    ensures 1 <= idx < |t| && Used(t, idx) == (k in m)
  {}

  /** fshash_init(): no table when the number of entries is out of range. */
  method Init<K(==), V>(hash: K -> nat, nelems: nat) returns (t: Table?<K, V>)
    ensures t == null <==> nelems >= (TWO64 - 1) / 3 * 2
    ensures t != null ==>
      && fresh(t) && fresh(t.table) && t.hash == hash && t.Valid() && t.contents == map[]
      && LeastPrime(t.nslots, Wanted(nelems))
      && (3 * nelems < TWO64 ==> LeastPrime(t.nslots, if nelems < 7 then 10 else 3 * nelems / 2))
  {
    if nelems >= (TWO64 - 1) / 3 * 2 {
      return null;
    }
    t := new Table<K, V>(hash, nelems);
  }

  // ----- a table is big enough for what it was made for

  /** The size asked for is not below the number of entries exactly up to a third of the range of size_t. */
  lemma WantedIff(nelems: nat)
    requires nelems < (TWO64 - 1) / 3 * 2
    ensures Wanted(nelems) >= nelems <==> nelems <= (TWO64 - 1) / 3
  {}

  /** There is always a prime to be found. */
  lemma PrimeIsThere(nelems: nat)
    requires nelems < (TWO64 - 1) / 3 * 2
    ensures PrimeFits(Wanted(nelems))
  {
    hide IsPrime;
    LargePrimesArePrime();
    assert Wanted(nelems) <= HIGH_PRIME < TWO64;
  }

  /** A table has no fewer slots than entries it was made for exactly up to a third of the range of size_t. */
  lemma SlotsIff(nelems: nat, nslots: nat)
    requires nelems < (TWO64 - 1) / 3 * 2 && LeastPrime(nslots, Wanted(nelems))
    ensures nslots >= nelems <==> nelems <= (TWO64 - 1) / 3
  {
    hide IsPrime;
    LargePrimesArePrime();
    var from := Wanted(nelems);
    if nelems > (TWO64 - 1) / 3 {
      if from <= LOW_PRIME {
        assert nslots <= LOW_PRIME < nelems;
      } else {
        assert from <= HIGH_PRIME;
        assert nslots <= HIGH_PRIME < nelems;
      }
    }
  }

  /** From the first number of entries for which it wraps, the table gets 11 slots. */
  lemma WrappedSlots(nelems: nat, nslots: nat)
    requires (TWO64 - 1) / 3 < nelems <= (TWO64 - 1) / 3 + 7
    ensures LeastPrime(nslots, Wanted(nelems)) <==> nslots == 11
    ensures nelems > 11
  {
    assert Wanted(nelems) == 10;
    ElevenIsPrime();
    EvenNotPrime(10);
  }

  lemma ElevenIsPrime()
    ensures IsPrime(11)
  {
    forall d: nat | 2 <= d < 11
      ensures !Factor(d, 11)
    {
      assert d == 2 || d == 3 || d == 4 || d == 5 || d == 6 || d == 7 || d == 8 || d == 9 || d == 10;
    }
  }

  /** A table in which a lookup of the key zero, whose hash is zero, passes an entry and meets slots without one. */
  lemma ZeroHashMeetsEmpty()
    ensures var t: seq<Slot<nat, nat>> := [Slot(0, None), Slot(11, Some((11, 5)))] + seq(10, _ => Slot(0, None));
      && |t| == 12 && Stands(t, x => x, map[11 := 5]) && HasRoom(t) && IsPrime(|t| - 1)
      && t[1].hval != 0 && forall i: nat :: 2 <= i < |t| ==> t[i].entry.None?
  {
    ElevenIsPrime();
    var t: seq<Slot<nat, nat>> := [Slot(0, None), Slot(11, Some((11, 5)))] + seq(10, _ => Slot(0, None));
    assert ProbeIn(t, 11, 0) == 1 && UsedBefore(t, 11, 0);
    assert Reached(t, 11, 1);
    assert IsKey(t, 1, 11) && !Used(t, 2);
  }

  /** Entries stored one after the other, the later ones in place of earlier ones with their key. */
  function Stored<K, V>(hash: K -> nat, items: seq<(K, V)>, n: nat): (m: map<K, V>)
    requires n <= |items|
    ensures |m| <= n
  {
    if n == 0 then map[]
    else
      var m := Stored(hash, items, n - 1);
      Put(hash, m, items[n - 1].0, items[n - 1].1)
  }

  /** A table made for `|items|` entries takes them all, and finds each key's last entry. */
  method StoreAll<K(==), V>(hash: K -> nat, items: seq<(K, V)>) returns (t: Table<K, V>)
    requires |items| <= (TWO64 - 1) / 3
    ensures t.Valid() && HasRoom(t.table[..]) && fresh(t) && fresh(t.table)
    ensures t.contents == Stored(hash, items, |items|)
  {
    hide IsPrime, Stands, HasRoom, PrimeFits;
    WantedIff(|items|);
    t := new Table<K, V>(hash, |items|);
    var i := 0;
    while i < |items|
      invariant i <= |items| < t.nslots && t.hash == hash && t.Valid() && fresh(t) && fresh(t.table)
      invariant t.contents == Stored(hash, items, i)
    {
      RoomLeft(t.table[..], hash, t.contents);
      var _ := t.Overwrite(items[i].0, items[i].1);
      i := i + 1;
    }
    RoomLeft(t.table[..], hash, t.contents);
  }

  /** What a key is found with is its last entry; entries whose hash is zero are lost. */
  lemma {:induction false} StoredIsLast<K, V>(hash: K -> nat, items: seq<(K, V)>, n: nat, k: K)
    requires n <= |items|
    ensures k in Stored(hash, items, n) <==> hash(k) != 0 && exists i :: 0 <= i < n && items[i].0 == k
    ensures k in Stored(hash, items, n) ==> exists i ::
      && 0 <= i < n && items[i] == (k, Stored(hash, items, n)[k])
      && forall j :: i < j < n ==> items[j].0 != k
  {
    hide Stored;
    StoredNone(hash, items);
    if n > 0 {
      StoredIsLast(hash, items, n - 1, k);
      StoredOne(hash, items, n - 1);
      if items[n - 1].0 == k {
        assert items[n - 1] == (k, items[n - 1].1);
      }
    }
  }

  lemma StoredNone<K, V>(hash: K -> nat, items: seq<(K, V)>)
    ensures Stored(hash, items, 0) == map[]
  {}

  lemma StoredOne<K, V>(hash: K -> nat, items: seq<(K, V)>, n: nat)
    requires n < |items|
    ensures Stored(hash, items, n + 1) == Put(hash, Stored(hash, items, n), items[n].0, items[n].1)
  {
  }

  lemma ProbeStart(h: nat, n: nat)
    requires n > 2
    ensures Probe(h, n, 0) == 1 + h % n
    ensures h == 0 ==> 1 + h % n == 1
  {}

  lemma ProbeStep(h: nat, n: nat, j: nat)
    requires n > 2
    ensures 1 <= Step(h, n) < n && Probe(h, n, j + 1) == Back(Probe(h, n, j), Step(h, n), n)
  {}

  /** The size that is asked for: half as much again as the number of entries, where that does not wrap. */
  function Wanted(nelems: nat): nat {
    var size := nelems * 3 % TWO64 / 2;
    if size < 10 then 10 else size
  }
}
