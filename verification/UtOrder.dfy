/** The application order of uthash: a doubly linked list of all elements, and its merge sort. */
module UtOrder {
  import opened MergeSpec
  import opened UtBuckets

  /** `s` is the list that starts at `s[0]` and ends at its last element. */
  ghost predicate Forward<K>(s: seq<Elem<K>>)
    reads s`next
  {
    && (forall i :: 0 <= i < |s| - 1 ==> s[i].next == s[i + 1])
    && (|s| > 0 ==> s[|s| - 1].next == null)
  }

  /** `s` is linked both ways, but for what follows its last element. */
  ghost predicate Emitted<K>(s: seq<Elem<K>>, list: Elem?<K>, tail: Elem?<K>)
    reads s`next, s`prev
  {
    && list == (if |s| == 0 then null else s[0])
    && tail == (if |s| == 0 then null else s[|s| - 1])
    && (|s| > 0 ==> s[0].prev == null)
    && (forall i :: 0 <= i < |s| - 1 ==> s[i].next == s[i + 1])
    && (forall i :: 0 < i < |s| ==> s[i].prev == s[i - 1])
  }

  /** `s` is the doubly linked list from `head` to `tail`. */
  ghost predicate InOrder<K>(s: seq<Elem<K>>, head: Elem?<K>, tail: Elem?<K>)
    reads s`next, s`prev
  {
    Emitted(s, head, tail) && Forward(s) && Distinct(s)
  }

  /** The list part of HASH_ADD_KEYPTR. */
  method Append<K>(head: Elem?<K>, tail: Elem?<K>, e: Elem<K>, ghost s: seq<Elem<K>>)
    returns (head': Elem<K>, tail': Elem<K>)
    requires InOrder(s, head, tail) && e !in s
    modifies e`next, e`prev, s`next
    ensures InOrder(s + [e], head', tail')
  {
    e.next := null;
    if head == null {
      head' := e;
      e.prev := null;
    } else {
      tail.next := e;
      e.prev := tail;
      head' := head;
    }
    tail' := e;
  }

  /** The list part of HASH_DELETE. */
  method Remove<K>(head: Elem?<K>, tail: Elem?<K>, e: Elem<K>, ghost s: seq<Elem<K>>, ghost at: nat)
    returns (head': Elem?<K>, tail': Elem?<K>)
    requires InOrder(s, head, tail) && at < |s| && s[at] == e
    modifies s`next, s`prev
    ensures InOrder(Without(s, at), head', tail')
  {
    assert at > 0 ==> e.prev == s[at - 1];
    assert at < |s| - 1 ==> e.next == s[at + 1];
    assert at == 0 ==> e.prev == null;
    assert at == |s| - 1 ==> e.next == null;
    head', tail' := head, tail;
    if e == tail {
      tail' := e.prev;
    }
    if e.prev != null {
      e.prev.next := e.next;
    } else {
      head' := e.next;
    }
    if e.next != null {
      e.next.prev := e.prev;
    }
    ghost var w := Without(s, at);
    WithoutDistinct(s, at);
    hide Distinct, Without;
    forall i | 0 <= i < |w| - 1
      ensures w[i].next == w[i + 1] && w[i + 1].prev == w[i]
    {
      if i < at {
        assert old(s[i].next) == s[i + 1];
      } else {
        assert old(s[i + 1].next) == s[i + 2];
      }
    }
  }

  // ----- HASH_SRT

  /** Appends an element to the list that a pass builds. */
  method Emit<K>(list: Elem?<K>, tail: Elem?<K>, e: Elem<K>, ghost out: seq<Elem<K>>)
    returns (list': Elem<K>, tail': Elem<K>)
    requires Emitted(out, list, tail) && e !in out && Distinct(out)
    modifies out`next, e`prev
    ensures Emitted(out + [e], list', tail')
  {
    if tail != null {
      tail.next := e;
      list' := list;
    } else {
      list' := e;
    }
    e.prev := tail;
    tail' := e;
  }

  /** A pass under way: what it has emitted, what is left of the first run, and the list from the second run on. */
  ghost predicate Passing<K>(out: seq<Elem<K>>, p: seq<Elem<K>>, q: seq<Elem<K>>, nodes: set<Elem<K>>) {
    && Distinct(out) && Distinct(p) && Distinct(q)
    && Elems(out) !! Elems(p) && Elems(out) !! Elems(q) && Elems(p) !! Elems(q)
    && Elems(out) + Elems(p) + Elems(q) == nodes
  }

  /** `p` can be walked from its first element to its last. */
  ghost predicate Run<K>(p: seq<Elem<K>>)
    reads p`next
  {
    forall i :: 0 <= i < |p| - 1 ==> p[i].next == p[i + 1]
  }

  function First<K>(s: seq<Elem<K>>): Elem?<K> {
    if |s| == 0 then null else s[0]
  }

  lemma ElemsOf<K>(s: seq<Elem<K>>)
    ensures forall x :: x in s <==> x in Elems(s)
  {}

  lemma TakeP<K>(out: seq<Elem<K>>, p: seq<Elem<K>>, q: seq<Elem<K>>, nodes: set<Elem<K>>)
    requires Passing(out, p, q, nodes) && |p| > 0
    ensures p[0] !in out && Passing(out + [p[0]], p[1..], q, nodes)
  {
    assert Elems(out + [p[0]]) == Elems(out) + {p[0]} by {
      assert (out + [p[0]])[|out|] == p[0];
      forall x | x in Elems(out)
        ensures x in Elems(out + [p[0]])
      {
        var i :| 0 <= i < |out| && out[i] == x;
        assert (out + [p[0]])[i] == x;
      }
    }
    assert Elems(p[1..]) == Elems(p) - {p[0]} by {
      forall x | x in Elems(p) - {p[0]}
        ensures x in Elems(p[1..])
      {
        var i :| 0 <= i < |p| && p[i] == x;
        assert p[1..][i - 1] == x;
      }
    }
  }

  lemma Swapped<K>(out: seq<Elem<K>>, p: seq<Elem<K>>, q: seq<Elem<K>>, nodes: set<Elem<K>>)
    requires Passing(out, p, q, nodes)
    ensures Passing(out, q, p, nodes)
  {}

  /** What is emitted when the runs `p` and the first `m` elements of `q` have been merged. */
  ghost function Merged<K>(cmp: (Elem<K>, Elem<K>) -> int, out: seq<Elem<K>>, p: seq<Elem<K>>, q: seq<Elem<K>>,
                           m: nat): seq<Elem<K>>
    requires m <= |q|
  {
    out + Merge(cmp, p, q[..m])
  }

  lemma MergedP<K>(cmp: (Elem<K>, Elem<K>) -> int, out: seq<Elem<K>>, p: seq<Elem<K>>, q: seq<Elem<K>>, m: nat)
    requires m <= |q| && |p| > 0 && (m == 0 || cmp(p[0], q[0]) <= 0)
    ensures Merged(cmp, out + [p[0]], p[1..], q, m) == Merged(cmp, out, p, q, m)
  {
    MergeFirst(cmp, out, p, q[..m]);
  }

  lemma MergedQ<K>(cmp: (Elem<K>, Elem<K>) -> int, out: seq<Elem<K>>, p: seq<Elem<K>>, q: seq<Elem<K>>, m: nat)
    requires 0 < m <= |q| && (|p| == 0 || cmp(p[0], q[0]) > 0)
    ensures Merged(cmp, out + [q[0]], p, q[1..], m - 1) == Merged(cmp, out, p, q, m)
    ensures q[1..][m - 1..] == q[m..]
  {
    MergeSecond(cmp, out, p, q[..m]);
    assert q[1..][..m - 1] == q[..m][1..];
  }

  lemma MergedAll<K>(cmp: (Elem<K>, Elem<K>) -> int, out: seq<Elem<K>>, q: seq<Elem<K>>)
    ensures Merged(cmp, out, [], q, 0) == out && q[0..] == q
  {}

  /** Where the walk goes on after the first element of a run. */
  lemma RunOn<K>(p: seq<Elem<K>>)
    requires Run(p) && |p| > 0
    ensures |p| > 1 ==> p[0].next == p[1]
    ensures Run(p[1..])
  {}

  lemma ForwardOn<K>(q: seq<Elem<K>>)
    requires Forward(q) && |q| > 0
    ensures q[0].next == First(q[1..])
    ensures Forward(q[1..])
  {}

  /** Emits the first element of `p`, which leaves the links of the others. */
  method EmitFirst<K>(list: Elem?<K>, tail: Elem?<K>, e: Elem<K>, ghost out: seq<Elem<K>>,
                      ghost p: seq<Elem<K>>, ghost q: seq<Elem<K>>, ghost nodes: set<Elem<K>>)
    returns (list': Elem<K>, tail': Elem<K>)
    requires Emitted(out, list, tail) && Passing(out, p, q, nodes) && |p| > 0 && e == p[0]
    modifies nodes`next, nodes`prev
    ensures Emitted(out + [e], list', tail') && Passing(out + [e], p[1..], q, nodes)
    ensures forall x :: x in p || x in q ==> x.next == old(x.next)
  {
    TakeP(out, p, q, nodes);
    ElemsOf(out);
    ElemsOf(p);
    ElemsOf(q);
    list', tail' := Emit(list, tail, e, out);
  }

  lemma Kept<K>(p: seq<Elem<K>>)
    ensures forall i :: 0 <= i < |p| ==> p[i] in p
    ensures |p| > 0 ==> forall x :: x in p[1..] ==> x in p
  {}

  /** Takes the next element from the first run. */
  method TakeFirst<K>(list0: Elem?<K>, tail0: Elem?<K>, p0: Elem<K>, ghost out: seq<Elem<K>>, ghost ps: seq<Elem<K>>,
                      ghost qs: seq<Elem<K>>, ghost nodes: set<Elem<K>>)
    returns (list: Elem?<K>, tail: Elem?<K>, p: Elem?<K>)
    requires Emitted(out, list0, tail0) && Passing(out, ps, qs, nodes)
    requires Run(ps) && |ps| > 0 && p0 == ps[0] && Forward(qs)
    modifies nodes`next, nodes`prev
    ensures Emitted(out + [p0], list, tail) && Passing(out + [p0], ps[1..], qs, nodes)
    ensures Run(ps[1..]) && (|ps| > 1 ==> p == ps[1]) && Forward(qs)
  {
    hide Emitted, Passing, Run, Forward;
    Kept(ps);
    RunOn(ps);
    p := p0.next;
    list, tail := EmitFirst(list0, tail0, p0, out, ps, qs, nodes);
  }

  /** Takes the next element from the second run. */
  method TakeSecond<K>(list0: Elem?<K>, tail0: Elem?<K>, q0: Elem<K>, ghost out: seq<Elem<K>>, ghost ps: seq<Elem<K>>,
                       ghost qs: seq<Elem<K>>, ghost nodes: set<Elem<K>>)
    returns (list: Elem?<K>, tail: Elem?<K>, q: Elem?<K>)
    requires Emitted(out, list0, tail0) && Passing(out, ps, qs, nodes)
    requires Run(ps) && |qs| > 0 && q0 == qs[0] && Forward(qs)
    modifies nodes`next, nodes`prev
    ensures Emitted(out + [q0], list, tail) && Passing(out + [q0], ps, qs[1..], nodes)
    ensures Run(ps) && q == First(qs[1..]) && Forward(qs[1..])
  {
    hide Emitted, Passing, Run, Forward;
    Kept(qs);
    ForwardOn(qs);
    q := q0.next;
    Swapped(out, ps, qs, nodes);
    list, tail := EmitFirst(list0, tail0, q0, out, qs, ps, nodes);
    Swapped(out + [q0], qs[1..], ps, nodes);
  }

  /** Merges the run at `p` with the next `insize` elements, or fewer, from `q` on. */
  method MergeRuns<K>(list0: Elem?<K>, tail0: Elem?<K>, p0: Elem?<K>, psize0: nat, q0: Elem?<K>, insize: nat,
                      cmp: (Elem<K>, Elem<K>) -> int, ghost out0: seq<Elem<K>>, ghost ps0: seq<Elem<K>>,
                      ghost qs0: seq<Elem<K>>,
                      ghost nodes: set<Elem<K>>)
    returns (list: Elem?<K>, tail: Elem?<K>, q: Elem?<K>, ghost out: seq<Elem<K>>, ghost qs: seq<Elem<K>>)
    requires Emitted(out0, list0, tail0) && Passing(out0, ps0, qs0, nodes)
    requires Run(ps0) && psize0 == |ps0| && (psize0 > 0 ==> p0 == ps0[0]) && Forward(qs0) && q0 == First(qs0)
    modifies nodes`next, nodes`prev
    ensures Emitted(out, list, tail) && Passing(out, [], qs, nodes) && Forward(qs) && q == First(qs)
    ensures qs == qs0[Min(insize, |qs0|)..] && out == Merged(cmp, out0, ps0, qs0, Min(insize, |qs0|))
  {
    hide Emitted, Passing, Merged, Run, Forward;
    list, tail, q, out, qs := list0, tail0, q0, out0, qs0;
    ghost var ps := ps0;
    var p, psize, qsize := p0, psize0, insize;
    while psize > 0 || (qsize > 0 && q != null)
      invariant Emitted(out, list, tail) && Passing(out, ps, qs, nodes)
      invariant Run(ps) && psize == |ps| && (psize > 0 ==> p == ps[0]) && Forward(qs) && q == First(qs)
      invariant Merged(cmp, out, ps, qs, Min(qsize, |qs|)) == Merged(cmp, out0, ps0, qs0, Min(insize, |qs0|))
      invariant qs[Min(qsize, |qs|)..] == qs0[Min(insize, |qs0|)..]
      decreases psize + qsize
    {
      ghost var m := Min(qsize, |qs|);
      if psize > 0 && (qsize == 0 || q == null || cmp(p, q) <= 0) {
        MergedP(cmp, out, ps, qs, m);
        ghost var e := p;
        list, tail, p := TakeFirst(list, tail, p, out, ps, qs, nodes);
        out, ps, psize := out + [e], ps[1..], psize - 1;
      } else {
        MergedQ(cmp, out, ps, qs, m);
        ghost var e := q;
        list, tail, q := TakeSecond(list, tail, q, out, ps, qs, nodes);
        out, qs, qsize := out + [e], qs[1..], qsize - 1;
      }
    }
    MergedAll(cmp, out, qs);
  }

  /** Counts the elements of the next run, and finds the one after it. */
  method SkipRun<K>(p: Elem<K>, insize: nat, ghost rest: seq<Elem<K>>) returns (psize: nat, q: Elem?<K>)
    requires insize > 0 && Forward(rest) && |rest| > 0 && p == rest[0]
    ensures psize == Min(insize, |rest|) && q == First(rest[psize..])
  {
    q := p;
    psize := 0;
    var i := 0;
    while i < insize
      invariant i == psize <= insize && i < |rest| && q == rest[i]
    {
      psize := psize + 1;
      q := q.next;
      assert q == First(rest[psize..]);
      if q == null {
        assert psize == |rest|;
        break;
      }
      i := i + 1;
    }
  }

  lemma SplitRun<K>(out: seq<Elem<K>>, rest: seq<Elem<K>>, p: nat, nodes: set<Elem<K>>)
    requires Passing(out, [], rest, nodes) && p <= |rest| && Forward(rest)
    ensures Passing(out, rest[..p], rest[p..], nodes) && Run(rest[..p]) && Forward(rest[p..])
  {
    assert Elems(rest) == Elems(rest[..p]) + Elems(rest[p..]) by {
      forall x | x in Elems(rest)
        ensures x in Elems(rest[..p]) + Elems(rest[p..])
      {
        var i :| 0 <= i < |rest| && rest[i] == x;
        if i < p {
          assert rest[..p][i] == x;
        } else {
          assert rest[p..][i - p] == x;
        }
      }
    }
  }

  /** What one merge adds to the output of a pass. */
  lemma PassStep<K>(cmp: (Elem<K>, Elem<K>) -> int, rest: seq<Elem<K>>, sz: nat, p: nat, out0: seq<Elem<K>>,
                    out: seq<Elem<K>>)
    requires sz > 0 && |rest| > 0 && p == Min(sz, |rest|)
    requires out == Merged(cmp, out0, rest[..p], rest[p..], Min(sz, |rest| - p))
    ensures var left := rest[p..][Min(sz, |rest| - p)..];
      && out + Pass(cmp, left, sz) == out0 + Pass(cmp, rest, sz)
      && Merges(|rest|, sz) == 1 + Merges(|left|, sz)
  {
    hide Merge, Pass;
    var m := Min(sz, |rest| - p);
    assert rest[p..][..m] == rest[p..p + m] && rest[p..][m..] == rest[p + m..];
    PassOne(cmp, rest, sz);
    Associate(out0, Merge(cmp, rest[..p], rest[p..p + m]), Pass(cmp, rest[p + m..], sz));
  }

  lemma StartPass<K>(s: seq<Elem<K>>)
    requires Distinct(s)
    ensures Passing([], [], s, Elems(s)) && Emitted<K>([], null, null)
  {}

  /** Ends the list that a pass has built. */
  method EndPass<K>(list: Elem?<K>, tail: Elem<K>, ghost out: seq<Elem<K>>, ghost nodes: set<Elem<K>>)
    requires Emitted(out, list, tail) && Passing(out, [], [], nodes)
    modifies nodes`next
    ensures InOrder(out, list, tail) && Elems(out) == nodes
  {
    ElemsOf(out);
    tail.next := null;
  }

  lemma LastOf<K>(s: seq<Elem<K>>, list: Elem?<K>, tail: Elem?<K>)
    requires Emitted(s, list, tail)
    ensures tail == null <==> s == []
  {}

  /** One pass of the merge sort over the list at `first`. */
  method SortPass<K>(first: Elem<K>, insize: nat, cmp: (Elem<K>, Elem<K>) -> int, ghost s: seq<Elem<K>>)
    returns (list: Elem?<K>, tail: Elem?<K>, nmerges: nat, ghost out: seq<Elem<K>>)
    requires insize > 0 && |s| > 0 && Forward(s) && Distinct(s) && first == s[0]
    modifies Elems(s)`next, Elems(s)`prev
    ensures InOrder(out, list, tail) && Elems(out) == Elems(s)
    ensures out == Pass(cmp, s, insize) && nmerges == Merges(|s|, insize)
  {
    hide Emitted, Passing, Merged, Run, Forward, Pass, Merges, InOrder, Elems;
    list, tail, nmerges, out := null, null, 0, [];
    var p: Elem?<K> := first;
    ghost var nodes := Elems(s);
    ghost var rest := s;
    StartPass(s);
    while p != null
      invariant Emitted(out, list, tail) && Passing(out, [], rest, nodes) && Forward(rest) && p == First(rest)
      invariant out + Pass(cmp, rest, insize) == Pass(cmp, s, insize)
      invariant nmerges + Merges(|rest|, insize) == Merges(|s|, insize)
      decreases |rest|
    {
      nmerges := nmerges + 1;
      var psize, q := SkipRun(p, insize, rest);
      SplitRun(out, rest, psize, nodes);
      ghost var rest0, out0 := rest, out;
      list, tail, q, out, rest :=
        MergeRuns(list, tail, p, psize, q, insize, cmp, out0, rest0[..psize], rest0[psize..], nodes);
      PassStep(cmp, rest0, insize, psize, out0, out);
      p := q;
    }
    PassEmpty(cmp, rest, insize);
    LastOf(out, list, tail);
    EndPass(list, tail, out, nodes);
  }

  /**
   * HASH_SRT: sorts the application order in place, tail and back links included; the bucket chains stay as they are.
   */
  method Sort<K>(head: Elem<K>, tail: Elem?<K>, cmp: (Elem<K>, Elem<K>) -> int, ghost s: seq<Elem<K>>)
    returns (head': Elem?<K>, tail': Elem?<K>, ghost r: seq<Elem<K>>)
    requires InOrder(s, head, tail) && |s| > 0
    modifies Elems(s)`next, Elems(s)`prev
    ensures InOrder(r, head', tail') && Elems(r) == Elems(s) && |r| == |s|
    ensures r == MergeSpec.Sort(cmp, s, 1)
  {
    hide Pass, Merges, Emitted, Forward, Elems;
    head', tail', r := head, tail, s;
    var insize := 1;
    while true
      invariant insize > 0 && InOrder(r, head', tail') && Elems(r) == Elems(s) && |r| == |s|
      invariant MergeSpec.Sort(cmp, r, insize) == MergeSpec.Sort(cmp, s, 1)
      decreases |r| - insize
    {
      ghost var before := r;
      var nmerges;
      HeadIs(r, head', tail');
      head', tail', nmerges, r := SortPass(head', insize, cmp, before);
      SortOne(cmp, before, insize);
      if nmerges <= 1 {
        break;
      }
      insize := 2 * insize;
    }
  }

  lemma HeadIs<K>(s: seq<Elem<K>>, head: Elem?<K>, tail: Elem?<K>)
    requires InOrder(s, head, tail)
    ensures head == First(s)
  {}

  lemma SortOne<T>(cmp: (T, T) -> int, s: seq<T>, sz: nat)
    requires sz > 0
    ensures |Pass(cmp, s, sz)| == |s|
    ensures MergeSpec.Sort(cmp, s, sz) ==
      if Merges(|s|, sz) <= 1 then Pass(cmp, s, sz) else MergeSpec.Sort(cmp, Pass(cmp, s, sz), 2 * sz)
    ensures Merges(|s|, sz) > 1 ==> |s| > 2 * sz
  {}

  /** HASH_SRT gives the one stable sort of the elements. */
  lemma SortedOrder<K>(cmp: (Elem<K>, Elem<K>) -> int, s: seq<Elem<K>>, r: seq<Elem<K>>)
    requires r == MergeSpec.Sort(cmp, s, 1) && Orders(cmp, Elems(s))
    ensures Sorted(cmp, r) && multiset(r) == multiset(s)
    ensures forall g | g in s :: Class(cmp, g, r) == Class(cmp, g, s)
  {
    SortIsStableSort(cmp, Elems(s), s);
  }
}
