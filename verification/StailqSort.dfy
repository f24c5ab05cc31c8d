/** The singly linked tail queues of <sys/queue.h> and their merge sort, STAILQ_SORT. */
module StailqSort {
  import opened MergeSpec

  class Node<T> {
    const item: T
    var next: Node?<T>

    constructor (item: T)
      ensures this.item == item && next == null
    {
      this.item, next := item, null;
    }
  }

  /** Where the pointer to the next element to come is: in the head of a queue, or in an element. */
  datatype Link<T> = FirstOf(q: Queue<T>) | NextOf(n: Node<T>)

  ghost predicate Chain<T>(s: seq<Node<T>>)
    reads s
  {
    && (forall i :: 0 <= i < |s| - 1 ==> s[i].next == s[i + 1])
    && (|s| > 0 ==> s[|s| - 1].next == null)
  }

  ghost predicate Distinct<T>(s: seq<Node<T>>) {
    forall i, j :: 0 <= i < j < |s| ==> s[i] != s[j]
  }

  class Queue<T> {
    var first: Node?<T>
    var last: Link<T>

    constructor ()
      ensures IsList([])
    {
      first, last := null, FirstOf(this);
    }

    /** The queue is the list of the nodes in `s`, in order. */
    ghost predicate IsList(s: seq<Node<T>>)
      reads this, s
    {
      && Chain(s)
      && first == (if |s| == 0 then null else s[0])
      && last == if |s| == 0 then FirstOf(this) else NextOf(s[|s| - 1])
    }

    method Init()
      modifies this
      ensures IsList([])
    {
      first, last := null, FirstOf(this);
    }

    method RemoveHead(ghost s: seq<Node<T>>)
      requires IsList(s) && |s| > 0 && Distinct(s)
      modifies this
      ensures IsList(s[1..])
    {
      assert forall i :: 0 <= i < |s[1..]| ==> s[1..][i] == s[i + 1];
      first := first.next;
      if first == null {
        last := FirstOf(this);
      }
    }

    method InsertTail(e: Node<T>, ghost s: seq<Node<T>>)
      requires IsList(s) && e !in s && Distinct(s)
      modifies this, e, s
      ensures IsList(s + [e])
      ensures forall n :: n in s && n != s[|s| - 1] ==> n.next == old(n.next)
    {
      e.next := null;
      match last {
        case FirstOf(q) => q.first := e;
        case NextOf(n) => n.next := e;
      }
      last := NextOf(e);
    }
  }

  ghost predicate Disjoint<T>(s: seq<Node<T>>, t: seq<Node<T>>) {
    forall i, j :: 0 <= i < |s| && 0 <= j < |t| ==> s[i] != t[j]
  }

  /** Three queues that share no node. */
  ghost predicate Apart<T>(x: Queue<T>, xs: seq<Node<T>>, y: Queue<T>, ys: seq<Node<T>>, z: Queue<T>, zs: seq<Node<T>>)
    reads x, y, z, xs, ys, zs
  {
    && x != y && y != z && x != z
    && x.IsList(xs) && y.IsList(ys) && z.IsList(zs)
    && Distinct(xs) && Distinct(ys) && Distinct(zs)
    && Disjoint(xs, ys) && Disjoint(ys, zs) && Disjoint(xs, zs)
  }

  lemma ApartRotated<T>(x: Queue<T>, xs: seq<Node<T>>, y: Queue<T>, ys: seq<Node<T>>, z: Queue<T>, zs: seq<Node<T>>)
    requires Apart(x, xs, y, ys, z, zs)
    ensures Apart(y, ys, z, zs, x, xs)
  {}

  lemma ApartSwapped<T>(x: Queue<T>, xs: seq<Node<T>>, y: Queue<T>, ys: seq<Node<T>>, z: Queue<T>, zs: seq<Node<T>>)
    requires Apart(x, xs, y, ys, z, zs)
    ensures Apart(x, xs, z, zs, y, ys)
  {}

  lemma Front<T>(x: Queue<T>, xs: seq<Node<T>>, y: Queue<T>, ys: seq<Node<T>>, z: Queue<T>, zs: seq<Node<T>>)
    requires Apart(x, xs, y, ys, z, zs)
    ensures x.first == if |xs| == 0 then null else xs[0]
    ensures |xs| > 0 ==> xs[0].next == if |xs| > 1 then xs[1] else null
  {}

  ghost function Bag<T>(s: seq<Node<T>>): multiset<Node<T>> {
    multiset(s)
  }

  lemma BagMoved<T>(xs: seq<Node<T>>, ys: seq<Node<T>>)
    requires |xs| > 0
    ensures Bag(xs[1..]) + Bag(ys + [xs[0]]) == Bag(xs) + Bag(ys)
  {
    assert xs == [xs[0]] + xs[1..];
  }

  /** Removes the first node of `x` and appends it to `y`. */
  method Move<T>(x: Queue<T>, ghost xs: seq<Node<T>>, y: Queue<T>, ghost ys: seq<Node<T>>,
                 ghost z: Queue<T>, ghost zs: seq<Node<T>>, ghost nodes: set<Node<T>>)
    requires Apart(x, xs, y, ys, z, zs) && |xs| > 0 && Bag(xs) + Bag(ys) + Bag(zs) == multiset(nodes)
    modifies x, y, nodes
    ensures Apart(x, xs[1..], y, ys + [xs[0]], z, zs)
    ensures Bag(xs[1..]) + Bag(ys + [xs[0]]) + Bag(zs) == multiset(nodes)
  {
    BagMoved(xs, ys);
    Within(xs, ys, zs, nodes);
    var e := x.first;
    x.RemoveHead(xs);
    y.InsertTail(e, ys);
  }

  lemma Within<T>(xs: seq<Node<T>>, ys: seq<Node<T>>, zs: seq<Node<T>>, nodes: set<Node<T>>)
    requires Bag(xs) + Bag(ys) + Bag(zs) == multiset(nodes)
    ensures forall n :: n in xs || n in ys || n in zs ==> n in nodes
  {
    forall n | n in xs || n in ys || n in zs
      ensures n in nodes
    {
      assert n in Bag(xs) + Bag(ys) + Bag(zs);
    }
  }

  /** `b` followed by the merge of `a` with the first `m` nodes of `h`. */
  ghost function Merged<T>(cmp: (Node<T>, Node<T>) -> int, a: seq<Node<T>>, h: seq<Node<T>>, m: nat,
                           b: seq<Node<T>>): seq<Node<T>>
    requires m <= |h|
  {
    b + Merge(cmp, a, h[..m])
  }

  lemma MergeDone<T>(cmp: (Node<T>, Node<T>) -> int, h: seq<Node<T>>, b: seq<Node<T>>)
    ensures Merged(cmp, [], h, 0, b) == b && h[0..] == h
  {}

  lemma MergeTakesA<T>(cmp: (Node<T>, Node<T>) -> int, a: seq<Node<T>>, h: seq<Node<T>>, m: nat, b: seq<Node<T>>)
    requires m <= |h| && |a| > 0 && (m == 0 || cmp(a[0], h[0]) <= 0)
    ensures Merged(cmp, a[1..], h, m, b + [a[0]]) == Merged(cmp, a, h, m, b)
  {
    MergeFirst(cmp, b, a, h[..m]);
  }

  lemma MergeTakesH<T>(cmp: (Node<T>, Node<T>) -> int, a: seq<Node<T>>, h: seq<Node<T>>, m: nat, b: seq<Node<T>>)
    requires 0 < m <= |h| && (|a| == 0 || cmp(a[0], h[0]) > 0)
    ensures Merged(cmp, a, h[1..], m - 1, b + [h[0]]) == Merged(cmp, a, h, m, b)
    ensures h[1..][m - 1..] == h[m..]
  {
    MergeSecond(cmp, b, a, h[..m]);
    assert h[1..][..m - 1] == h[..m][1..];
  }

  /** Merges the run in `la` with the next `size` nodes, or fewer, of `head`, and appends them to `lb`. */
  method MergeRuns<T>(head: Queue<T>, ghost h0: seq<Node<T>>, la: Queue<T>, ghost a0: seq<Node<T>>,
                      lb: Queue<T>, ghost b0: seq<Node<T>>, psize: nat, size: nat, cmp: (Node<T>, Node<T>) -> int,
                      ghost nodes: set<Node<T>>)
    returns (ghost h: seq<Node<T>>, ghost b: seq<Node<T>>)
    requires Apart(head, h0, la, a0, lb, b0) && psize == |a0|
    requires Bag(h0) + Bag(a0) + Bag(b0) == multiset(nodes)
    modifies head, la, lb, nodes
    ensures Apart(head, h, la, [], lb, b) && Bag(h) + Bag([]) + Bag(b) == multiset(nodes)
    ensures h == h0[Min(size, |h0|)..] && b == Merged(cmp, a0, h0, Min(size, |h0|), b0)
  {
    ghost var a;
    hide Merged, Apart, Bag;
    h, a, b := h0, a0, b0;
    var p, q := la.first, head.first;
    var psz, qsz := psize, size;
    while psz > 0 || (qsz > 0 && q != null)
      invariant Apart(head, h, la, a, lb, b) && Bag(h) + Bag(a) + Bag(b) == multiset(nodes)
      invariant psz == |a| && p == la.first && q == head.first
      invariant Merged(cmp, a, h, Min(qsz, |h|), b) == Merged(cmp, a0, h0, Min(size, |h0|), b0)
      invariant h[Min(qsz, |h|)..] == h0[Min(size, |h0|)..]
      decreases psz + qsz
    {
      Front(head, h, la, a, lb, b);
      ApartRotated(head, h, la, a, lb, b);
      Front(la, a, lb, b, head, h);
      if psz > 0 && (qsz == 0 || q == null || cmp(p, q) <= 0) {
        MergeTakesA(cmp, a, h, Min(qsz, |h|), b);
        p := p.next;
        Move(la, a, lb, b, head, h, nodes);
        a, b := a[1..], b + [a[0]];
        psz := psz - 1;
        Front(la, a, lb, b, head, h);
        ApartRotated(la, a, lb, b, head, h);
        ApartRotated(lb, b, head, h, la, a);
      } else {
        MergeTakesH(cmp, a, h, Min(qsz, |h|), b);
        q := q.next;
        ApartSwapped(head, h, la, a, lb, b);
        Move(head, h, lb, b, la, a, nodes);
        h, b := h[1..], b + [h[0]];
        qsz := qsz - 1;
        Front(head, h, lb, b, la, a);
        ApartSwapped(head, h, lb, b, la, a);
      }
      Front(head, h, la, a, lb, b);
      ApartRotated(head, h, la, a, lb, b);
      Front(la, a, lb, b, head, h);
    }
    Front(head, h, la, a, lb, b);
    MergeDone(cmp, h, b);
  }

  /** Moves the first `size` nodes of `head`, or as many as there are, to the empty queue `la`. */
  method TakeRun<T>(head: Queue<T>, ghost h0: seq<Node<T>>, la: Queue<T>, ghost lb: Queue<T>, ghost b: seq<Node<T>>,
                    size: nat, ghost nodes: set<Node<T>>)
    returns (psize: nat, ghost h: seq<Node<T>>, ghost a: seq<Node<T>>)
    requires Apart(head, h0, la, [], lb, b) && Bag(h0) + Bag([]) + Bag(b) == multiset(nodes)
    modifies head, la, nodes
    ensures Apart(head, h, la, a, lb, b) && Bag(h) + Bag(a) + Bag(b) == multiset(nodes)
    ensures psize == |a| == Min(size, |h0|) && a == h0[..psize] && h == h0[psize..]
  {
    hide Apart, Bag;
    h, a := h0, [];
    psize := 0;
    var i := 0;
    Front(head, h, la, a, lb, b);
    while i < size && head.first != null
      invariant Apart(head, h, la, a, lb, b) && Bag(h) + Bag(a) + Bag(b) == multiset(nodes)
      invariant i == psize == |a| <= Min(size, |h0|) && a == h0[..psize] && h == h0[psize..]
      invariant head.first == if |h| == 0 then null else h[0]
    {
      psize := psize + 1;
      Move(head, h, la, a, lb, b, nodes);
      h, a := h[1..], a + [h[0]];
      Front(head, h, la, a, lb, b);
      i := i + 1;
    }
  }

  /** Sets up a queue that shares no node with two others. */
  lemma ApartInit<T>(head: Queue<T>, h: seq<Node<T>>, la: Queue<T>, lb: Queue<T>, b: seq<Node<T>>)
    requires head != la && la != lb && head != lb
    requires head.IsList(h) && lb.IsList(b) && la.IsList([])
    requires Distinct(h) && Distinct(b) && Disjoint(h, b)
    ensures Apart(head, h, la, [], lb, b)
  {}

  lemma ApartLists<T>(x: Queue<T>, xs: seq<Node<T>>, y: Queue<T>, ys: seq<Node<T>>, z: Queue<T>, zs: seq<Node<T>>)
    requires Apart(x, xs, y, ys, z, zs)
    ensures x.IsList(xs) && y.IsList(ys) && z.IsList(zs) && Distinct(xs) && Distinct(zs) && Disjoint(xs, zs)
  {}

  lemma PassStep<T>(cmp: (Node<T>, Node<T>) -> int, s: seq<Node<T>>, sz: nat, p: nat, b0: seq<Node<T>>, b: seq<Node<T>>)
    requires sz > 0 && |s| > 0 && p == Min(sz, |s|)
    requires b == Merged(cmp, s[..p], s[p..], Min(sz, |s| - p), b0)
    ensures var left := s[p..][Min(sz, |s| - p)..];
      && b + Pass(cmp, left, sz) == b0 + Pass(cmp, s, sz)
      && Merges(|s|, sz) == 1 + Merges(|left|, sz)
  {
    hide Merge, Pass;
    var m := Min(sz, |s| - p);
    assert s[p..][..m] == s[p..p + m] && s[p..][m..] == s[p + m..];
    PassOne(cmp, s, sz);
    Associate(b0, Merge(cmp, s[..p], s[p..p + m]), Pass(cmp, s[p + m..], sz));
    MergesOne(|s|, sz);
  }

  lemma MergesOne(n: nat, sz: nat)
    requires sz > 0 && n > 0
    ensures Merges(n, sz) == 1 + Merges(n - (Min(sz, n) + Min(sz, n - Min(sz, n))), sz)
  {}

  lemma NoNodes<T>(s: seq<Node<T>>)
    ensures Distinct<T>([]) && Disjoint(s, []) && Disjoint([], s)
    ensures Bag<T>([]) == multiset{}
  {}

  /** One pass over `head`, which it leaves empty; the nodes end up in `lb`. */
  method SortPass<T>(head: Queue<T>, ghost s: seq<Node<T>>, la: Queue<T>, lb: Queue<T>, sz: nat,
                     cmp: (Node<T>, Node<T>) -> int,
                     ghost nodes: set<Node<T>>)
    returns (nmerges: nat, ghost b: seq<Node<T>>)
    requires sz > 0 && head != la && la != lb && head != lb
    requires head.IsList(s) && Distinct(s) && Bag(s) == multiset(nodes)
    modifies head, la, lb, nodes
    ensures lb.IsList(b) && Distinct(b) && Bag(b) == multiset(nodes)
    ensures b == Pass(cmp, s, sz) && nmerges == Merges(|s|, sz)
  {
    hide Apart, Merged, Pass, Queue.IsList, Merges, Bag, Distinct, Disjoint;
    NoNodes(s);
    nmerges := 0;
    lb.Init();
    la.Init();
    ghost var h, a := s, [];
    b := [];
    ApartInit(head, h, la, lb, b);
    Front(head, h, la, [], lb, b);
    while head.first != null
      invariant Apart(head, h, la, [], lb, b) && Bag(h) + Bag([]) + Bag(b) == multiset(nodes)
      invariant b + Pass(cmp, h, sz) == Pass(cmp, s, sz)
      invariant nmerges + Merges(|h|, sz) == Merges(|s|, sz)
      invariant head.first == if |h| == 0 then null else h[0]
      decreases |h|
    {
      nmerges := nmerges + 1;
      ApartLists(head, h, la, [], lb, b);
      la.Init();
      ApartInit(head, h, la, lb, b);
      ghost var h0, b0 := h, b;
      var psz;
      psz, h, a := TakeRun(head, h0, la, lb, b, sz, nodes);
      h, b := MergeRuns(head, h, la, a, lb, b, psz, sz, cmp, nodes);
      PassStep(cmp, h0, sz, psz, b0, b);
      Front(head, h, la, [], lb, b);
    }
    ApartLists(head, h, la, [], lb, b);
  }

  /**
   * STAILQ_SORT: sorts a queue in place.  The head's pointer to its last link is right afterwards exactly if there
   * was something to sort; for an empty queue it is left pointing into a local variable.
   */
  method Sort<T>(head: Queue<T>, ghost s: seq<Node<T>>, cmp: (Node<T>, Node<T>) -> int) returns (ghost r: seq<Node<T>>)
    requires head.IsList(s) && Distinct(s)
    modifies head, s
    ensures r == MergeSpec.Sort(cmp, s, 1)
    ensures head.first == if |r| == 0 then null else r[0]
    ensures head.IsList(r) <==> |s| > 0
  {
    hide Pass, Merges, Queue.IsList, Bag;
    ghost var nodes := set n | n in s;
    BagOfDistinct(s, nodes);
    var la := new Queue<T>();
    var lb := new Queue<T>();
    var sz := 1;
    r := s;
    while true
      invariant sz > 0 && head.IsList(r) && Distinct(r) && Bag(r) == multiset(nodes) && |r| == |s|
      invariant MergeSpec.Sort(cmp, r, sz) == MergeSpec.Sort(cmp, s, 1)
      decreases |r| - sz
    {
      ghost var before := r;
      var nmerges;
      nmerges, r := SortPass(head, before, la, lb, sz, cmp, nodes);
      SortOne(cmp, before, sz);
      head.first := lb.first;
      head.last := lb.last;
      HeadTakes(head, lb, r);
      sz := 2 * sz;
      if nmerges <= 1 {
        break;
      }
    }
  }

  lemma SortOne<T>(cmp: (T, T) -> int, s: seq<T>, sz: nat)
    requires sz > 0
    ensures MergeSpec.Sort(cmp, s, sz) ==
      if Merges(|s|, sz) <= 1 then Pass(cmp, s, sz) else MergeSpec.Sort(cmp, Pass(cmp, s, sz), 2 * sz)
    ensures Merges(|s|, sz) > 1 ==> |s| > 2 * sz
    ensures |Pass(cmp, s, sz)| == |s|
  {}

  /** A head that takes over the links of a queue has its nodes; the last link is then right only if there are any. */
  lemma HeadTakes<T>(head: Queue<T>, lb: Queue<T>, b: seq<Node<T>>)
    requires head != lb && lb.IsList(b) && head.first == lb.first && head.last == lb.last
    ensures head.IsList(b) <==> |b| > 0
    ensures head.first == if |b| == 0 then null else b[0]
  {}

  lemma {:induction false} BagOfDistinct<T>(s: seq<Node<T>>, nodes: set<Node<T>>)
    requires Distinct(s) && nodes == set n | n in s
    ensures Bag(s) == multiset(nodes)
  {
    if |s| > 0 {
      var t := s[..|s| - 1];
      assert s == t + [s[|s| - 1]];
      BagOfDistinct(t, set n | n in t);
      assert nodes == (set n | n in t) + {s[|s| - 1]};
    } else {
      assert nodes == {};
    }
  }

  /** The whole of it: after STAILQ_SORT the queue holds the same nodes, sorted and stable. */
  lemma SortedQueue<T>(cmp: (Node<T>, Node<T>) -> int, s: seq<Node<T>>, r: seq<Node<T>>)
    requires r == MergeSpec.Sort(cmp, s, 1) && Orders(cmp, (set n | n in s))
    ensures Sorted(cmp, r) && multiset(r) == multiset(s)
    ensures forall g | g in s :: Class(cmp, g, r) == Class(cmp, g, s)
  {
    SortIsStableSort(cmp, (set n | n in s), s);
  }
}
