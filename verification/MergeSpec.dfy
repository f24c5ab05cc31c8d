/** Bottom-up merge sorting of sequences, and why it is a stable sort. */
module MergeSpec {

  /** The comparison orders the elements of `dom`. */
  ghost predicate Orders<T>(cmp: (T, T) -> int, dom: set<T>) {
    && (forall a, b | a in dom && b in dom :: cmp(a, b) <= 0 || cmp(b, a) <= 0)
    && (forall a, b, c | a in dom && b in dom && c in dom :: cmp(a, b) <= 0 && cmp(b, c) <= 0 ==> cmp(a, c) <= 0)
  }

  ghost predicate Within<T>(s: seq<T>, dom: set<T>) {
    forall i :: 0 <= i < |s| ==> s[i] in dom
  }

  /** The first of two sequences wins where their heads compare equal. */
  function Merge<T>(cmp: (T, T) -> int, p: seq<T>, q: seq<T>): (r: seq<T>)
    ensures |r| == |p| + |q|
    decreases |p| + |q|
  {
    if |p| == 0 then q
    else if |q| == 0 then p
    else if cmp(p[0], q[0]) <= 0 then [p[0]] + Merge(cmp, p[1..], q)
    else [q[0]] + Merge(cmp, p, q[1..])
  }

  function Min(a: nat, b: nat): nat { if a < b then a else b }

  /** One pass: each pair of neighbouring runs of `sz` elements is merged. */
  function Pass<T>(cmp: (T, T) -> int, s: seq<T>, sz: nat): (r: seq<T>)
    requires sz > 0
    ensures |r| == |s|
    decreases |s|
  {
    if |s| == 0 then []
    else
      var p := Min(sz, |s|);
      var q := p + Min(sz, |s| - p);
      Merge(cmp, s[..p], s[p..q]) + Pass(cmp, s[q..], sz)
  }

  function Merges(n: nat, sz: nat): (m: nat)
    requires sz > 0
    ensures m <= 1 <==> n <= 2 * sz
    ensures m == 0 <==> n == 0
  {
    if n == 0 then 0 else 1 + Merges(n - Min(n, 2 * sz), sz)
  }

  /** Passes with runs of doubling length, until a pass does at most one merge. */
  function Sort<T>(cmp: (T, T) -> int, s: seq<T>, sz: nat): (r: seq<T>)
    requires sz > 0
    ensures |r| == |s|
    decreases |s| - sz
  {
    var t := Pass(cmp, s, sz);
    if Merges(|s|, sz) <= 1 then t else Sort(cmp, t, 2 * sz)
  }

  lemma PassOne<T>(cmp: (T, T) -> int, s: seq<T>, sz: nat)
    requires sz > 0 && |s| > 0
    ensures var p := Min(sz, |s|);
      var q := p + Min(sz, |s| - p);
      Pass(cmp, s, sz) == Merge(cmp, s[..p], s[p..q]) + Pass(cmp, s[q..], sz)
  {
    hide Merge;
  }

  lemma SplitThree<T>(s: seq<T>, p: nat, q: nat)
    requires p <= q <= |s|
    ensures s == s[..p] + s[p..q] + s[q..]
    ensures multiset(s) == multiset(s[..p]) + multiset(s[p..q]) + multiset(s[q..])
  {
    assert s == s[..p] + s[p..q] + s[q..];
  }

  // ----- permutation

  lemma {:induction false} MergeKeeps<T>(cmp: (T, T) -> int, p: seq<T>, q: seq<T>)
    ensures multiset(Merge(cmp, p, q)) == multiset(p) + multiset(q)
    decreases |p| + |q|
  {
    if |p| > 0 && |q| > 0 {
      assert p == [p[0]] + p[1..] && q == [q[0]] + q[1..];
      if cmp(p[0], q[0]) <= 0 {
        MergeKeeps(cmp, p[1..], q);
      } else {
        MergeKeeps(cmp, p, q[1..]);
      }
    }
  }

  lemma {:induction false} PassKeeps<T>(cmp: (T, T) -> int, s: seq<T>, sz: nat)
    requires sz > 0
    ensures multiset(Pass(cmp, s, sz)) == multiset(s)
    decreases |s|
  {
    if |s| > 0 {
      var p := Min(sz, |s|);
      var q := p + Min(sz, |s| - p);
      hide Merge, Pass;
      PassOne(cmp, s, sz);
      MergeKeeps(cmp, s[..p], s[p..q]);
      PassKeeps(cmp, s[q..], sz);
      SplitThree(s, p, q);
    }
  }

  lemma {:induction false} SortKeeps<T>(cmp: (T, T) -> int, s: seq<T>, sz: nat)
    requires sz > 0
    ensures multiset(Sort(cmp, s, sz)) == multiset(s)
    decreases |s| - sz
  {
    PassKeeps(cmp, s, sz);
    if Merges(|s|, sz) > 1 {
      SortKeeps(cmp, Pass(cmp, s, sz), 2 * sz);
    }
  }

  // ----- order

  predicate Sorted<T>(cmp: (T, T) -> int, s: seq<T>) {
    forall i, j :: 0 <= i < j < |s| ==> cmp(s[i], s[j]) <= 0
  }

  predicate Runs<T>(cmp: (T, T) -> int, s: seq<T>, sz: nat)
    requires sz > 0
    decreases |s|
  {
    if |s| <= sz then Sorted(cmp, s) else Sorted(cmp, s[..sz]) && Runs(cmp, s[sz..], sz)
  }

  lemma KeptWithin<T>(r: seq<T>, s: seq<T>, dom: set<T>)
    requires multiset(r) == multiset(s) && Within(s, dom)
    ensures Within(r, dom)
  {
    forall i | 0 <= i < |r|
      ensures r[i] in dom
    {
      assert r[i] in multiset(s);
    }
  }

  lemma PartsWithin<T>(s: seq<T>, p: nat, q: nat, dom: set<T>)
    requires p <= q <= |s| && Within(s, dom)
    ensures Within(s[..p], dom) && Within(s[p..q], dom) && Within(s[q..], dom)
  {}

  lemma MergeWithin<T>(cmp: (T, T) -> int, p: seq<T>, q: seq<T>, dom: set<T>)
    requires Within(p, dom) && Within(q, dom)
    ensures Within(Merge(cmp, p, q), dom)
  {
    MergeKeeps(cmp, p, q);
    KeptWithin(Merge(cmp, p, q), p + q, dom);
  }

  lemma PassWithin<T>(cmp: (T, T) -> int, s: seq<T>, sz: nat, dom: set<T>)
    requires sz > 0 && Within(s, dom)
    ensures Within(Pass(cmp, s, sz), dom)
  {
    PassKeeps(cmp, s, sz);
    KeptWithin(Pass(cmp, s, sz), s, dom);
  }

  lemma SortedCons<T>(cmp: (T, T) -> int, dom: set<T>, x: T, s: seq<T>)
    requires Orders(cmp, dom) && x in dom && Within(s, dom) && Sorted(cmp, s) && (|s| > 0 ==> cmp(x, s[0]) <= 0)
    ensures Sorted(cmp, [x] + s)
  {
    var r := [x] + s;
    forall i, j | 0 <= i < j < |r|
      ensures cmp(r[i], r[j]) <= 0
    {
      if i == 0 {
        assert cmp(s[0], s[j - 1]) <= 0 || j == 1;
      } else {
        assert cmp(s[i - 1], s[j - 1]) <= 0;
      }
    }
  }

  lemma {:induction false} MergeSorts<T>(cmp: (T, T) -> int, dom: set<T>, p: seq<T>, q: seq<T>)
    requires Orders(cmp, dom) && Within(p, dom) && Within(q, dom) && Sorted(cmp, p) && Sorted(cmp, q)
    ensures Sorted(cmp, Merge(cmp, p, q))
    decreases |p| + |q|
  {
    if |p| > 0 && |q| > 0 {
      if cmp(p[0], q[0]) <= 0 {
        MergeSorts(cmp, dom, p[1..], q);
        MergeWithin(cmp, p[1..], q, dom);
        SortedCons(cmp, dom, p[0], Merge(cmp, p[1..], q));
      } else {
        MergeSorts(cmp, dom, p, q[1..]);
        MergeWithin(cmp, p, q[1..], dom);
        SortedCons(cmp, dom, q[0], Merge(cmp, p, q[1..]));
      }
    }
  }

  lemma RunsOf<T>(cmp: (T, T) -> int, s: seq<T>, t: seq<T>, sz: nat)
    requires sz > 0 && Sorted(cmp, s) && Runs(cmp, t, sz)
    requires |s| == sz || (|s| < sz && t == [])
    ensures Runs(cmp, s + t, sz)
  {
    if |t| == 0 {
      assert s + t == s;
    } else {
      assert (s + t)[..sz] == s && (s + t)[sz..] == t;
    }
  }

  lemma RunsOne<T>(cmp: (T, T) -> int, s: seq<T>, sz: nat)
    requires sz > 0 && Runs(cmp, s, sz)
    ensures |s| <= sz ==> Sorted(cmp, s)
    ensures |s| > sz ==> Sorted(cmp, s[..sz]) && Runs(cmp, s[sz..], sz)
  {}

  lemma NothingRuns<T>(cmp: (T, T) -> int, sz: nat)
    requires sz > 0
    ensures Sorted(cmp, []) && Runs(cmp, [], sz)
  {}

  /** The two runs that a pass merges first, and the runs it leaves. */
  lemma RunsSplit<T>(cmp: (T, T) -> int, s: seq<T>, sz: nat)
    requires sz > 0 && Runs(cmp, s, sz)
    ensures var p := Min(sz, |s|);
      var q := p + Min(sz, |s| - p);
      Sorted(cmp, s[..p]) && Sorted(cmp, s[p..q]) && Runs(cmp, s[q..], sz)
  {
    hide Sorted, Runs;
    var p := Min(sz, |s|);
    var q := p + Min(sz, |s| - p);
    RunsOne(cmp, s, sz);
    NothingRuns(cmp, sz);
    if |s| > sz {
      var rest := s[sz..];
      RunsOne(cmp, rest, sz);
      Slices(s, sz, q - sz);
      if |rest| <= sz {
        Slices(rest, |rest|, 0);
      }
    } else {
      Slices(s, |s|, 0);
    }
  }

  lemma Slices<T>(s: seq<T>, p: nat, m: nat)
    requires p + m <= |s|
    ensures s[p..][..m] == s[p..p + m] && s[p..][m..] == s[p + m..]
    ensures p == |s| ==> s[..p] == s && s[p..] == []
  {}

  /** A pass doubles the length of the sorted runs. */
  lemma {:induction false} PassDoubles<T>(cmp: (T, T) -> int, dom: set<T>, s: seq<T>, sz: nat)
    requires sz > 0 && Orders(cmp, dom) && Within(s, dom) && Runs(cmp, s, sz)
    ensures Runs(cmp, Pass(cmp, s, sz), 2 * sz)
    decreases |s|
  {
    hide Merge, Pass, Runs, Sorted, Orders, Within;
    if |s| == 0 {
      NoRuns(cmp, s, sz);
    } else {
      var p := Min(sz, |s|);
      var q := p + Min(sz, |s| - p);
      PassOne(cmp, s, sz);
      MergeLength(cmp, s[..p], s[p..q]);
      RunsSplit(cmp, s, sz);
      PartsWithin(s, p, q, dom);
      MergeSorts(cmp, dom, s[..p], s[p..q]);
      PassDoubles(cmp, dom, s[q..], sz);
      PassEmpty(cmp, s[q..], sz);
      RunsOf(cmp, Merge(cmp, s[..p], s[p..q]), Pass(cmp, s[q..], sz), 2 * sz);
    }
  }

  lemma NoRuns<T>(cmp: (T, T) -> int, s: seq<T>, sz: nat)
    requires sz > 0 && |s| == 0
    ensures Runs(cmp, Pass(cmp, s, sz), 2 * sz)
  {}

  lemma MergeLength<T>(cmp: (T, T) -> int, p: seq<T>, q: seq<T>)
    ensures |Merge(cmp, p, q)| == |p| + |q|
  {}

  lemma PassEmpty<T>(cmp: (T, T) -> int, s: seq<T>, sz: nat)
    requires sz > 0
    ensures |Pass(cmp, s, sz)| == |s|
    ensures s == [] ==> Pass(cmp, s, sz) == [] && Merges(|s|, sz) == 0
    ensures s != [] ==> Merges(|s|, sz) > 0
  {}

  lemma {:induction false} SortSorts<T>(cmp: (T, T) -> int, dom: set<T>, s: seq<T>, sz: nat)
    requires sz > 0 && Orders(cmp, dom) && Within(s, dom) && Runs(cmp, s, sz)
    ensures Sorted(cmp, Sort(cmp, s, sz))
    decreases |s| - sz
  {
    PassDoubles(cmp, dom, s, sz);
    PassWithin(cmp, s, sz, dom);
    if Merges(|s|, sz) > 1 {
      SortSorts(cmp, dom, Pass(cmp, s, sz), 2 * sz);
    }
  }

  lemma {:induction false} SinglesAreRuns<T>(cmp: (T, T) -> int, s: seq<T>)
    ensures Runs(cmp, s, 1)
    decreases |s|
  {
    if |s| > 1 {
      SinglesAreRuns(cmp, s[1..]);
    }
  }

  // ----- stability

  predicate Same<T>(cmp: (T, T) -> int, a: T, b: T) {
    cmp(a, b) <= 0 && cmp(b, a) <= 0
  }

  /** The elements that compare equal to `g`, in order. */
  function Class<T>(cmp: (T, T) -> int, g: T, s: seq<T>): seq<T> {
    if |s| == 0 then []
    else (if Same(cmp, g, s[0]) then [s[0]] else []) + Class(cmp, g, s[1..])
  }

  lemma {:induction false} ClassOfSum<T>(cmp: (T, T) -> int, g: T, s: seq<T>, t: seq<T>)
    ensures Class(cmp, g, s + t) == Class(cmp, g, s) + Class(cmp, g, t)
    decreases |s|
  {
    hide Class, Same;
    if |s| == 0 {
      assert s + t == t;
      ClassNone(cmp, g, s);
    } else {
      assert (s + t)[1..] == s[1..] + t && (s + t)[0] == s[0];
      ClassOfSum(cmp, g, s[1..], t);
      ClassOne(cmp, g, s);
      ClassOne(cmp, g, s + t);
      Associate(if Same(cmp, g, s[0]) then [s[0]] else [], Class(cmp, g, s[1..]), Class(cmp, g, t));
    }
  }

  lemma ClassNone<T>(cmp: (T, T) -> int, g: T, s: seq<T>)
    requires |s| == 0
    ensures Class(cmp, g, s) == []
  {}

  lemma ClassOne<T>(cmp: (T, T) -> int, g: T, s: seq<T>)
    requires |s| > 0
    ensures Class(cmp, g, s) == (if Same(cmp, g, s[0]) then [s[0]] else []) + Class(cmp, g, s[1..])
  {
    hide Same;
  }

  lemma Associate<T>(a: seq<T>, b: seq<T>, c: seq<T>)
    ensures a + b + c == a + (b + c)
  {}

  lemma MergeFirst<T>(cmp: (T, T) -> int, b: seq<T>, p: seq<T>, q: seq<T>)
    requires |p| > 0 && (|q| == 0 || cmp(p[0], q[0]) <= 0)
    ensures b + [p[0]] + Merge(cmp, p[1..], q) == b + Merge(cmp, p, q)
  {
    assert Merge(cmp, p, q) == [p[0]] + Merge(cmp, p[1..], q) by {
      if |q| == 0 {
        assert p == [p[0]] + p[1..];
      }
    }
    Associate(b, [p[0]], Merge(cmp, p[1..], q));
  }

  lemma MergeSecond<T>(cmp: (T, T) -> int, b: seq<T>, p: seq<T>, q: seq<T>)
    requires |q| > 0 && (|p| == 0 || cmp(p[0], q[0]) > 0)
    ensures b + [q[0]] + Merge(cmp, p, q[1..]) == b + Merge(cmp, p, q)
  {
    assert Merge(cmp, p, q) == [q[0]] + Merge(cmp, p, q[1..]) by {
      if |p| == 0 {
        assert q == [q[0]] + q[1..];
      }
    }
    Associate(b, [q[0]], Merge(cmp, p, q[1..]));
  }

  lemma ClassOfThree<T>(cmp: (T, T) -> int, g: T, s: seq<T>, p: nat, q: nat)
    requires p <= q <= |s|
    ensures Class(cmp, g, s) == Class(cmp, g, s[..p]) + Class(cmp, g, s[p..q]) + Class(cmp, g, s[q..])
  {
    SplitThree(s, p, q);
    ClassOfSum(cmp, g, s[..p] + s[p..q], s[q..]);
    ClassOfSum(cmp, g, s[..p], s[p..q]);
  }

  lemma {:induction false} ClassIsEmpty<T>(cmp: (T, T) -> int, g: T, s: seq<T>)
    requires forall i :: 0 <= i < |s| ==> !Same(cmp, g, s[i])
    ensures Class(cmp, g, s) == []
  {
    if |s| > 0 {
      ClassIsEmpty(cmp, g, s[1..]);
    }
  }

  lemma {:induction false} MergeStable<T>(cmp: (T, T) -> int, dom: set<T>, g: T, p: seq<T>, q: seq<T>)
    requires Orders(cmp, dom) && g in dom && Within(p, dom) && Within(q, dom) && Sorted(cmp, p)
    ensures Class(cmp, g, Merge(cmp, p, q)) == Class(cmp, g, p) + Class(cmp, g, q)
    decreases |p| + |q|
  {
    if |p| > 0 && |q| > 0 {
      if cmp(p[0], q[0]) <= 0 {
        MergeStable(cmp, dom, g, p[1..], q);
      } else {
        MergeStable(cmp, dom, g, p, q[1..]);
        if Same(cmp, g, q[0]) {
          forall i | 0 <= i < |p|
            ensures !Same(cmp, g, p[i])
          {
            assert cmp(p[0], p[i]) <= 0 || i == 0;
          }
          ClassIsEmpty(cmp, g, p);
        }
      }
    }
  }

  lemma {:induction false} PassStable<T>(cmp: (T, T) -> int, dom: set<T>, g: T, s: seq<T>, sz: nat)
    requires sz > 0 && Orders(cmp, dom) && g in dom && Within(s, dom) && Runs(cmp, s, sz)
    ensures Class(cmp, g, Pass(cmp, s, sz)) == Class(cmp, g, s)
    decreases |s|
  {
    hide Merge, Class, Runs, Sorted, Orders, Within;
    if |s| > 0 {
      hide Pass;
      var p := Min(sz, |s|);
      var q := p + Min(sz, |s| - p);
      PassOne(cmp, s, sz);
      RunsSplit(cmp, s, sz);
      PartsWithin(s, p, q, dom);
      MergeStable(cmp, dom, g, s[..p], s[p..q]);
      PassStable(cmp, dom, g, s[q..], sz);
      ClassOfSum(cmp, g, Merge(cmp, s[..p], s[p..q]), Pass(cmp, s[q..], sz));
      ClassOfThree(cmp, g, s, p, q);
    }
  }

  /** Elements that compare equal keep their order. */
  lemma {:induction false} SortStable<T>(cmp: (T, T) -> int, dom: set<T>, g: T, s: seq<T>, sz: nat)
    requires sz > 0 && Orders(cmp, dom) && g in dom && Within(s, dom) && Runs(cmp, s, sz)
    ensures Class(cmp, g, Sort(cmp, s, sz)) == Class(cmp, g, s)
    decreases |s| - sz
  {
    PassStable(cmp, dom, g, s, sz);
    PassDoubles(cmp, dom, s, sz);
    PassWithin(cmp, s, sz, dom);
    if Merges(|s|, sz) > 1 {
      SortStable(cmp, dom, g, Pass(cmp, s, sz), 2 * sz);
    }
  }

  // ----- a stable sort has only one possible result

  lemma {:induction false} ClassMember<T>(cmp: (T, T) -> int, g: T, s: seq<T>, i: nat)
    requires i < |s| && Same(cmp, g, s[i])
    ensures Class(cmp, g, s) != []
  {
    if i > 0 {
      ClassMember(cmp, g, s[1..], i - 1);
    }
  }

  lemma {:induction false} ClassFrom<T>(cmp: (T, T) -> int, g: T, s: seq<T>)
    requires Class(cmp, g, s) != []
    ensures exists i :: 0 <= i < |s| && Same(cmp, g, s[i])
  {
    if !Same(cmp, g, s[0]) {
      ClassFrom(cmp, g, s[1..]);
      var i :| 0 <= i < |s[1..]| && Same(cmp, g, s[1..][i]);
      assert Same(cmp, g, s[i + 1]);
    }
  }

  lemma LeastHead<T>(cmp: (T, T) -> int, dom: set<T>, s: seq<T>, t: seq<T>)
    requires Orders(cmp, dom) && Within(s, dom) && Within(t, dom) && Sorted(cmp, s) && |s| > 0 && |t| > 0
    requires Class(cmp, t[0], s) != []
    ensures cmp(s[0], t[0]) <= 0
  {
    ClassFrom(cmp, t[0], s);
    var i :| 0 <= i < |s| && Same(cmp, t[0], s[i]);
    assert i == 0 || cmp(s[0], s[i]) <= 0;
  }

  lemma ClassTails<T>(cmp: (T, T) -> int, dom: set<T>, s: seq<T>, t: seq<T>)
    requires |s| > 0 && |t| > 0 && s[0] == t[0]
    requires forall g | g in dom :: Class(cmp, g, s) == Class(cmp, g, t)
    ensures forall g | g in dom :: Class(cmp, g, s[1..]) == Class(cmp, g, t[1..])
  {
    forall g | g in dom
      ensures Class(cmp, g, s[1..]) == Class(cmp, g, t[1..])
    {
      var head := if Same(cmp, g, s[0]) then [s[0]] else [];
      assert Class(cmp, g, s) == head + Class(cmp, g, s[1..]);
      assert Class(cmp, g, t) == head + Class(cmp, g, t[1..]);
      assert Class(cmp, g, s[1..]) == Class(cmp, g, s)[|head|..];
    }
  }

  lemma HeadClass<T>(cmp: (T, T) -> int, dom: set<T>, s: seq<T>)
    requires Orders(cmp, dom) && Within(s, dom) && |s| > 0
    ensures Class(cmp, s[0], s) != [] && Class(cmp, s[0], s)[0] == s[0]
  {
    assert cmp(s[0], s[0]) <= 0;
    ClassMember(cmp, s[0], s, 0);
  }

  lemma SameHead<T>(cmp: (T, T) -> int, s: seq<T>, t: seq<T>)
    requires |s| > 0 && |t| > 0 && Same(cmp, s[0], t[0]) && Same(cmp, s[0], s[0])
    requires Class(cmp, s[0], s) == Class(cmp, s[0], t)
    ensures s[0] == t[0]
  {
    assert Class(cmp, s[0], s)[0] == s[0] && Class(cmp, s[0], t)[0] == t[0];
  }

  lemma {:induction false} StableSortUnique<T>(cmp: (T, T) -> int, dom: set<T>, s: seq<T>, t: seq<T>)
    requires Orders(cmp, dom) && Within(s, dom) && Within(t, dom) && Sorted(cmp, s) && Sorted(cmp, t)
    requires forall g | g in dom :: Class(cmp, g, s) == Class(cmp, g, t)
    ensures s == t
    decreases |s|
  {
    hide Class;
    if |s| == 0 {
      if |t| > 0 {
        ClassIsEmpty(cmp, t[0], s);
        HeadClass(cmp, dom, t);
        assert false;
      }
    } else {
      HeadClass(cmp, dom, s);
      if |t| == 0 {
        ClassIsEmpty(cmp, s[0], t);
      }
      HeadClass(cmp, dom, t);
      LeastHead(cmp, dom, s, t);
      LeastHead(cmp, dom, t, s);
      SameHead(cmp, s, t);
      ClassTails(cmp, dom, s, t);
      StableSortUnique(cmp, dom, s[1..], t[1..]);
    }
  }

  /** The whole of it: sorted, the same elements, and stable. */
  lemma SortIsStableSort<T>(cmp: (T, T) -> int, dom: set<T>, s: seq<T>)
    requires Orders(cmp, dom) && Within(s, dom)
    ensures Sorted(cmp, Sort(cmp, s, 1)) && multiset(Sort(cmp, s, 1)) == multiset(s)
    ensures forall g | g in dom :: Class(cmp, g, Sort(cmp, s, 1)) == Class(cmp, g, s)
  {
    SinglesAreRuns(cmp, s);
    SortSorts(cmp, dom, s, 1);
    SortKeeps(cmp, s, 1);
    forall g | g in dom
      ensures Class(cmp, g, Sort(cmp, s, 1)) == Class(cmp, g, s)
    {
      SortStable(cmp, dom, g, s, 1);
    }
  }
}
