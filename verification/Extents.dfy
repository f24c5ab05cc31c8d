/** The sorted list of file extents kept while an object is laid out. */
module Extents {

  datatype Kind = EhdrExtent | PhdrExtent | SectionExtent(ndx: nat) | ShdrExtent

  datatype Extent = Extent(start: nat, size: nat, kind: Kind) {
    function End(): nat { start + size }

    predicate Holds(p: nat) { start <= p < End() }
  }

  /** Neither range ends before the other starts. */
  predicate Clash(a: Extent, b: Extent) {
    a.End() > b.start && b.End() > a.start
  }

  ghost predicate SharesByte(a: Extent, b: Extent) {
    exists p: nat :: a.Holds(p) && b.Holds(p)
  }

  predicate Sorted(exts: seq<Extent>) {
    forall i, j :: 0 <= i < j < |exts| ==> exts[i].End() <= exts[j].start
  }

  predicate ClashesWith(exts: seq<Extent>, x: Extent) {
    exists t :: t in exts && Clash(t, x)
  }

  function Inserted(exts: seq<Extent>, k: nat, x: Extent): seq<Extent>
    requires k <= |exts|
  {
    exts[..k] + [x] + exts[k..]
  }

  /** For ranges that hold at least one byte, clashing is having a byte in common. */
  lemma ClashIsOverlap(a: Extent, b: Extent)
    requires a.size > 0 && b.size > 0
    ensures Clash(a, b) <==> SharesByte(a, b)
  {
    if Clash(a, b) {
      var p := if a.start < b.start then b.start else a.start;
      assert a.Holds(p) && b.Holds(p);
    }
  }

  /** In a sorted list any two nonempty members are disjoint. */
  lemma SortedIsDisjoint(exts: seq<Extent>, i: nat, j: nat)
    requires Sorted(exts) && i < |exts| && j < |exts| && i != j
    ensures !SharesByte(exts[i], exts[j])
  {
    if i < j {
      assert exts[i].End() <= exts[j].start;
    } else {
      assert exts[j].End() <= exts[i].start;
    }
  }

  class ExtentList {
    var list: seq<Extent>

    constructor ()
      ensures list == []
    {
      list := [];
    }

    /** Looks for the place of the range [start..start+size); `at` counts the extents before it. */
    method IsUnused(start: nat, size: nat) returns (free: bool, at: nat)
      requires Sorted(list)
      ensures free <==> !exists t :: t in list && Clash(t, Extent(start, size, EhdrExtent))
      ensures free ==> at <= |list|
      ensures free ==> forall i :: 0 <= i < at ==> list[i].End() <= start
      ensures free ==> forall i :: at <= i < |list| ==> start + size <= list[i].start
      ensures free && (forall t :: t in list ==> t.End() <= start) ==> at == |list|
    {
      var smax := start + size;
      at := 0;
      while at < |list|
        invariant at <= |list|
        invariant forall i :: 0 <= i < at ==> list[i].End() <= start
      {
        var tmin := list[at].start;
        var tmax := tmin + list[at].size;
        if tmax <= start {
          at := at + 1;
        } else if smax <= tmin {
          break;
        } else {
          assert Clash(list[at], Extent(start, size, EhdrExtent));
          return false, 0;
        }
      }
      if at < |list| {
        assert list[at].End() > start;
        assert list[at] in list;
      }
      free := true;
    }

    /** Inserts an extent unless its range clashes with one already listed. */
    method Insert(kind: Kind, start: nat, size: nat) returns (ok: bool)
      requires Sorted(list)
      modifies this
      ensures Sorted(list)
      ensures ok <==> !ClashesWith(old(list), Extent(start, size, kind))
      ensures !ok ==> list == old(list)
      ensures ok ==> exists k :: 0 <= k <= |old(list)| && list == Inserted(old(list), k, Extent(start, size, kind))
      ensures (forall t :: t in old(list) ==> t.End() <= start) ==>
                ok && list == old(list) + [Extent(start, size, kind)]
    {
      var x := Extent(start, size, kind);
      assert forall t :: Clash(t, x) == Clash(t, Extent(start, size, EhdrExtent));
      var free, at := IsUnused(start, size);
      if !free {
        return false;
      }
      list := Inserted(list, at, x);
      ok := true;
    }
  }
}
