/**
 * The life of descriptors: elf_begin() activates or creates them, elf_end() releases them, archives after their
 * members.
 */
module Lifetime {

  /** The fields of an Elf descriptor that count; `depth` is how deeply archives are nested around it. */
  class Elf {
    const archive: bool
    ghost const depth: nat
    var activations: nat
    var nchildren: nat
    var parent: Elf?

    constructor (archive: bool, parent: Elf?, ghost depth: nat)
      ensures this.archive == archive && this.parent == parent && this.depth == depth
      ensures activations == 1 && nchildren == 0
    {
      this.archive, this.parent, this.depth := archive, parent, depth;
      activations, nchildren := 1, 0;
    }
  }

  ghost function Children(live: set<Elf>, e: Elf): set<Elf>
    reads live`parent
  {
    set x | x in live && x.parent == e
  }

  lemma CountGrows(live: set<Elf>, e: Elf, x: Elf)
    requires e !in live
    ensures |Children(live + {e}, x)| == |Children(live, x)| + if e.parent == x then 1 else 0
  {
    assert Children(live + {e}, x) == Children(live, x) + if e.parent == x then {e} else {};
  }

  lemma CountShrinks(live: set<Elf>, e: Elf, x: Elf)
    requires e in live
    ensures |Children(live - {e}, x)| == |Children(live, x)| - if e.parent == x then 1 else 0
  {
    assert Children(live, x) == Children(live - {e}, x) + if e.parent == x then {e} else {};
  }

  lemma NoChildren(live: set<Elf>, e: Elf)
    requires |Children(live, e)| == 0
    ensures forall x :: x in live ==> x.parent != e
  {
    assert Children(live, e) == {};
    assert forall x :: x in live && x.parent == e ==> x in Children(live, e);
  }

  /** The counters of one descriptor agree with the descriptors there are. */
  ghost predicate Counted(live: set<Elf>, e: Elf)
    reads live`parent, e
  {
    && e.nchildren == |Children(live, e)|
    && (e.parent != null ==> e.parent in live && e.parent.archive && e.parent.depth < e.depth)
    && (!e.archive ==> e.nchildren == 0)
  }

  /** There is a reason to keep it: it is in use, or it is an archive with open members. */
  ghost predicate Needed(e: Elf)
    reads e
  {
    e.activations > 0 || (e.archive && e.nchildren > 0)
  }

  /** All descriptors that there are. */
  class Library {
    ghost var live: set<Elf>

    constructor ()
      ensures live == {} && Valid()
    {
      live := {};
    }

    ghost predicate Valid()
      reads this, live
    {
      forall e :: e in live ==> Counted(live, e) && Needed(e)
    }

    /** elf_begin() on a file */
    method Open(archive: bool) returns (e: Elf)
      requires Valid()
      modifies this
      ensures Valid() && fresh(e) && live == old(live) + {e} && e.parent == null && e.archive == archive
      ensures e.activations == 1
    {
      hide Children;
      e := new Elf(archive, null, 0);
      NewHasNone(live, e);
      forall x | x in live
        ensures Counted(live + {e}, x) && Needed(x)
      {
        CountGrows(live, e, x);
      }
      live := live + {e};
    }

    /** elf_begin() on an archive: a new descriptor for the member at the cursor */
    method OpenMember(a: Elf, archive: bool) returns (e: Elf)
      requires Valid() && a in live && a.archive
      modifies this, a`nchildren
      ensures Valid() && fresh(e) && live == old(live) + {e} && e.parent == a && e.archive == archive
      ensures e.activations == 1
      ensures a.nchildren == old(a.nchildren) + 1
    {
      hide Children;
      e := new Elf(archive, a, a.depth + 1);
      a.nchildren := a.nchildren + 1;
      NewHasNone(live, e);
      forall x | x in live
        ensures Counted(live + {e}, x) && Needed(x)
      {
        assert old(Counted(live, x)) && old(Needed(x));
        CountGrows(live, e, x);
      }
      live := live + {e};
    }

    /** elf_begin() on a descriptor that is not of an archive: one more activation */
    method Activate(e: Elf)
      requires Valid() && e in live && !e.archive
      modifies e`activations
      ensures Valid() && e.activations == old(e.activations) + 1
    {
      e.activations := e.activations + 1;
    }

    /** Releases one descriptor that is not needed, and takes it off its parent's count. */
    method Release(sv: Elf)
      requires sv in live && sv.activations == 0 && sv.nchildren == 0
      requires forall x :: x in live ==> Counted(live, x) && (x == sv || Needed(x))
      modifies `live, live`nchildren
      ensures live == old(live) - {sv} && forall y :: y in live ==> y.parent != sv
      ensures forall x :: x in live ==> Counted(live, x) && (x == sv.parent || Needed(x))
    {
      hide Children;
      NoChildren(live, sv);
      if sv.parent != null {
        CountShrinks(live, sv, sv.parent);
        sv.parent.nchildren := sv.parent.nchildren - 1;
      }
      forall x | x in live && x != sv
        ensures Counted(live - {sv}, x) && (x == sv.parent || Needed(x))
      {
        assert old(Counted(live, x));
        CountShrinks(live, sv, x);
      }
      live := live - {sv};
    }

    /**
     * elf_end().  Of the descriptors that there were, exactly those that are then neither activated nor parents of any
     * that stay are released, each once; in particular an archive goes with the last of its uses and open members.
     */
    method End(e: Elf) returns (r: nat)
      requires Valid() && e in live
      modifies `live, live`activations, live`nchildren
      ensures Valid() && live <= old(live)
      ensures forall x :: x in old(live) - live ==> x.activations == 0 && forall y :: y in live ==> y.parent != x
      ensures forall x :: x in old(live) && x != e ==> x.activations == old(x.activations)
      ensures e.activations == if old(e.activations) == 0 then 0 else old(e.activations) - 1
      ensures r == e.activations && (r > 0 || old(e.activations) == 0 ==> live == old(live))
    {
      hide Children;
      if e.activations == 0 {
        return 0;
      }
      e.activations := e.activations - 1;
      if e.activations > 0 {
        return e.activations;
      }
      ghost var all := live;
      var cur: Elf? := e;
      while cur != null && cur.activations == 0
        invariant live <= all && (cur != null ==> cur in live)
        invariant forall x :: x in live ==> Counted(live, x) && (x == cur || Needed(x))
        invariant forall x :: x in all - live ==> x.activations == 0 && forall y :: y in live ==> y.parent != x
        invariant forall x :: x in all ==> x.activations == if x == e then 0 else old(x.activations)
        decreases |live|
      {
        if cur.archive && cur.nchildren > 0 {
          return 0;
        }
        assert Counted(live, cur);
        var sv := cur;
        cur := cur.parent;
        Release(sv);
      }
      return 0;
    }
  }

  /** A descriptor that is new is nobody's parent yet. */
  lemma NewHasNone(live: set<Elf>, e: Elf)
    requires e !in live && e.parent != e && forall x :: x in live ==> x.parent != e
    ensures |Children(live + {e}, e)| == 0
  {
    assert Children(live + {e}, e) == {};
  }
}
