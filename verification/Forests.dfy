// The value held by a ContainedRangeMap: a forest of nested ranges. A node's children are kept
// in ascending order of high address, as std::map keeps them.

module Forests {
  import opened Options
  import opened Addresses
  import SortedKeys

  datatype Range<E> = Range(base: Address, high: Address, entry: E)

  datatype Tree<E> = Tree(base: Address, high: Address, entry: E, children: seq<Tree<E>>)

  // ---------------------------------------------------------------- the ranges in a forest

  ghost function RootOf<E>(t: Tree<E>): Range<E> {
    Range(t.base, t.high, t.entry)
  }

  ghost function TreeRanges<E>(t: Tree<E>): set<Range<E>>
    decreases t, 1
  {
    {RootOf(t)} + Ranges(t.children)
  }

  // Every range stored in the forest, at any depth.
  ghost function Ranges<E>(f: seq<Tree<E>>): set<Range<E>>
    decreases f, 0
  {
    if f == [] then {} else TreeRanges(f[0]) + Ranges(f[1..])
  }

  lemma {:induction false} RangesOfConcat<E>(f: seq<Tree<E>>, g: seq<Tree<E>>)
    ensures Ranges(f + g) == Ranges(f) + Ranges(g)
  {
    if f == [] {
      assert f + g == g;
    } else {
      assert (f + g)[1..] == f[1..] + g;
      RangesOfConcat(f[1..], g);
    }
  }

  lemma {:induction false} RangesHasTree<E>(f: seq<Tree<E>>, i: nat)
    requires i < |f|
    ensures TreeRanges(f[i]) <= Ranges(f)
  {
    if i > 0 {
      RangesHasTree(f[1..], i - 1);
    }
  }

  // Every range of the forest belongs to one of its top-level trees.
  lemma {:induction false} RangeHasTree<E>(f: seq<Tree<E>>, r: Range<E>) returns (i: nat)
    requires r in Ranges(f)
    ensures i < |f| && r in TreeRanges(f[i])
  {
    if r in TreeRanges(f[0]) {
      i := 0;
    } else {
      i := RangeHasTree(f[1..], r);
      i := i + 1;
    }
  }

  // ---------------------------------------------------------------- the tree invariant

  predicate Within(base: Address, high: Address, lo: Address, hi: Address) {
    lo <= base && high <= hi
  }

  predicate Crosses(base: Address, high: Address, lo: Address, hi: Address) {
    && base <= hi && lo <= high
    && !Within(base, high, lo, hi)
    && !Within(lo, hi, base, high)
  }

  // A tree is well formed when its range is not empty and its children form a well-formed
  // forest of ranges lying inside it, none of them equal to it.
  ghost predicate TreeOk<E>(t: Tree<E>)
    decreases t, 1
  {
    && t.base <= t.high
    && WellFormed(t.children)
    && forall i :: 0 <= i < |t.children| ==> ProperlyInside(t.children[i], t)
  }

  ghost predicate ProperlyInside<E>(c: Tree<E>, t: Tree<E>) {
    && Within(c.base, c.high, t.base, t.high)
    && (c.base, c.high) != (t.base, t.high)
  }

  // Siblings are disjoint and ascending.
  ghost predicate WellFormed<E>(f: seq<Tree<E>>)
    decreases f, 0
  {
    && (forall i :: 0 <= i < |f| ==> TreeOk(f[i]))
    && Ascending(f)
  }

  ghost predicate Ascending<E>(f: seq<Tree<E>>) {
    forall i, j :: 0 <= i < j < |f| ==> f[i].high < f[j].base
  }

  ghost predicate AllWithin<E>(f: seq<Tree<E>>, lo: Address, hi: Address) {
    forall i :: 0 <= i < |f| ==> Within(f[i].base, f[i].high, lo, hi)
  }

  lemma {:induction false} RangesWithin<E>(f: seq<Tree<E>>, lo: Address, hi: Address)
    requires WellFormed(f) && AllWithin(f, lo, hi)
    ensures forall r :: r in Ranges(f) ==> lo <= r.base <= r.high <= hi
    decreases f
  {
    forall r | r in Ranges(f) ensures lo <= r.base <= r.high <= hi {
      var i := RangeHasTree(f, r);
      TreeRangesWithin(f[i]);
    }
  }

  lemma {:induction false} TreeRangesWithin<E>(t: Tree<E>)
    requires TreeOk(t)
    ensures forall r :: r in TreeRanges(t) ==> t.base <= r.base <= r.high <= t.high
    ensures forall r :: r in Ranges(t.children) ==> (r.base, r.high) != (t.base, t.high)
    decreases t
  {
    RangesWithin(t.children, t.base, t.high);
    forall r | r in Ranges(t.children) ensures (r.base, r.high) != (t.base, t.high) {
      var i := RangeHasTree(t.children, r);
      TreeRangesWithin(t.children[i]);
    }
  }

  // ---------------------------------------------------------------- lookup

  function Highs<E>(f: seq<Tree<E>>): seq<Address> {
    seq(|f|, i requires 0 <= i < |f| => f[i].high)
  }

  // std::map::lower_bound: children are keyed by their high addresses.
  function LowerBound<E>(f: seq<Tree<E>>, a: Address): (k: nat)
    ensures k <= |f|
    ensures forall i :: 0 <= i < k ==> f[i].high < a
    ensures k < |f| ==> a <= f[k].high
  {
    var k := SortedKeys.LowerBound(Highs(f), a);
    assert forall i :: 0 <= i < k ==> f[i].high == Highs(f)[i];
    k
  }

  function Retrieve<E>(f: seq<Tree<E>>, a: Address): Option<E>
    decreases f
  {
    var k := LowerBound(f, a);
    if k == |f| || a < f[k].base then None
    else
      match Retrieve(f[k].children, a)
      case Some(e) => Some(e)
      case None => Some(f[k].entry)
  }

  ghost predicate Covers<E>(r: Range<E>, a: Address) {
    r.base <= a <= r.high
  }

  // r contains the address and lies inside every other stored range that does.
  ghost predicate MostSpecific<E>(f: seq<Tree<E>>, r: Range<E>, a: Address) {
    && r in Ranges(f) && Covers(r, a)
    && forall s :: s in Ranges(f) && Covers(s, a) ==>
                     Within(r.base, r.high, s.base, s.high) && (s == r || (s.base, s.high) != (r.base, r.high))
  }

  lemma AddressIsFound<E>(f: seq<Tree<E>>, a: Address, i: nat)
    requires Ascending(f) && i < |f| && f[i].base <= a <= f[i].high
    ensures LowerBound(f, a) == i
  {
  }

  // A range covering the address lies in the tree lower_bound leads to.
  lemma CoveringRangeIsBelow<E>(f: seq<Tree<E>>, a: Address, s: Range<E>)
    requires WellFormed(f) && s in Ranges(f) && Covers(s, a)
    ensures var k := LowerBound(f, a); k < |f| && f[k].base <= a && s in TreeRanges(f[k])
  {
    var i := RangeHasTree(f, s);
    TreeRangesWithin(f[i]);
    AddressIsFound(f, a, i);
  }

  // Retrieval finds the unique smallest range containing the address, and finds nothing only
  // when no stored range contains it.
  lemma {:induction false} RetrieveIsMostSpecific<E>(f: seq<Tree<E>>, a: Address) returns (r: Option<Range<E>>)
    requires WellFormed(f)
    ensures r.None? <==> forall s :: s in Ranges(f) ==> !Covers(s, a)
    ensures r.Some? ==> MostSpecific(f, r.value, a)
    ensures Retrieve(f, a) == if r.None? then None else Some(r.value.entry)
    decreases f
  {
    var k := LowerBound(f, a);
    forall s | s in Ranges(f) && Covers(s, a) ensures k < |f| && f[k].base <= a && s in TreeRanges(f[k]) {
      CoveringRangeIsBelow(f, a, s);
    }
    if k == |f| || a < f[k].base {
      r := None;
    } else {
      RangesHasTree(f, k);
      TreeRangesWithin(f[k]);
      r := RetrieveIsMostSpecific(f[k].children, a);
      if r.None? {
        r := Some(RootOf(f[k]));
      }
    }
  }

  // ---------------------------------------------------------------- storing a range

  // One store into a list of children, branch for branch: pass the range down to the child that
  // contains it, refuse it, or make it the parent of the run of children it contains.
  function Store<E>(f: seq<Tree<E>>, base: Address, high: Address, entry: E): Option<seq<Tree<E>>>
    requires base <= high
    decreases f
  {
    var lo := LowerBound(f, base);
    var hi := LowerBound(f, high);
    if lo == hi && lo < |f| && f[lo].base <= base then
      if f[lo].base == base && f[lo].high == high then None
      else
        match Store(f[lo].children, base, high, entry)
        case None => None
        case Some(c) => Some(f[lo := f[lo].(children := c)])
    else
      var containsHigh := hi < |f| && f[hi].base <= high;
      if (lo < |f| && f[lo].base < base) || (containsHigh && high < f[hi].high) then None
      else
        var end := if containsHigh then hi + 1 else hi;
        LowerBoundMonotone(f, base, high);
        Some(Splice(f, lo, end, base, high, entry))
  }

  function Splice<E>(f: seq<Tree<E>>, lo: nat, end: nat, base: Address, high: Address, entry: E): seq<Tree<E>>
    requires lo <= end <= |f|
  {
    f[..lo] + [Tree(base, high, entry, f[lo..end])] + f[end..]
  }

  lemma LowerBoundMonotone<E>(f: seq<Tree<E>>, a: Address, b: Address)
    requires a <= b
    ensures LowerBound(f, a) <= LowerBound(f, b)
  {
  }

  // The containment rules: a new range may not repeat the geometry of a stored one, nor
  // partially overlap it.
  ghost predicate Compatible<E>(rs: set<Range<E>>, base: Address, high: Address) {
    forall r :: r in rs ==> (r.base, r.high) != (base, high) && !Crosses(r.base, r.high, base, high)
  }

  lemma {:induction false} RangesOfSplice<E>(f: seq<Tree<E>>, lo: nat, end: nat, base: Address, high: Address, entry: E)
    requires lo <= end <= |f|
    ensures Ranges(Splice(f, lo, end, base, high, entry)) == Ranges(f) + {Range(base, high, entry)}
  {
    var n := Tree(base, high, entry, f[lo..end]);
    calc {
      Ranges(Splice(f, lo, end, base, high, entry));
      { RangesOfConcat(f[..lo] + [n], f[end..]); RangesOfConcat(f[..lo], [n]); }
      Ranges(f[..lo]) + Ranges([n]) + Ranges(f[end..]);
      Ranges(f[..lo]) + Ranges(f[lo..end]) + Ranges(f[end..]) + {RootOf(n)};
      { RangesOfConcat(f[..lo], f[lo..end]); assert f[..lo] + f[lo..end] == f[..end]; }
      Ranges(f[..end]) + Ranges(f[end..]) + {RootOf(n)};
      { RangesOfConcat(f[..end], f[end..]); assert f[..end] + f[end..] == f; }
      Ranges(f) + {RootOf(n)};
    }
  }

  lemma {:induction false} RangesOfUpdate<E>(f: seq<Tree<E>>, i: nat, c: seq<Tree<E>>, r: Range<E>)
    requires i < |f| && Ranges(c) == Ranges(f[i].children) + {r}
    ensures Ranges(f[i := f[i].(children := c)]) == Ranges(f) + {r}
  {
    if i == 0 {
      assert f[0 := f[0].(children := c)][1..] == f[1..];
    } else {
      assert f[i := f[i].(children := c)][1..] == f[1..][i - 1 := f[i].(children := c)];
      RangesOfUpdate(f[1..], i - 1, c, r);
    }
  }

  // ---------------------------------------------------------------- what a store means

  lemma StoreKeepsInside<E>(f: seq<Tree<E>>, base: Address, high: Address, entry: E, t: Tree<E>)
    requires base <= high && Store(f, base, high, entry).Some?
    requires forall i :: 0 <= i < |f| ==> ProperlyInside(f[i], t)
    requires ProperlyInside(Tree(base, high, entry, []), t)
    ensures var g := Store(f, base, high, entry).value; forall i :: 0 <= i < |g| ==> ProperlyInside(g[i], t)
  {
  }

  // When the new range fits in no child, it is refused exactly when some top-level range crosses it.
  lemma SpliceAccepts<E>(f: seq<Tree<E>>, base: Address, high: Address)
    requires WellFormed(f) && base <= high
    requires forall i :: 0 <= i < |f| ==> !Within(base, high, f[i].base, f[i].high)
    ensures
      var lo, hi := LowerBound(f, base), LowerBound(f, high);
      (exists i :: 0 <= i < |f| && Crosses(f[i].base, f[i].high, base, high)) <==>
      (lo < |f| && f[lo].base < base) || (hi < |f| && f[hi].base <= high < f[hi].high)
  {
    var lo, hi := LowerBound(f, base), LowerBound(f, high);
    if lo < |f| && f[lo].base < base {
      assert Crosses(f[lo].base, f[lo].high, base, high) by {
        LowerBoundMonotone(f, base, high);
      }
    }
    if hi < |f| && f[hi].base <= high < f[hi].high {
      assert Crosses(f[hi].base, f[hi].high, base, high);
    }
    forall i | 0 <= i < |f| && Crosses(f[i].base, f[i].high, base, high)
      ensures (i == lo && f[lo].base < base) || (i == hi && f[hi].base <= high < f[hi].high)
    {
      CrossingIsAtEnds(f, i, base, high);
    }
  }

  lemma CrossingIsAtEnds<E>(f: seq<Tree<E>>, i: nat, base: Address, high: Address)
    requires Ascending(f) && base <= high && i < |f| && f[i].base <= f[i].high
    requires Crosses(f[i].base, f[i].high, base, high)
    ensures
      || (i == LowerBound(f, base) && f[i].base < base)
      || (i == LowerBound(f, high) && f[i].base <= high < f[i].high)
  {
  }

  lemma SpliceAscending<E>(f: seq<Tree<E>>, lo: nat, end: nat, n: Tree<E>)
    requires Ascending(f) && lo <= end <= |f|
    requires forall i :: 0 <= i < lo ==> f[i].high < n.base
    requires forall i :: end <= i < |f| ==> n.high < f[i].base
    requires forall i, j :: 0 <= i < lo && end <= j < |f| ==> f[i].high < f[j].base
    ensures Ascending(f[..lo] + [n] + f[end..])
  {
  }

  lemma SpliceWellFormed<E>(f: seq<Tree<E>>, lo: nat, end: nat, base: Address, high: Address, entry: E)
    requires WellFormed(f) && base <= high && lo <= end <= |f|
    requires forall i :: 0 <= i < lo ==> f[i].high < base
    requires forall i :: lo <= i < end ==> ProperlyInside(f[i], Tree(base, high, entry, []))
    requires forall i :: end <= i < |f| ==> high < f[i].base
    ensures WellFormed(Splice(f, lo, end, base, high, entry))
  {
    var n := Tree(base, high, entry, f[lo..end]);
    SliceWellFormed(f, lo, end);
    assert TreeOk(n);
    SpliceAscending(f, lo, end, n);
    SpliceTreesOk(f, lo, end, n);
  }

  lemma SpliceTreesOk<E>(f: seq<Tree<E>>, lo: nat, end: nat, n: Tree<E>)
    requires forall i :: 0 <= i < |f| ==> TreeOk(f[i])
    requires TreeOk(n) && lo <= end <= |f|
    ensures var g := f[..lo] + [n] + f[end..]; forall i :: 0 <= i < |g| ==> TreeOk(g[i])
  {
  }

  lemma SliceWellFormed<E>(f: seq<Tree<E>>, lo: nat, end: nat)
    requires WellFormed(f) && lo <= end <= |f|
    ensures WellFormed(f[lo..end])
  {
  }

  // Compatibility with a whole tree, seen from a range that does not fit inside the tree's root.
  lemma CompatibleFromOutside<E>(t: Tree<E>, base: Address, high: Address)
    requires TreeOk(t) && base <= high && !Within(base, high, t.base, t.high)
    ensures Compatible(TreeRanges(t), base, high) <==> !Crosses(t.base, t.high, base, high)
  {
    TreeRangesWithin(t);
    assert RootOf(t) in TreeRanges(t);
  }

  lemma CompatibleByTree<E>(f: seq<Tree<E>>, base: Address, high: Address)
    ensures Compatible(Ranges(f), base, high) <==>
            forall i :: 0 <= i < |f| ==> Compatible(TreeRanges(f[i]), base, high)
  {
  }

  // A range inside child i is compatible with everything outside that child.
  lemma CompatibleInside<E>(f: seq<Tree<E>>, i: nat, base: Address, high: Address)
    requires WellFormed(f) && base <= high && i < |f| && Within(base, high, f[i].base, f[i].high)
    ensures Compatible(Ranges(f), base, high) <==>
            (f[i].base, f[i].high) != (base, high) && Compatible(Ranges(f[i].children), base, high)
  {
    CompatibleByTree(f, base, high);
    assert Compatible(TreeRanges(f[i]), base, high) <==>
        (f[i].base, f[i].high) != (base, high) && Compatible(Ranges(f[i].children), base, high) by {
      assert RootOf(f[i]) in TreeRanges(f[i]);
    }
    forall j | 0 <= j < |f| && j != i ensures Compatible(TreeRanges(f[j]), base, high) {
      TreeRangesWithin(f[j]);
    }
  }

  // The store succeeds exactly when the new range breaks no containment rule. Then the forest
  // holds exactly one more range and is still well formed.
  lemma {:induction false} StoreMeaning<E>(f: seq<Tree<E>>, base: Address, high: Address, entry: E)
    requires WellFormed(f) && base <= high
    ensures Store(f, base, high, entry).Some? <==> Compatible(Ranges(f), base, high)
    ensures
      Store(f, base, high, entry).Some? ==>
      var g := Store(f, base, high, entry).value;
      WellFormed(g) && Ranges(g) == Ranges(f) + {Range(base, high, entry)}
    decreases f
  {
    var lo, hi := LowerBound(f, base), LowerBound(f, high);
    if lo == hi && lo < |f| && f[lo].base <= base {
      StoreIntoChild(f, lo, base, high, entry);
    } else {
      forall i | 0 <= i < |f| ensures !Within(base, high, f[i].base, f[i].high) {
        if Within(base, high, f[i].base, f[i].high) {
          AddressIsFound(f, base, i);
          AddressIsFound(f, high, i);
        }
      }
      StoreAsSibling(f, base, high, entry);
    }
  }

  lemma {:induction false} StoreIntoChild<E>(f: seq<Tree<E>>, k: nat, base: Address, high: Address, entry: E)
    requires WellFormed(f) && base <= high
    requires k == LowerBound(f, base) == LowerBound(f, high) && k < |f| && f[k].base <= base
    ensures Store(f, base, high, entry).Some? <==> Compatible(Ranges(f), base, high)
    ensures
      Store(f, base, high, entry).Some? ==>
      var g := Store(f, base, high, entry).value;
      WellFormed(g) && Ranges(g) == Ranges(f) + {Range(base, high, entry)}
    decreases f, 0
  {
    CompatibleInside(f, k, base, high);
    if (f[k].base, f[k].high) != (base, high) {
      var t := f[k];
      StoreMeaning(t.children, base, high, entry);
      if Store(t.children, base, high, entry).Some? {
        var c := Store(t.children, base, high, entry).value;
        StoreKeepsInside(t.children, base, high, entry, t);
        assert TreeOk(t.(children := c));
        RangesOfUpdate(f, k, c, Range(base, high, entry));
      }
    }
  }

  // A store at this level puts under the new node exactly the children it contains.
  lemma SpliceBounds<E>(f: seq<Tree<E>>, base: Address, high: Address, lo: nat, hi: nat, end: nat)
    requires Ascending(f) && base <= high
    requires lo == LowerBound(f, base) && hi == LowerBound(f, high)
    requires end == if hi < |f| && f[hi].base <= high then hi + 1 else hi
    requires forall i :: 0 <= i < |f| ==> f[i].base <= f[i].high && !Within(base, high, f[i].base, f[i].high)
    requires !(lo < |f| && f[lo].base < base) && !(hi < |f| && f[hi].base <= high < f[hi].high)
    ensures lo <= end <= |f|
    ensures forall i :: 0 <= i < lo ==> f[i].high < base
    ensures forall i :: lo <= i < end ==> base <= f[i].base && f[i].high <= high
    ensures forall i :: end <= i < |f| ==> high < f[i].base
  {
  }

  lemma StoreAsSibling<E>(f: seq<Tree<E>>, base: Address, high: Address, entry: E)
    requires WellFormed(f) && base <= high
    requires forall i :: 0 <= i < |f| ==> !Within(base, high, f[i].base, f[i].high)
    ensures Store(f, base, high, entry).Some? <==> Compatible(Ranges(f), base, high)
    ensures
      Store(f, base, high, entry).Some? ==>
      var g := Store(f, base, high, entry).value;
      WellFormed(g) && Ranges(g) == Ranges(f) + {Range(base, high, entry)}
  {
    SiblingAccepts(f, base, high, entry);
    if Store(f, base, high, entry).Some? {
      SpliceAccepts(f, base, high);
      var lo, hi := LowerBound(f, base), LowerBound(f, high);
      var end := if hi < |f| && f[hi].base <= high then hi + 1 else hi;
      SpliceBounds(f, base, high, lo, hi, end);
      SpliceWellFormed(f, lo, end, base, high, entry);
      RangesOfSplice(f, lo, end, base, high, entry);
    }
  }

  lemma SiblingAccepts<E>(f: seq<Tree<E>>, base: Address, high: Address, entry: E)
    requires WellFormed(f) && base <= high
    requires forall i :: 0 <= i < |f| ==> !Within(base, high, f[i].base, f[i].high)
    ensures Store(f, base, high, entry).Some? <==> Compatible(Ranges(f), base, high)
  {
    SpliceAccepts(f, base, high);
    CompatibleByTree(f, base, high);
    forall i | 0 <= i < |f|
      ensures Compatible(TreeRanges(f[i]), base, high) <==> !Crosses(f[i].base, f[i].high, base, high)
    {
      CompatibleFromOutside(f[i], base, high);
    }
  }
}
