// ContainedRangeMap itself: nodes updated in place, each holding a std::map from the high
// address of a child to the child.

module ContainedRangeMaps {
  import opened Options
  import opened Addresses
  import SortedKeys
  import opened Forests

  datatype Entry<!E(0)> = Entry(first: Address, second: ContainedRangeMap<E>)

  function Keys<E(0)>(m: seq<Entry<E>>): seq<Address> {
    seq(|m|, i requires 0 <= i < |m| => m[i].first)
  }

  // The nodes in repr include all those below the entries of m, no node lies below two entries,
  // and trees describes them.
  ghost predicate Owned<E(0)>(m: seq<Entry<E>>, trees: seq<Tree<E>>, repr: set<object>)
    reads repr
    decreases repr, 1
  {
    && |m| == |trees|
    && (forall i :: 0 <= i < |m| ==>
                      var c := m[i].second;
                      && c in repr && c.Repr <= repr && c.Shape()
                      && trees[i] == Tree(c.base_, m[i].first, c.entry_, c.Children))
    && (forall i, j :: 0 <= i < j < |m| ==> m[i].second.Repr !! m[j].second.Repr)
  }

  ghost function Footprint<E(0)>(m: seq<Entry<E>>): set<object>
    reads set i | 0 <= i < |m| :: m[i].second
  {
    set i, o | 0 <= i < |m| && o in m[i].second.Repr :: o
  }

  lemma OwnedSlice<E(0)>(m: seq<Entry<E>>, trees: seq<Tree<E>>, repr: set<object>, lo: nat, end: nat)
    requires Owned(m, trees, repr) && lo <= end <= |m|
    ensures Owned(m[lo..end], trees[lo..end], Footprint(m[lo..end]))
    ensures Footprint(m[lo..end]) <= repr
  {
    hide ContainedRangeMap.Shape;
  }

  lemma SlicesDisjoint<E(0)>(m: seq<Entry<E>>, trees: seq<Tree<E>>, repr: set<object>, a: nat, b: nat, c: nat, d: nat)
    requires Owned(m, trees, repr) && a <= b <= c <= d <= |m|
    ensures Footprint(m[a..b]) !! Footprint(m[c..d])
  {
  }

  // Cutting the entries in three leaves three parts that share no node.
  lemma OwnedCut<E(0)>(m: seq<Entry<E>>, trees: seq<Tree<E>>, repr: set<object>, lo: nat, end: nat)
    requires Owned(m, trees, repr) && lo <= end <= |m|
    ensures |trees| == |m|
    ensures Owned(m[..lo], trees[..lo], Footprint(m[..lo]))
    ensures Owned(m[lo..end], trees[lo..end], Footprint(m[lo..end]))
    ensures Owned(m[end..], trees[end..], Footprint(m[end..]))
    ensures Footprint(m[..lo]) !! Footprint(m[lo..end]) !! Footprint(m[end..])
    ensures Footprint(m[..lo]) + Footprint(m[lo..end]) + Footprint(m[end..]) <= repr
  {
    assert m[..lo] == m[0..lo] && trees[..lo] == trees[0..lo];
    assert m[end..] == m[end..|m|] && trees[end..] == trees[end..|m|];
    OwnedSlice(m, trees, repr, 0, lo);
    OwnedSlice(m, trees, repr, lo, end);
    OwnedSlice(m, trees, repr, end, |m|);
    SlicesDisjoint(m, trees, repr, 0, lo, lo, end);
    SlicesDisjoint(m, trees, repr, 0, lo, end, |m|);
    SlicesDisjoint(m, trees, repr, lo, end, end, |m|);
  }

  lemma OwnedChild<E(0)>(m: seq<Entry<E>>, trees: seq<Tree<E>>, repr: set<object>, k: nat)
    requires Owned(m, trees, repr) && k < |m|
    ensures |trees| == |m| && m[k].second.Shape() && Footprint(m[k..k + 1]) == m[k].second.Repr
    ensures trees[k] == Tree(m[k].second.base_, m[k].first, m[k].second.entry_, m[k].second.Children)
  {
  }

  lemma OwnedInside<E(0)>(m: seq<Entry<E>>, trees: seq<Tree<E>>, repr: set<object>, k: nat)
    requires Owned(m, trees, repr) && k < |m|
    ensures m[k].second.Repr <= repr
  {
  }

  // A run of entries, one node, another run: together they are owned when no node is shared.
  lemma OwnedAround<E(0)>(m: seq<Entry<E>>, s: seq<Tree<E>>, r: set<object>, high: Address, node: ContainedRangeMap<E>,
                          n: seq<Entry<E>>, t: seq<Tree<E>>, q: set<object>, repr: set<object>)
    requires Owned(m, s, r) && node.Shape() && Owned(n, t, q)
    requires r !! node.Repr && r !! q && node.Repr !! q && r + node.Repr + q <= repr
    ensures Owned(m + [Entry(high, node)] + n, s + [Tree(node.base_, high, node.entry_, node.Children)] + t, repr)
  {
    hide ContainedRangeMap.Shape;
  }

  lemma FootprintCut<E(0)>(m: seq<Entry<E>>, lo: nat, end: nat)
    requires lo <= end <= |m|
    ensures Footprint(m) == Footprint(m[..lo]) + Footprint(m[lo..end]) + Footprint(m[end..])
  {
    forall o | o in Footprint(m) ensures o in Footprint(m[..lo]) + Footprint(m[lo..end]) + Footprint(m[end..]) {
      var i :| 0 <= i < |m| && o in m[i].second.Repr;
      if i < lo {
        assert o in m[..lo][i].second.Repr;
      } else if i < end {
        assert o in m[lo..end][i - lo].second.Repr;
      } else {
        assert o in m[end..][i - end].second.Repr;
      }
    }
  }

  lemma NodesOwned<E(0)>(m: seq<Entry<E>>, trees: seq<Tree<E>>, repr: set<object>)
    requires Owned(m, trees, repr)
    ensures forall i :: 0 <= i < |m| ==> m[i].second in repr
  {
  }

  lemma NoFootprint<E(0)>()
    ensures Footprint<E>([]) == {}
  {
  }

  lemma OwnedNothing<E(0)>(repr: set<object>)
    ensures Owned<E>([], [], repr)
  {
  }

  // The first entry and the others share no node.
  lemma OwnedFirst<E(0)>(m: seq<Entry<E>>, trees: seq<Tree<E>>)
    requires m != [] && Owned(m, trees, Footprint(m))
    ensures m[0].second.Shape() && m[0].second.Repr !! Footprint(m[1..])
    ensures Footprint(m) == m[0].second.Repr + Footprint(m[1..])
    ensures |trees| == |m| && Owned(m[1..], trees[1..], Footprint(m[1..]))
  {
    OwnedChild(m, trees, Footprint(m), 0);
    OwnedCut(m, trees, Footprint(m), 0, 1);
    FootprintCut(m, 0, 1);
    hide Owned;
    hide Footprint;
    assert m[0..1] == m[..1];
    NoFootprint<E>();
  }

  // Deleting what one child owns takes its nodes, each once, off the account.
  lemma CountDeleted(below: seq<object>, child: object, own: set<object>, others: set<object>)
    requires own !! others && child in own && multiset(below) == multiset(own - {child})
    ensures multiset(below + [child]) + multiset(others) == multiset(own + others)
  {
    assert multiset(own) == multiset(own - {child}) + multiset{child};
  }

  lemma FootprintAround<E(0)>(m: seq<Entry<E>>, e: Entry<E>, n: seq<Entry<E>>)
    ensures Footprint(m + [e] + n) == Footprint(m) + e.second.Repr + Footprint(n)
  {
    var all := m + [e] + n;
    forall o | o in Footprint(m) + e.second.Repr + Footprint(n) ensures o in Footprint(all) {
      if o in Footprint(m) {
        var i :| 0 <= i < |m| && o in m[i].second.Repr;
        assert o in all[i].second.Repr;
      } else if o in Footprint(n) {
        var i :| 0 <= i < |n| && o in n[i].second.Repr;
        assert o in all[|m| + 1 + i].second.Repr;
      } else {
        assert o in all[|m|].second.Repr;
      }
    }
  }

  lemma KeysAreHighs<E(0)>(m: seq<Entry<E>>, trees: seq<Tree<E>>, repr: set<object>)
    requires Owned(m, trees, repr)
    ensures Keys(m) == Highs(trees)
  {
  }

  class ContainedRangeMap<E(0)> {
    const base_: Address
    const entry_: E
    // The children, in the order std::map keeps them.
    var map_: seq<Entry<E>>

    ghost var Repr: set<object>
    // The forest below this node.
    ghost var Children: seq<Tree<E>>

    // Every node below this one is below it by one path only, Children describes them, and Repr is
    // made of them and this one.
    ghost predicate Shape()
      reads this, Repr
      ensures Shape() ==> this in Repr && |map_| == |Children|
      decreases Repr, 0
    {
      this in Repr && Owned(map_, Children, Repr - {this}) && Repr == {this} + Footprint(map_)
    }

    lemma ShapeParts()
      requires Shape()
      ensures this in Repr && Owned(map_, Children, Repr - {this}) && Repr == {this} + Footprint(map_)
    {
    }

    ghost predicate Valid()
      reads this, Repr
    {
      Shape() && WellFormed(Children)
    }

    // The root of an empty map.
    constructor ()
      ensures Valid() && fresh(Repr) && Children == []
    {
      base_ := 0;
      map_ := [];
      Repr := {this};
      Children := [];
    }

    // A node that takes over some of another node's children.
    constructor Adopt(base: Address, entry: E, children: seq<Entry<E>>, ghost trees: seq<Tree<E>>)
      requires Owned(children, trees, Footprint(children))
      ensures Shape() && base_ == base && entry_ == entry && Children == trees
      ensures Repr == {this} + Footprint(children)
    {
      base_ := base;
      entry_ := entry;
      map_ := children;
      Children := trees;
      Repr := {this} + Footprint(children);
      new;
      assert Repr - {this} == Footprint(children);
    }

    // map_->lower_bound
    function Find(a: Address): (k: nat)
      requires Shape()
      reads this, Repr
      ensures k == LowerBound(Children, a) <= |map_|
    {
      KeysAreHighs(map_, Children, Repr - {this});
      SortedKeys.LowerBound(Keys(map_), a)
    }

    // A refused range changes nothing. An accepted one is the only range added, at whatever depth
    // it belongs.
    method StoreRange(base: Address, size: Address, entry: E) returns (ok: bool)
      requires Valid()
      modifies Repr
      ensures Valid() && fresh(Repr - old(Repr))
      ensures ok <==> Acceptable(base, size) && Compatible(Ranges(old(Children)), base, Wrap(base + size - 1))
      ensures Ranges(Children) == Ranges(old(Children)) + if ok then {Range(base, Wrap(base + size - 1), entry)} else {}
      ensures if ok then Store(old(Children), base, Wrap(base + size - 1), entry) == Some(Children)
              else Children == old(Children)
      decreases Repr
    {
      ghost var trees := Children;
      ok := StoreBelow(base, size, entry);
      if Acceptable(base, size) {
        StoreMeaning(trees, base, Wrap(base + size - 1), entry);
      }
    }

    // The body of StoreRange, which calls itself on the child that contains the new range.
    method StoreBelow(base: Address, size: Address, entry: E) returns (ok: bool)
      requires Shape()
      modifies Repr
      ensures Shape() && fresh(Repr - old(Repr))
      ensures ok <==> Acceptable(base, size) && Store(old(Children), base, Wrap(base + size - 1), entry).Some?
      ensures if ok then Store(old(Children), base, Wrap(base + size - 1), entry) == Some(Children)
              else Children == old(Children)
      decreases Repr
    {
      hide Owned;
      hide Footprint;
      var high := Wrap(base + size - 1);
      if size <= 0 || high < base {
        return false;
      }

      var iteratorBase := Find(base);
      var iteratorHigh := Find(high);
      if iteratorBase < |map_| {
        OwnedChild(map_, Children, Repr - {this}, iteratorBase);
      }
      if iteratorHigh < |map_| {
        OwnedChild(map_, Children, Repr - {this}, iteratorHigh);
      }
      if iteratorBase == iteratorHigh && iteratorBase != |map_| && base >= map_[iteratorBase].second.base_ {
        var child := map_[iteratorBase];
        if child.second.base_ == base && child.first == high {
          return false;
        }
        ok := StoreInChild(iteratorBase, base, size, entry);
        return ok;
      }

      var containsHigh := iteratorHigh != |map_| && high >= map_[iteratorHigh].second.base_;
      if (iteratorBase != |map_| && base > map_[iteratorBase].second.base_) ||
         (containsHigh && high < map_[iteratorHigh].first) {
        return false;
      }
      if containsHigh {
        iteratorHigh := iteratorHigh + 1;
      }
      LowerBoundMonotone(Children, base, high);
      Reparent(iteratorBase, iteratorHigh, base, high, entry);
      return true;
    }

    method StoreInChild(k: nat, base: Address, size: Address, entry: E) returns (ok: bool)
      requires Shape() && k < |map_| && Acceptable(base, size)
      modifies Repr
      ensures Shape() && fresh(Repr - old(Repr))
      ensures
        var below := Store(old(Children)[k].children, base, Wrap(base + size - 1), entry);
        && ok == below.Some?
        && Children == if ok then old(Children)[k := old(Children)[k].(children := below.value)] else old(Children)
      decreases Repr, 0
    {
      hide Owned;
      hide Footprint;
      hide Store;
      hide Acceptable;
      hide Wrap;
      hide Shape;
      ShapeParts();
      ghost var trees, rest := Children, Repr - {this};
      OwnedCut(map_, trees, rest, k, k + 1);
      OwnedChild(map_, trees, rest, k);
      ghost var m, n, s, t := map_[..k], map_[k + 1..], trees[..k], trees[k + 1..];
      ghost var left, right := Footprint(m), Footprint(n);
      var child := map_[k];
      NodesOwned(m, s, left);
      NodesOwned(n, t, right);
      assert map_ == m + [child] + n && trees == s + [trees[k]] + t;
      ok := child.second.StoreBelow(base, size, entry);
      assert Footprint(m) == left && Footprint(n) == right;
      Reassemble(m, s, left, child, n, t, right);
    }

    method Reparent(lo: nat, end: nat, base: Address, high: Address, entry: E)
      requires Shape() && lo <= end <= |map_|
      modifies this
      ensures Shape() && fresh(Repr - old(Repr))
      ensures Children == Splice(old(Children), lo, end, base, high, entry)
    {
      hide Owned;
      hide Footprint;
      ghost var trees, rest := Children, Repr - {this};
      OwnedCut(map_, trees, rest, lo, end);
      ghost var left, right := Footprint(map_[..lo]), Footprint(map_[end..]);
      var node := new ContainedRangeMap.Adopt(base, entry, map_[lo..end], trees[lo..end]);
      var m, n := map_[..lo], map_[end..];
      map_ := m + [Entry(high, node)] + n;
      Reassemble(m, trees[..lo], left, Entry(high, node), n, trees[end..], right);
    }

    // The node's own account of its children, after one of the entries has changed.
    ghost method Reassemble(m: seq<Entry<E>>, s: seq<Tree<E>>, left: set<object>, e: Entry<E>,
                            n: seq<Entry<E>>, t: seq<Tree<E>>, right: set<object>)
      requires Owned(m, s, left) && Owned(n, t, right) && e.second.Shape()
      requires Footprint(m) == left && Footprint(n) == right
      requires left !! e.second.Repr && left !! right && e.second.Repr !! right
      requires this !in left + e.second.Repr + right && map_ == m + [e] + n
      modifies `Repr, `Children
      ensures Shape() && Repr == {this} + (left + e.second.Repr + right)
      ensures Children == s + [Tree(e.second.base_, e.first, e.second.entry_, e.second.Children)] + t
    {
      hide Owned;
      hide Footprint;
      FootprintAround(m, e, n);
      Repr := {this} + (left + e.second.Repr + right);
      Children := s + [Tree(e.second.base_, e.first, e.second.entry_, e.second.Children)] + t;
      NodesOwned(m, s, left);
      NodesOwned(n, t, right);
      OwnedAround(m, s, left, e.first, e.second, n, t, right, Repr - {this});
    }

    // The entry of the smallest range containing the address, when there is one.
    function RetrieveRange(address: Address): (r: Option<E>)
      requires Shape()
      reads this, Repr
      ensures r == Retrieve(Children, address)
      decreases Repr
    {
      var position := Find(address);
      if position == |map_| then None
      else
        OwnedChild(map_, Children, Repr - {this}, position);
        if address < map_[position].second.base_ then None
        else
          match map_[position].second.RetrieveRange(address)
          case Some(e) => Some(e)
          case None => Some(map_[position].second.entry_)
    }

    // Deletes every descendant, each once, and leaves the node itself alone. Deleting a child clears
    // it first.
    method Clear() returns (ghost deleted: seq<object>)
      requires Shape()
      modifies Repr
      ensures Valid() && Children == [] && Repr == {this}
      ensures multiset(deleted) == multiset(old(Repr) - {this})
      decreases Repr, 0
    {
      hide Owned;
      hide Footprint;
      ghost var trees, rest := Children, Repr - {this};
      OwnedCut(map_, trees, rest, 0, 0);
      assert map_[0..] == map_ && trees[0..] == trees;
      assert rest == Footprint(map_);
      deleted := [];
      for k := 0 to |map_|
        invariant map_ == old(map_) && Footprint(map_[k..]) <= rest
        invariant Owned(map_[k..], trees[k..], Footprint(map_[k..]))
        invariant multiset(deleted) + multiset(Footprint(map_[k..])) == multiset(rest)
      {
        ghost var m, t := map_[k..], trees[k..];
        OwnedInside(m, t, Footprint(m), 0);
        assert m[1..] == map_[k + 1..] && t[1..] == trees[k + 1..];
        ghost var more := map_[k].second.Delete(m, t);
        deleted := deleted + more;
      }
      NoFootprint<E>();
      assert map_[|map_|..] == [];
      map_ := [];
      Children := [];
      Repr := {this};
      OwnedNothing<E>(Repr - {this});
    }

    // The destructor, called for the first of the entries m.
    method Delete(ghost m: seq<Entry<E>>, ghost t: seq<Tree<E>>) returns (ghost deleted: seq<object>)
      requires m != [] && m[0].second == this && Owned(m, t, Footprint(m))
      modifies Repr
      ensures Owned(m[1..], t[1..], Footprint(m[1..])) && Footprint(m[1..]) <= old(Footprint(m))
      ensures multiset(deleted) + multiset(Footprint(m[1..])) == multiset(old(Footprint(m)))
      decreases Footprint(m), 1
    {
      hide Owned;
      hide Footprint;
      OwnedFirst(m, t);
      ghost var n, u := m[1..], t[1..];
      ghost var own, others := Repr, Footprint(n);
      NodesOwned(n, u, others);
      assert Owned(n, u, others);
      ghost var below := Clear();
      assert Owned(n, u, others) && Footprint(n) == others;
      CountDeleted(below, this, own, others);
      deleted := below + [this];
    }
  }
}
