// RangeMap itself: one std::map updated in place, with StoreRangeInternal calling itself after
// each adjustment of the new range or of a range in its way.

module RangeMaps {
  import opened Options
  import opened Addresses
  import opened StoredRanges

  class RangeMap<E> {
    var merge_strategy_: MergeRangeStrategy
    var map_: seq<Stored<E>>

    ghost predicate Valid()
      reads this
    {
      Ordered(map_)
    }

    constructor ()
      ensures Valid() && map_ == [] && merge_strategy_ == ExclusiveRanges
    {
      merge_strategy_ := ExclusiveRanges;
      map_ := [];
    }

    method SetMergeStrategy(strat: MergeRangeStrategy)
      modifies this
      ensures merge_strategy_ == strat && map_ == old(map_)
    {
      merge_strategy_ := strat;
    }

    method StoreRange(base: Address, size: Address, entry: E) returns (ok: bool)
      requires Valid()
      modifies this
      ensures Valid() && merge_strategy_ == old(merge_strategy_)
      ensures ok <==> Acceptable(base, size) && Accepts(merge_strategy_, old(map_), base, Wrap(base + size - 1))
      ensures map_ == if ok then Placed(merge_strategy_, old(map_), Stored(base + size - 1, base, 0, entry))
                      else old(map_)
    {
      ok := StoreRangeInternal(base, 0, size, entry);
    }

    // Each recursive call has fewer stored ranges in its way, or a smaller range to store.
    method StoreRangeInternal(base: Address, delta: Address, size: Address, entry: E) returns (ok: bool)
      requires Valid() && delta <= base
      modifies this
      ensures Valid() && merge_strategy_ == old(merge_strategy_)
      ensures ok <==> Acceptable(base, size) && Accepts(merge_strategy_, old(map_), base, Wrap(base + size - 1))
      ensures map_ == if ok then Placed(merge_strategy_, old(map_), Stored(base + size - 1, base, delta, entry))
                      else old(map_)
      decreases InTheWay(merge_strategy_, map_, base, Wrap(base + size - 1)), size
    {
      hide Ordered;
      hide Accepts;
      hide Placed;
      hide Insert;
      hide Erase;
      hide Lookup;
      hide InTheWay;
      hide Trim;
      hide Find;
      hide Wrap;
      AcceptableMeansNoWrap(base, size);
      var high := Wrap(base + (size - 1));
      if size <= 0 || high < base {
        return false;
      }
      var n := Stored(high, base, delta, entry);
      var iteratorBase := Find(map_, base);
      var iteratorHigh := Find(map_, high);

      if iteratorBase != iteratorHigh {
        SoundAt(map_, iteratorBase);
        if merge_strategy_ == TruncateLower {
          ok := TruncateLowerRange(iteratorBase, n);
          return;
        } else if merge_strategy_ == TruncateUpper {
          var additionalDelta := Wrap(map_[iteratorBase].high - base + 1);
          WrapFits(map_[iteratorBase].high - base + 1);
          StepRaiseNew(map_, n, iteratorBase);
          InTheWayAlike(map_, n, base + additionalDelta, high);
          AcceptsAlike(map_, base, high, base + additionalDelta);
          WrapFits(base + additionalDelta);
          WrapFits(delta + additionalDelta);
          WrapFits(size - additionalDelta);
          WrapFits(base + size - 1);
          ok := StoreRangeInternal(Wrap(base + additionalDelta), Wrap(delta + additionalDelta),
                                   Wrap(size - additionalDelta), entry);
          return;
        } else {
          Refused(merge_strategy_, map_, n, iteratorBase);
          return false;
        }
      }

      if iteratorHigh != |map_| && map_[iteratorHigh].base <= high {
        if merge_strategy_ == TruncateLower {
          ok := TruncateLowerRange(iteratorHigh, n);
          return;
        } else if merge_strategy_ == TruncateUpper && map_[iteratorHigh].high > high {
          StepTrim(TruncateUpper, map_, n, iteratorHigh, Trim(TruncateUpper, map_[iteratorHigh], base, high));
          RaiseOther(iteratorHigh, n);
          ok := StoreRangeInternal(base, delta, size, entry);
          return;
        } else {
          SoundAt(map_, iteratorHigh);
          Refused(merge_strategy_, map_, n, iteratorHigh);
          return false;
        }
      }

      StepInsert(merge_strategy_, map_, n, iteratorBase);
      ghost var k := PlacedMeaning(merge_strategy_, map_, n);
      map_ := Insert(map_, n);
      return true;
    }

    // The branch for TruncateLower, which StoreRangeInternal has twice: shorten the new range,
    // shorten the one that starts below it, or refuse.
    method TruncateLowerRange(k: nat, n: Stored<E>) returns (ok: bool)
      requires Valid() && Sound(n) && merge_strategy_ == TruncateLower
      requires k == Find(map_, n.base) < |map_| && map_[k].base <= n.high
      modifies this
      ensures Valid() && merge_strategy_ == TruncateLower
      ensures ok <==> Accepts(TruncateLower, old(map_), n.base, n.high)
      ensures map_ == if ok then Placed(TruncateLower, old(map_), n) else old(map_)
      decreases InTheWay(TruncateLower, map_, n.base, n.high), n.high - n.base + 1, 0
    {
      hide Ordered;
      hide Accepts;
      hide Placed;
      hide Insert;
      hide Erase;
      hide Lookup;
      hide InTheWay;
      hide Trim;
      hide Find;
      hide Wrap;
      hide Acceptable;
      var base, size := n.base, n.high - n.base + 1;
      var otherBase := map_[k].base;
      SoundAt(map_, k);
      WrapFits(n.high);
      AcceptableMeansNoWrap(base, size);
      if base < otherBase {
        WrapFits(otherBase - base);
        WrapFits(otherBase - 1);
        AcceptableMeansNoWrap(base, otherBase - base);
        StepShortenNew(map_, n, k);
        InTheWayAlike(map_, n, base, otherBase - 1);
        AcceptsAlike(map_, base, n.high, otherBase - 1);
        assert n.(high := otherBase - 1) == Stored(base + (otherBase - base) - 1, base, n.delta, n.entry);
        ok := StoreRangeInternal(base, n.delta, Wrap(otherBase - base), n.entry);
      } else if otherBase < base {
        StepTrim(TruncateLower, map_, n, k, Trim(TruncateLower, map_[k], base, n.high));
        LowerOther(k, n);
        assert n == Stored(base + size - 1, base, n.delta, n.entry);
        ok := StoreRangeInternal(base, n.delta, size, n.entry);
      } else {
        Refused(TruncateLower, map_, n, k);
        return false;
      }
    }

    // Cuts the range that starts below the new one and reaches into it.
    method LowerOther(k: nat, n: Stored<E>)
      requires Valid() && Sound(n) && merge_strategy_ == TruncateLower
      requires k < |map_| && map_[k].base < n.base <= map_[k].high
      modifies this
      ensures merge_strategy_ == TruncateLower
      ensures map_ == Insert(Erase(old(map_), k), Trim(TruncateLower, old(map_)[k], n.base, n.high))
    {
      hide Ordered;
      hide Lookup;
      hide Insert;
      hide Erase;
      SoundAt(map_, k);
      LookupAtHigh(map_, k);
      var otherHigh := map_[k].high;
      var other := RetrieveRange(otherHigh).value;
      map_ := Erase(map_, k);
      map_ := Insert(map_, Stored(Wrap(n.base - 1), other.base, other.delta, other.entry));
    }

    // Moves the start of the range that begins at or below the new one's end and reaches past it.
    method RaiseOther(k: nat, n: Stored<E>)
      requires Valid() && Sound(n) && merge_strategy_ == TruncateUpper
      requires k < |map_| && map_[k].base <= n.high < map_[k].high
      modifies this
      ensures merge_strategy_ == TruncateUpper
      ensures map_ == Insert(Erase(old(map_), k), Trim(TruncateUpper, old(map_)[k], n.base, n.high))
    {
      hide Ordered;
      hide Lookup;
      hide Insert;
      hide Erase;
      SoundAt(map_, k);
      LookupAtHigh(map_, k);
      var otherHigh := map_[k].high;
      hide Wrap;
      WrapFits(n.high - map_[k].base + 1);
      WrapFits(n.high + 1);
      var additionalDelta := Wrap(n.high - map_[k].base + 1);
      var other := RetrieveRange(otherHigh).value;
      map_ := Erase(map_, k);
      map_ := Insert(map_, Stored(otherHigh, Wrap(other.base + additionalDelta), Wrap(other.delta + additionalDelta),
                                  other.entry));
    }

    function RetrieveRange(address: Address): Option<Found<E>>
      reads this
    {
      Lookup(map_, address)
    }

    function RetrieveNearestRange(address: Address): Option<Found<E>>
      reads this
    {
      LookupNearest(map_, address)
    }

    // Walks the map to the index; past the end there is nothing to report.
    method RetrieveRangeAtIndex(index: nat) returns (r: Option<Found<E>>)
      ensures r == if index < |map_| then Some(Report(map_[index])) else None
    {
      if index >= GetCount() {
        return None;
      }
      var rest := map_;
      for thisIndex := 0 to index
        invariant rest == map_[thisIndex..]
      {
        rest := rest[1..];
      }
      return Some(Report(rest[0]));
    }

    function GetCount(): nat
      reads this
    {
      |map_|
    }

    method Clear()
      modifies this
      ensures Valid() && map_ == [] && merge_strategy_ == old(merge_strategy_)
    {
      map_ := [];
    }
  }

  lemma SoundAt<E>(m: seq<Stored<E>>, k: nat)
    requires Ordered(m) && k < |m|
    ensures Sound(m[k])
  {
  }

  lemma AcceptsAlike<E>(m: seq<Stored<E>>, base: Address, high: Address, other: Address)
    ensures Accepts(TruncateLower, m, base, high) <==> Accepts(TruncateLower, m, base, other)
    ensures Accepts(TruncateUpper, m, base, high) <==> Accepts(TruncateUpper, m, other, high)
  {
  }
}
