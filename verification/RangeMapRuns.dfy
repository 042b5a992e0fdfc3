// RangeMap over whole runs: any sequence of stores, strategy changes and clears.

module RangeMapRuns {
  import opened Addresses
  import opened StoredRanges
  import RangeMaps

  datatype Op<+E> = StoreRange(q: Request<E>) | SetMergeStrategy(strategy: MergeRangeStrategy) | Clear

  // The map, and the requests accepted since it was last cleared, in order of arrival.
  datatype State<+E> = State(strategy: MergeRangeStrategy, m: seq<Stored<E>>, accepted: seq<Request<E>>)

  ghost predicate Taken<E>(st: State<E>, q: Request<E>) {
    Acceptable(q.base, q.size) && Accepts(st.strategy, st.m, q.base, Wrap(q.base + q.size - 1))
  }

  function New<E>(q: Request<E>): (n: Stored<E>)
    requires Acceptable(q.base, q.size)
    ensures Sound(n)
  {
    AcceptableMeansNoWrap(q.base, q.size);
    Stored(q.base + q.size - 1, q.base, 0, q.entry)
  }

  // One call, as the contracts of RangeMap describe it.
  ghost function Next<E>(st: State<E>, op: Op<E>): State<E> {
    match op
    case StoreRange(q) =>
      if Taken(st, q) then State(st.strategy, Placed(st.strategy, st.m, New(q)), st.accepted + [q]) else st
    case SetMergeStrategy(s) => st.(strategy := s)
    case Clear => State(st.strategy, [], [])
  }

  ghost function Run<E>(ops: seq<Op<E>>): State<E> {
    if ops == [] then State(ExclusiveRanges, [], [])
    else Next(Run(ops[..|ops| - 1]), ops[|ops| - 1])
  }

  // The same calls made on a map end in that state.
  method RunOnMap<E>(ops: seq<Op<E>>) returns (m: RangeMaps.RangeMap<E>)
    ensures fresh(m) && m.Valid() && m.map_ == Run(ops).m && m.merge_strategy_ == Run(ops).strategy
  {
    hide Next;
    hide Ordered;
    m := new RangeMaps.RangeMap();
    for i := 0 to |ops|
      invariant fresh(m) && m.Valid()
      invariant m.map_ == Run(ops[..i]).m && m.merge_strategy_ == Run(ops[..i]).strategy
    {
      assert ops[..i + 1][..i] == ops[..i];
      Call(m, ops[i], Run(ops[..i]));
    }
    assert ops[..|ops|] == ops;
  }

  method Call<E>(m: RangeMaps.RangeMap<E>, op: Op<E>, ghost st: State<E>)
    requires m.Valid() && m.map_ == st.m && m.merge_strategy_ == st.strategy
    modifies m
    ensures m.Valid() && m.map_ == Next(st, op).m && m.merge_strategy_ == Next(st, op).strategy
  {
    hide Placed;
    hide Accepts;
    match op {
      case StoreRange(q) =>
        AcceptableMeansNoWrap(q.base, q.size);
        hide Wrap;
        var _ := m.StoreRange(q.base, q.size, q.entry);
      case SetMergeStrategy(s) => m.SetMergeStrategy(s);
      case Clear => m.Clear();
    }
  }

  // The stored range is what is left of the request: it lies inside it, carries its entry, and its
  // delta leads back to the start that was asked for.
  ghost predicate LeftOf<E>(s: Stored<E>, q: Request<E>) {
    && q.base == s.base - s.delta
    && s.high <= q.base + q.size - 1
    && s.entry == q.entry
  }

  ghost predicate Explains<E>(m: seq<Stored<E>>, log: seq<Request<E>>) {
    |log| == |m| && forall i :: 0 <= i < |m| ==> LeftOf(m[i], log[i])
  }

  // In every reachable state the ranges are sound, ordered and disjoint, and they stand one to one
  // for the accepted requests: none is lost, whatever the strategies did to their extents.
  lemma {:induction false} RunKeepsEveryRange<E>(ops: seq<Op<E>>) returns (log: seq<Request<E>>)
    ensures Ordered(Run(ops).m)
    ensures Explains(Run(ops).m, log) && multiset(log) == multiset(Run(ops).accepted)
    decreases |ops|
  {
    if ops == [] {
      log := [];
    } else {
      var before, op := Run(ops[..|ops| - 1]), ops[|ops| - 1];
      log := RunKeepsEveryRange(ops[..|ops| - 1]);
      if op.Clear? {
        log := [];
      } else if op.StoreRange? && Taken(before, op.q) {
        log := StoreKeepsEveryRange(before, op.q, log);
      }
    }
  }

  lemma StoreKeepsEveryRange<E>(st: State<E>, q: Request<E>, log: seq<Request<E>>) returns (log': seq<Request<E>>)
    requires Taken(st, q) && Ordered(st.m) && Explains(st.m, log) && multiset(log) == multiset(st.accepted)
    ensures Ordered(Next(st, StoreRange(q)).m)
    ensures Explains(Next(st, StoreRange(q)).m, log') && multiset(log') == multiset(st.accepted + [q])
  {
    hide Placed;
    hide TrimAll;
    hide Fit;
    hide Ordered;
    hide LeftOf;
    var n := New(q);
    AcceptableMeansNoWrap(q.base, q.size);
    var k := PlacedMeaning(st.strategy, st.m, n);
    TrimmingExplains(st.strategy, st.m, n, log);
    FitIsLeftOf(st.strategy, st.m, q);
    log' := log[..k] + [q] + log[k..];
    assert log == log[..k] + log[k..];
  }

  lemma TrimmingExplains<E>(strategy: MergeRangeStrategy, m: seq<Stored<E>>, n: Stored<E>, log: seq<Request<E>>)
    requires Ordered(m) && Explains(m, log)
    ensures Explains(TrimAll(strategy, m, n.base, n.high), log)
  {
  }

  lemma FitIsLeftOf<E>(strategy: MergeRangeStrategy, m: seq<Stored<E>>, q: Request<E>)
    requires Acceptable(q.base, q.size)
    ensures LeftOf(Fit(strategy, m, New(q)), q)
  {
  }
}

// TruncateUpper is TruncateLower seen from the other end of the address space.
module RangeMapDuality {
  import opened Addresses
  import opened StoredRanges

  // Address x becomes MAX_ADDRESS - x. Deltas are forgotten.
  function Mirror<E>(s: Stored<E>): Stored<E> {
    Stored(MAX_ADDRESS - s.base, MAX_ADDRESS - s.high, 0, s.entry)
  }

  function MirrorAll<E>(m: seq<Stored<E>>): (r: seq<Stored<E>>)
    ensures |r| == |m|
  {
    seq(|m|, i requires 0 <= i < |m| => Mirror(m[|m| - 1 - i]))
  }

  lemma MirrorMembers<E>(m: seq<Stored<E>>)
    ensures forall s :: s in m ==> Mirror(s) in MirrorAll(m)
    ensures forall r :: r in MirrorAll(m) ==> exists s :: s in m && r == Mirror(s)
  {
    forall s | s in m ensures Mirror(s) in MirrorAll(m) {
      var i :| 0 <= i < |m| && m[i] == s;
      assert MirrorAll(m)[|m| - 1 - i] == Mirror(s);
    }
  }

  lemma MirrorAccepts<E>(m: seq<Stored<E>>, base: Address, high: Address)
    ensures Accepts(TruncateUpper, m, base, high)
       <==> Accepts(TruncateLower, MirrorAll(m), MAX_ADDRESS - high, MAX_ADDRESS - base)
  {
    MirrorMembers(m);
    if !Accepts(TruncateUpper, m, base, high) {
      var s :| s in m && s.high == high;
      assert Mirror(s) in MirrorAll(m);
    }
  }

  lemma MirrorNewEnd<E>(m: seq<Stored<E>>, base: Address, high: Address)
    requires base <= high
    ensures NewHigh(MirrorAll(m), MAX_ADDRESS - high, MAX_ADDRESS - base) == MAX_ADDRESS - NewBase(m, base, high)
  {
    hide NewHigh;
    hide NewBase;
    MirrorMembers(m);
    var h := NewHigh(MirrorAll(m), MAX_ADDRESS - high, MAX_ADDRESS - base);
    var b := NewBase(m, base, high);
    if h < MAX_ADDRESS - base {
      var r :| r in MirrorAll(m) && MAX_ADDRESS - high < r.base == h + 1;
      var s :| s in m && r == Mirror(s);
      assert s.high < b;
    }
    if base < b {
      var s :| s in m && base <= s.high && s.high + 1 == b;
      assert Mirror(s) in MirrorAll(m);
    }
  }

  lemma MirrorFit<E>(m: seq<Stored<E>>, n: Stored<E>)
    requires Sound(n)
    ensures Mirror(Fit(TruncateUpper, m, n)) == Fit(TruncateLower, MirrorAll(m), Mirror(n))
  {
    MirrorNewEnd(m, n.base, n.high);
  }

  lemma MirrorTrimAll<E>(m: seq<Stored<E>>, base: Address, high: Address)
    ensures MirrorAll(TrimAll(TruncateUpper, m, base, high))
         == TrimAll(TruncateLower, MirrorAll(m), MAX_ADDRESS - high, MAX_ADDRESS - base)
  {
    forall i | 0 <= i < |m|
      ensures Mirror(Trim(TruncateUpper, m[i], base, high))
           == Trim(TruncateLower, Mirror(m[i]), MAX_ADDRESS - high, MAX_ADDRESS - base)
    {
    }
  }

  // Reflecting a list with one range put in at k puts the reflected range in as far from the end.
  lemma MirrorInsert<E>(t: seq<Stored<E>>, k: nat, f: Stored<E>)
    requires k <= |t| && Ordered(t[..k] + [f] + t[k..])
    ensures MirrorAll(t[..k] + [f] + t[k..]) == Insert(MirrorAll(t), Mirror(f))
  {
    hide Find;
    var g := t[..k] + [f] + t[k..];
    var r, j := MirrorAll(t), |t| - k;
    forall i | 0 <= i < |t| ensures i < j ==> r[i].high < Mirror(f).high
                            ensures j <= i ==> Mirror(f).high < r[i].high
    {
      var o := |t| - 1 - i;
      assert r[i] == Mirror(t[o]) && Sound(g[k]) && Sound(g[if o < k then o else o + 1]);
      assert t[o] == if o < k then g[o] else g[o + 1];
      assert if o < k then g[o].high < g[k].base else g[k].high < g[o + 1].base;
    }
    FindIs(r, Mirror(f).high, j);
    MirrorConcat(t, k, f);
  }

  lemma MirrorConcat<E>(t: seq<Stored<E>>, k: nat, f: Stored<E>)
    requires k <= |t|
    ensures var r, j := MirrorAll(t), |t| - k; MirrorAll(t[..k] + [f] + t[k..]) == r[..j] + [Mirror(f)] + r[j..]
  {
  }

  lemma TrimAllLength<E>(strategy: MergeRangeStrategy, m: seq<Stored<E>>, base: Address, high: Address)
    ensures |TrimAll(strategy, m, base, high)| == |m|
  {
  }

  // Deltas aside, a TruncateUpper store is a TruncateLower store of the reflected range into the
  // reflected map, reflected back; one is refused exactly when the other is.
  lemma UpperIsLowerMirrored<E>(m: seq<Stored<E>>, n: Stored<E>)
    requires Ordered(m) && Sound(n)
    ensures Accepts(TruncateUpper, m, n.base, n.high)
       <==> Accepts(TruncateLower, MirrorAll(m), MAX_ADDRESS - n.high, MAX_ADDRESS - n.base)
    ensures Accepts(TruncateUpper, m, n.base, n.high) ==>
              MirrorAll(Placed(TruncateUpper, m, n)) == Placed(TruncateLower, MirrorAll(m), Mirror(n))
  {
    hide Insert;
    hide TrimAll;
    hide Fit;
    hide Accepts;
    MirrorAccepts(m, n.base, n.high);
    if Accepts(TruncateUpper, m, n.base, n.high) {
      var k := PlacedMeaning(TruncateUpper, m, n);
      TrimAllLength(TruncateUpper, m, n.base, n.high);
      MirrorInsert(TrimAll(TruncateUpper, m, n.base, n.high), k, Fit(TruncateUpper, m, n));
      MirrorTrimAll(m, n.base, n.high);
      MirrorFit(m, n);
    }
  }
}
