// The value held by a RangeMap: disjoint ranges in ascending order, each with the amount by which
// its start was moved up (delta), and the closed form of a store under each merge strategy.

module StoredRanges {
  import opened Options
  import opened Addresses
  import opened SortedKeys

  datatype MergeRangeStrategy = ExclusiveRanges | TruncateLower | TruncateUpper

  // One entry of the std::map, keyed by high.
  datatype Stored<+E> = Stored(high: Address, base: Address, delta: Address, entry: E)

  function Keys<E>(m: seq<Stored<E>>): seq<Address> {
    seq(|m|, i requires 0 <= i < |m| => m[i].high)
  }

  // The range is not empty, its size is a number of 64 bits, and its delta does not reach below
  // address zero.
  predicate Sound<E>(s: Stored<E>) {
    s.delta <= s.base <= s.high && s.high - s.base < MAX_ADDRESS
  }

  // The ranges ascend and do not meet.
  ghost predicate Ordered<E>(m: seq<Stored<E>>) {
    && (forall i :: 0 <= i < |m| ==> Sound(m[i]))
    && (forall i, j :: 0 <= i < j < |m| ==> m[i].high < m[j].base)
  }

  predicate Covers<E>(s: Stored<E>, a: Address) {
    s.base <= a <= s.high
  }

  // ---------------------------------------------------------------- std::map on these entries

  function Find<E>(m: seq<Stored<E>>, a: Address): (k: nat)
    ensures k <= |m|
    ensures forall i :: 0 <= i < k ==> m[i].high < a
    ensures k < |m| ==> a <= m[k].high
  {
    var k := LowerBound(Keys(m), a);
    assert forall i :: 0 <= i < |m| ==> Keys(m)[i] == m[i].high;
    k
  }

  function FindAbove<E>(m: seq<Stored<E>>, a: Address): (k: nat)
    ensures k <= |m|
    ensures forall i :: 0 <= i < k ==> m[i].high <= a
    ensures k < |m| ==> a < m[k].high
  {
    var k := UpperBound(Keys(m), a);
    assert forall i :: 0 <= i < |m| ==> Keys(m)[i] == m[i].high;
    k
  }

  function Erase<E>(m: seq<Stored<E>>, k: nat): seq<Stored<E>>
    requires k < |m|
  {
    m[..k] + m[k + 1..]
  }

  // insert leaves an entry with an equal key as it is.
  function Insert<E>(m: seq<Stored<E>>, s: Stored<E>): seq<Stored<E>> {
    var k := Find(m, s.high);
    if k < |m| && m[k].high == s.high then m else m[..k] + [s] + m[k..]
  }

  // ---------------------------------------------------------------- the closed form of a store

  // The range ends just below the lowest stored start in (base, high], or at high.
  function NewHigh<E>(m: seq<Stored<E>>, base: Address, high: Address): (h: Address)
    requires base <= high
    ensures base <= h <= high
    ensures forall s :: s in m && base < s.base ==> h < s.base
    ensures h == high || exists s :: s in m && base < s.base == h + 1
  {
    if m == [] then high
    else
      var h := NewHigh(m[1..], base, high);
      assert m == [m[0]] + m[1..];
      if base < m[0].base <= h then m[0].base - 1 else h
  }

  // The range starts just above the highest stored end in [base, high), or at base.
  function NewBase<E>(m: seq<Stored<E>>, base: Address, high: Address): (b: Address)
    requires base <= high
    ensures base <= b <= high
    ensures forall s :: s in m && s.high < high ==> s.high < b
    ensures b == base || exists s :: s in m && base <= s.high && s.high + 1 == b
  {
    if m == [] then base
    else
      var b := NewBase(m[1..], base, high);
      assert m == [m[0]] + m[1..];
      if b <= m[0].high < high then m[0].high + 1 else b
  }

  predicate Straddles<E>(strategy: MergeRangeStrategy, s: Stored<E>, base: Address, high: Address) {
    match strategy
    case ExclusiveRanges => false
    case TruncateLower => s.base < base <= s.high
    case TruncateUpper => s.base <= high < s.high
  }

  // The addresses a store leaves to a range it straddles: those below the new range under
  // TruncateLower, those above it under TruncateUpper.
  predicate Spares(strategy: MergeRangeStrategy, base: Address, high: Address, a: Address) {
    if strategy.TruncateLower? then a < base else high < a
  }

  // What a store does to a range that was already there.
  function Trim<E>(strategy: MergeRangeStrategy, s: Stored<E>, base: Address, high: Address): (r: Stored<E>)
    ensures Sound(s) ==> Sound(r) && s.base <= r.base && r.high <= s.high && r.base - r.delta == s.base - s.delta
    ensures !Straddles(strategy, r, base, high)
    ensures !Straddles(strategy, s, base, high) ==> r == s
    ensures Straddles(strategy, s, base, high) ==>
              r.entry == s.entry && forall a :: Covers(r, a) <==> Covers(s, a) && Spares(strategy, base, high, a)
  {
    if !Straddles(strategy, s, base, high) then s
    else if strategy.TruncateLower? then s.(high := base - 1)
    else s.(base := high + 1, delta := Wrap(s.delta + (high - s.base + 1)))
  }

  function TrimAll<E>(strategy: MergeRangeStrategy, m: seq<Stored<E>>, base: Address, high: Address): seq<Stored<E>> {
    seq(|m|, i requires 0 <= i < |m| => Trim(strategy, m[i], base, high))
  }

  // The addresses the new range gets: under TruncateLower those below every stored start above its
  // base, under TruncateUpper those above every stored end below its high.
  ghost predicate Gets<E>(strategy: MergeRangeStrategy, m: seq<Stored<E>>, n: Stored<E>, a: Address) {
    && Covers(n, a)
    && match strategy
       case ExclusiveRanges => true
       case TruncateLower => forall s :: s in m && n.base < s.base ==> a < s.base
       case TruncateUpper => forall s :: s in m && s.high < n.high ==> s.high < a
  }

  // What is stored of the new range.
  function Fit<E>(strategy: MergeRangeStrategy, m: seq<Stored<E>>, n: Stored<E>): (r: Stored<E>)
    requires Sound(n)
    ensures Sound(r) && n.base <= r.base && r.high <= n.high
    ensures r.base - r.delta == n.base - n.delta && r.entry == n.entry
    ensures forall a :: Covers(r, a) <==> Gets(strategy, m, n, a)
  {
    match strategy
    case ExclusiveRanges => n
    case TruncateLower => n.(high := NewHigh(m, n.base, n.high))
    case TruncateUpper =>
      var b := NewBase(m, n.base, n.high);
      n.(base := b, delta := n.delta + (b - n.base))
  }

  ghost predicate Accepts<E>(strategy: MergeRangeStrategy, m: seq<Stored<E>>, base: Address, high: Address) {
    match strategy
    case ExclusiveRanges => forall s :: s in m ==> s.high < base || high < s.base
    case TruncateLower => forall s :: s in m ==> s.base != base
    case TruncateUpper => forall s :: s in m ==> s.high != high
  }

  function Placed<E>(strategy: MergeRangeStrategy, m: seq<Stored<E>>, n: Stored<E>): seq<Stored<E>>
    requires Sound(n)
  {
    Insert(TrimAll(strategy, m, n.base, n.high), Fit(strategy, m, n))
  }

  // ---------------------------------------------------------------- what the closed form keeps

  lemma TrimAllOrdered<E>(strategy: MergeRangeStrategy, m: seq<Stored<E>>, base: Address, high: Address)
    requires Ordered(m)
    ensures Ordered(TrimAll(strategy, m, base, high))
  {
  }

  predicate Apart<E>(s: Stored<E>, t: Stored<E>) {
    s.high < t.base || t.high < s.base
  }

  lemma FitIsApart<E>(strategy: MergeRangeStrategy, m: seq<Stored<E>>, n: Stored<E>, i: nat)
    requires Ordered(m) && Sound(n) && Accepts(strategy, m, n.base, n.high) && i < |m|
    ensures Apart(TrimAll(strategy, m, n.base, n.high)[i], Fit(strategy, m, n))
  {
  }

  // Inserting a range that meets no other puts it at its place and moves nothing else.
  lemma InsertApart<E>(m: seq<Stored<E>>, s: Stored<E>)
    requires Ordered(m) && Sound(s) && forall i :: 0 <= i < |m| ==> Apart(m[i], s)
    ensures var k := Find(m, s.high); Insert(m, s) == m[..k] + [s] + m[k..]
    ensures Ordered(Insert(m, s))
  {
  }

  // A store that is accepted adds exactly one range, in its place among the trimmed old ones.
  lemma PlacedMeaning<E>(strategy: MergeRangeStrategy, m: seq<Stored<E>>, n: Stored<E>) returns (k: nat)
    requires Ordered(m) && Sound(n) && Accepts(strategy, m, n.base, n.high)
    ensures k <= |m|
    ensures
      var t := TrimAll(strategy, m, n.base, n.high);
      Placed(strategy, m, n) == t[..k] + [Fit(strategy, m, n)] + t[k..]
    ensures Ordered(Placed(strategy, m, n))
  {
    var t := TrimAll(strategy, m, n.base, n.high);
    var f := Fit(strategy, m, n);
    TrimAllOrdered(strategy, m, n.base, n.high);
    forall i | 0 <= i < |t| ensures Apart(t[i], f) {
      FitIsApart(strategy, m, n, i);
    }
    InsertApart(t, f);
    k := Find(t, f.high);
  }

  // ---------------------------------------------------------------- the steps of a store

  lemma FindIs<E>(m: seq<Stored<E>>, a: Address, k: nat)
    requires k <= |m| && (forall i :: 0 <= i < k ==> m[i].high < a) && (k < |m| ==> a <= m[k].high)
    ensures Find(m, a) == k
  {
  }

  // With no range at or above base starting below the new range's end, nothing meets the new range.
  lemma NothingInTheWay<E>(m: seq<Stored<E>>, n: Stored<E>, k: nat)
    requires Ordered(m) && Sound(n) && k == Find(m, n.base) && (k < |m| ==> n.high < m[k].base)
    ensures forall i :: 0 <= i < |m| ==> Apart(m[i], n)
  {
  }

  lemma TrimAllApart<E>(strategy: MergeRangeStrategy, m: seq<Stored<E>>, n: Stored<E>)
    requires forall i :: 0 <= i < |m| ==> Sound(m[i]) && Apart(m[i], n)
    requires Sound(n)
    ensures TrimAll(strategy, m, n.base, n.high) == m
  {
  }

  lemma FitApart<E>(strategy: MergeRangeStrategy, m: seq<Stored<E>>, n: Stored<E>)
    requires forall i :: 0 <= i < |m| ==> Sound(m[i]) && Apart(m[i], n)
    requires Sound(n)
    ensures Accepts(strategy, m, n.base, n.high) && Fit(strategy, m, n) == n
  {
  }

  lemma StepInsert<E>(strategy: MergeRangeStrategy, m: seq<Stored<E>>, n: Stored<E>, k: nat)
    requires Ordered(m) && Sound(n) && k == Find(m, n.base) && (k < |m| ==> n.high < m[k].base)
    ensures Accepts(strategy, m, n.base, n.high) && Placed(strategy, m, n) == Insert(m, n)
  {
    hide Insert;
    hide Trim;
    hide Find;
    NothingInTheWay(m, n, k);
    TrimAllApart(strategy, m, n);
    FitApart(strategy, m, n);
  }

  lemma TrimAllAlike<E>(m: seq<Stored<E>>, n: Stored<E>, base: Address, high: Address)
    requires Sound(n)
    ensures TrimAll(TruncateLower, m, n.base, n.high) == TrimAll(TruncateLower, m, n.base, high)
    ensures TrimAll(TruncateUpper, m, n.base, n.high) == TrimAll(TruncateUpper, m, base, n.high)
  {
  }

  // The first range at or above base starts inside the new range: that is where it is cut off.
  lemma StepShortenNew<E>(m: seq<Stored<E>>, n: Stored<E>, k: nat)
    requires Ordered(m) && Sound(n) && k == Find(m, n.base) < |m| && n.base < m[k].base <= n.high
    ensures Placed(TruncateLower, m, n.(high := m[k].base - 1)) == Placed(TruncateLower, m, n)
  {
    hide Insert;
    hide TrimAll;
    hide Ordered;
    NewHighIsFirstStart(m, n.base, n.high, k);
    TrimAllAlike(m, n, n.base, m[k].base - 1);
  }

  lemma NewHighIsFirstStart<E>(m: seq<Stored<E>>, base: Address, high: Address, k: nat)
    requires Ordered(m) && k == Find(m, base) < |m| && base < m[k].base <= high
    ensures NewHigh(m, base, high) == m[k].base - 1 == NewHigh(m, base, m[k].base - 1)
  {
  }

  // The range with its start moved up by d.
  function Raise<E>(n: Stored<E>, d: nat): (r: Stored<E>)
    requires Sound(n) && n.base + d <= n.high
    ensures Sound(r) && r.base - r.delta == n.base - n.delta
  {
    n.(base := n.base + d, delta := n.delta + d)
  }

  // The first range at or above base ends inside the new range: the new range starts after it.
  lemma StepRaiseNew<E>(m: seq<Stored<E>>, n: Stored<E>, k: nat)
    requires Sound(n) && k < |m| && n.base <= m[k].high < n.high
    ensures Placed(TruncateUpper, m, Raise(n, m[k].high - n.base + 1)) == Placed(TruncateUpper, m, n)
  {
    hide Insert;
    hide TrimAll;
    hide Fit;
    var r := Raise(n, m[k].high - n.base + 1);
    FitOfRaised(m, n, m[k]);
    TrimAllAlike(m, n, r.base, n.high);
  }

  lemma FitOfRaised<E>(m: seq<Stored<E>>, n: Stored<E>, s: Stored<E>)
    requires Sound(n) && s in m && n.base <= s.high < n.high
    ensures Fit(TruncateUpper, m, Raise(n, s.high - n.base + 1)) == Fit(TruncateUpper, m, n)
  {
  }

  lemma NewHighUsesStarts<E>(m: seq<Stored<E>>, t: seq<Stored<E>>, base: Address, high: Address)
    requires base <= high && |m| == |t| && forall i :: 0 <= i < |m| ==> m[i].base == t[i].base
    ensures NewHigh(m, base, high) == NewHigh(t, base, high)
  {
  }

  lemma NewBaseUsesEnds<E>(m: seq<Stored<E>>, t: seq<Stored<E>>, base: Address, high: Address)
    requires base <= high && |m| == |t| && forall i :: 0 <= i < |m| ==> m[i].high == t[i].high
    ensures NewBase(m, base, high) == NewBase(t, base, high)
  {
  }

  lemma AcceptsUsesEnds<E>(strategy: MergeRangeStrategy, m: seq<Stored<E>>, t: seq<Stored<E>>,
                           base: Address, high: Address)
    requires |m| == |t|
    requires !strategy.ExclusiveRanges?
    requires strategy.TruncateLower? ==> forall i :: 0 <= i < |m| ==> m[i].base == t[i].base
    requires strategy.TruncateUpper? ==> forall i :: 0 <= i < |m| ==> m[i].high == t[i].high
    ensures Accepts(strategy, t, base, high) <==> Accepts(strategy, m, base, high)
  {
  }

  lemma FitUsesEnds<E>(strategy: MergeRangeStrategy, m: seq<Stored<E>>, t: seq<Stored<E>>, n: Stored<E>)
    requires Sound(n) && |m| == |t| && !strategy.ExclusiveRanges?
    requires strategy.TruncateLower? ==> forall i :: 0 <= i < |m| ==> m[i].base == t[i].base
    requires strategy.TruncateUpper? ==> forall i :: 0 <= i < |m| ==> m[i].high == t[i].high
    ensures Fit(strategy, m, n) == Fit(strategy, t, n)
  {
    hide NewHigh;
    hide NewBase;
    if strategy.TruncateLower? {
      NewHighUsesStarts(m, t, n.base, n.high);
    } else {
      NewBaseUsesEnds(m, t, n.base, n.high);
    }
  }

  // Trimming the range in the way and trying again does what one store does.
  lemma StepTrimOld<E>(strategy: MergeRangeStrategy, m: seq<Stored<E>>, n: Stored<E>, k: nat)
    requires Sound(n) && k < |m| && Straddles(strategy, m[k], n.base, n.high)
    ensures
      var t := m[k := Trim(strategy, m[k], n.base, n.high)];
      && (Accepts(strategy, t, n.base, n.high) <==> Accepts(strategy, m, n.base, n.high))
      && Placed(strategy, t, n) == Placed(strategy, m, n)
  {
    hide Insert;
    hide Fit;
    hide Accepts;
    hide TrimAll;
    var t := m[k := Trim(strategy, m[k], n.base, n.high)];
    TrimAllTwice(strategy, m, n.base, n.high, k);
    FitUsesEnds(strategy, m, t, n);
    AcceptsUsesEnds(strategy, m, t, n.base, n.high);
  }

  lemma TrimAllTwice<E>(strategy: MergeRangeStrategy, m: seq<Stored<E>>, base: Address, high: Address, k: nat)
    requires k < |m|
    ensures TrimAll(strategy, m[k := Trim(strategy, m[k], base, high)], base, high) == TrimAll(strategy, m, base, high)
  {
  }

  lemma ReplaceInPlace<E>(m: seq<Stored<E>>, k: nat, s: Stored<E>)
    requires Ordered(m) && k < |m| && Sound(s) && m[k].base <= s.base && s.high <= m[k].high
    ensures Insert(Erase(m, k), s) == m[k := s] && Ordered(m[k := s])
  {
    hide Find;
    FindInRest(m, k, s.high);
    UpdateOrdered(m, k, s);
  }

  lemma FindInRest<E>(m: seq<Stored<E>>, k: nat, a: Address)
    requires Ordered(m) && k < |m| && m[k].base <= a <= m[k].high
    ensures var e := Erase(m, k); Find(e, a) == k && (k < |e| ==> e[k].high != a)
  {
  }

  lemma UpdateOrdered<E>(m: seq<Stored<E>>, k: nat, s: Stored<E>)
    requires Ordered(m) && k < |m| && Sound(s) && m[k].base <= s.base && s.high <= m[k].high
    ensures Ordered(m[k := s])
  {
  }

  // How many stored ranges a store still has to trim: none or one.
  ghost function InTheWay<E>(strategy: MergeRangeStrategy, m: seq<Stored<E>>, base: Address, high: Address): nat {
    if exists i :: 0 <= i < |m| && Straddles(strategy, m[i], base, high) then 1 else 0
  }

  // The whole of one trimming step on the std::map.
  lemma StepTrim<E>(strategy: MergeRangeStrategy, m: seq<Stored<E>>, n: Stored<E>, k: nat, s: Stored<E>)
    requires Ordered(m) && Sound(n) && k < |m| && Straddles(strategy, m[k], n.base, n.high)
    requires s == Trim(strategy, m[k], n.base, n.high)
    ensures
      var t := Insert(Erase(m, k), s);
      && Ordered(t)
      && Accepts(strategy, m, n.base, n.high) && Accepts(strategy, t, n.base, n.high)
      && Placed(strategy, t, n) == Placed(strategy, m, n)
      && InTheWay(strategy, t, n.base, n.high) < InTheWay(strategy, m, n.base, n.high)
  {
    hide Accepts;
    hide Placed;
    hide Insert;
    ReplaceInPlace(m, k, s);
    StepTrimOld(strategy, m, n, k);
    OneInTheWay(strategy, m, n, k);
    StraddledIsAccepted(strategy, m, n, k);
  }

  // A range in the way covers the boundary that another would have to share to be refused.
  lemma StraddledIsAccepted<E>(strategy: MergeRangeStrategy, m: seq<Stored<E>>, n: Stored<E>, k: nat)
    requires Ordered(m) && Sound(n) && k < |m| && Straddles(strategy, m[k], n.base, n.high)
    ensures Accepts(strategy, m, n.base, n.high)
  {
  }

  lemma OneInTheWay<E>(strategy: MergeRangeStrategy, m: seq<Stored<E>>, n: Stored<E>, k: nat)
    requires Ordered(m) && Sound(n) && k < |m| && Straddles(strategy, m[k], n.base, n.high)
    ensures
      InTheWay(strategy, m[k := Trim(strategy, m[k], n.base, n.high)], n.base, n.high) <
      InTheWay(strategy, m, n.base, n.high)
  {
  }

  lemma InTheWayAlike<E>(m: seq<Stored<E>>, n: Stored<E>, base: Address, high: Address)
    ensures InTheWay(TruncateLower, m, n.base, n.high) == InTheWay(TruncateLower, m, n.base, high)
    ensures InTheWay(TruncateUpper, m, n.base, n.high) == InTheWay(TruncateUpper, m, base, n.high)
  {
  }

  // A stored range that keeps the new one out.
  lemma Refused<E>(strategy: MergeRangeStrategy, m: seq<Stored<E>>, n: Stored<E>, k: nat)
    requires Sound(n) && k < |m| && Sound(m[k])
    requires match strategy
             case ExclusiveRanges => !Apart(m[k], n)
             case TruncateLower => m[k].base == n.base
             case TruncateUpper => m[k].high == n.high
    ensures !Accepts(strategy, m, n.base, n.high)
  {
  }

  // ---------------------------------------------------------------- lookups

  // What the three lookups report of a range.
  datatype Found<+E> = Found(entry: E, base: Address, delta: Address, size: Address)

  function Report<E>(s: Stored<E>): Found<E> {
    Found(s.entry, s.base, s.delta, Wrap(s.high - s.base + 1))
  }

  function Lookup<E>(m: seq<Stored<E>>, a: Address): Option<Found<E>> {
    var k := Find(m, a);
    if k == |m| || a < m[k].base then None else Some(Report(m[k]))
  }

  function LookupNearest<E>(m: seq<Stored<E>>, a: Address): Option<Found<E>> {
    if Lookup(m, a).Some? then Lookup(m, a)
    else
      var k := FindAbove(m, a);
      if k == 0 then None else Some(Report(m[k - 1]))
  }

  // A lookup reports the one range that contains the address.
  lemma LookupMeaning<E>(m: seq<Stored<E>>, a: Address)
    requires Ordered(m)
    ensures Lookup(m, a).None? <==> forall i :: 0 <= i < |m| ==> !Covers(m[i], a)
    ensures forall i :: 0 <= i < |m| && Covers(m[i], a) ==>
                          Lookup(m, a) == Some(Found(m[i].entry, m[i].base, m[i].delta, m[i].high - m[i].base + 1))
  {
  }

  lemma LookupAtHigh<E>(m: seq<Stored<E>>, k: nat)
    requires Ordered(m) && k < |m|
    ensures Lookup(m, m[k].high) == Some(Report(m[k]))
  {
  }

  // When no range contains the address, the nearest range is the last one that ends below it.
  lemma NearestMeaning<E>(m: seq<Stored<E>>, a: Address)
    requires Ordered(m)
    ensures Lookup(m, a).Some? ==> LookupNearest(m, a) == Lookup(m, a)
    ensures Lookup(m, a).None? ==>
              match LookupNearest(m, a)
              case None => forall i :: 0 <= i < |m| ==> a < m[i].base
              case Some(r) =>
                exists i :: 0 <= i < |m| && r == Report(m[i]) && m[i].high < a
                            && (forall j :: i < j < |m| ==> a < m[j].base)
  {
  }

  function EntryAt<E>(m: seq<Stored<E>>, a: Address): Option<E> {
    match Lookup(m, a)
    case None => None
    case Some(f) => Some(f.entry)
  }

  lemma EntryOfCover<E>(m: seq<Stored<E>>, a: Address, i: nat)
    requires Ordered(m) && i < |m| && Covers(m[i], a)
    ensures EntryAt(m, a) == Some(m[i].entry)
  {
  }

  lemma NothingCovers<E>(m: seq<Stored<E>>, a: Address)
    requires Ordered(m) && forall s :: s in m ==> !Covers(s, a)
    ensures EntryAt(m, a) == None
  {
    LookupMeaning(m, a);
  }

  lemma OneCover<E>(m: seq<Stored<E>>, a: Address, i: nat, j: nat)
    requires Ordered(m) && i < |m| && j < |m| && Covers(m[i], a) && Covers(m[j], a)
    ensures i == j
  {
  }

  // The range at the address loses it: it straddles the new range there.
  predicate CutAway<E>(strategy: MergeRangeStrategy, s: Stored<E>, n: Stored<E>, a: Address) {
    && Covers(s, a)
    && match strategy
       case ExclusiveRanges => false
       case TruncateLower => s.base < n.base <= a
       case TruncateUpper => a <= n.high < s.high
  }

  lemma TrimmedCovers<E>(strategy: MergeRangeStrategy, s: Stored<E>, n: Stored<E>, a: Address)
    requires Sound(s) && Sound(n)
    ensures var t := Trim(strategy, s, n.base, n.high);
            t.entry == s.entry && (Covers(t, a) <==> Covers(s, a) && !CutAway(strategy, s, n, a))
    ensures CutAway(strategy, s, n, a) ==> Covers(s, a)
  {
  }

  // Which entry an address finds after a store: the new one where it gets the address, none where a
  // straddling range lost it, and otherwise the same as before.
  lemma AnswersAfterStore<E>(strategy: MergeRangeStrategy, m: seq<Stored<E>>, n: Stored<E>, a: Address)
    requires Ordered(m) && Sound(n) && Accepts(strategy, m, n.base, n.high)
    ensures
      EntryAt(Placed(strategy, m, n), a) ==
      if Gets(strategy, m, n, a) then Some(n.entry)
      else if exists i :: 0 <= i < |m| && CutAway(strategy, m[i], n, a) then None
      else EntryAt(m, a)
  {
    hide Placed;
    hide Fit;
    hide Gets;
    hide Accepts;
    hide EntryAt;
    hide CutAway;
    hide Trim;
    hide Sound;
    assert forall i :: 0 <= i < |m| ==> Sound(m[i]);
    var k := PlacedMeaning(strategy, m, n);
    var t, f, p := TrimAll(strategy, m, n.base, n.high), Fit(strategy, m, n), Placed(strategy, m, n);
    forall i | 0 <= i < |m|
      ensures t[i].entry == m[i].entry && (Covers(t[i], a) <==> Covers(m[i], a) && !CutAway(strategy, m[i], n, a))
      ensures CutAway(strategy, m[i], n, a) ==> Covers(m[i], a)
    {
      TrimmedCovers(strategy, m[i], n, a);
    }
    hide Ordered;
    if Covers(f, a) {
      assert p[k] == f;
      EntryOfCover(p, a, k);
    } else if i :| 0 <= i < |m| && Covers(t[i], a) {
      assert p[if i < k then i else i + 1] == t[i];
      EntryOfCover(p, a, if i < k then i else i + 1);
      EntryOfCover(m, a, i);
      forall j | 0 <= j < |m| && Covers(m[j], a) ensures j == i {
        OneCover(m, a, i, j);
      }
    } else {
      forall s | s in p ensures !Covers(s, a) {
        assert s == f || s in t;
      }
      NothingCovers(p, a);
      if forall s :: s in m ==> !Covers(s, a) {
        NothingCovers(m, a);
      } else {
        var s :| s in m && Covers(s, a);
        var i :| 0 <= i < |m| && m[i] == s;
        assert !Covers(t[i], a);
      }
    }
  }
}
