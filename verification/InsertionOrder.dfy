// A contained range map "is not sensitive to the order that objects are added": the forest is
// determined by the set of ranges in it, so every order of storing the same ranges gives the
// same forest and the same answers.

module InsertionOrder {
  import opened Options
  import opened Addresses
  import opened Forests
  import opened ContainedRangeMaps

  // ---------------------------------------------------------------- one forest per set of ranges

  // r comes first in the forest: every other range lies above it or properly inside it.
  ghost predicate Leads<E>(rs: set<Range<E>>, r: Range<E>) {
    && r in rs && r.base <= r.high
    && forall s :: s in rs && s != r ==>
                     r.high < s.base || (Within(s.base, s.high, r.base, r.high) && (s.base, s.high) != (r.base, r.high))
  }

  lemma LeaderIsUnique<E>(rs: set<Range<E>>, r: Range<E>, s: Range<E>)
    requires Leads(rs, r) && Leads(rs, s)
    ensures r == s
  {
  }

  lemma FirstRootLeads<E>(f: seq<Tree<E>>)
    requires WellFormed(f) && f != []
    ensures Leads(Ranges(f), RootOf(f[0]))
  {
    TreeRangesWithin(f[0]);
    forall s | s in Ranges(f) && s !in TreeRanges(f[0]) ensures f[0].high < s.base {
      FirstTreeIsLowest(f, s);
    }
  }

  // Among all stored ranges, those of the first tree are the ones that end where it does or below.
  lemma FirstTreeIsLowest<E>(f: seq<Tree<E>>, s: Range<E>)
    requires WellFormed(f) && f != [] && s in Ranges(f)
    ensures s in TreeRanges(f[0]) <==> s.high <= f[0].high
    ensures s !in TreeRanges(f[0]) ==> f[0].high < s.base <= s.high
    ensures s in Ranges(f[1..]) <==> s !in TreeRanges(f[0])
  {
    TreeRangesWithin(f[0]);
    forall s | s in Ranges(f[1..]) ensures f[0].high < s.base <= s.high {
      var i := RangeHasTree(f[1..], s);
      TreeRangesWithin(f[1..][i]);
    }
  }

  // Two well-formed forests with the same ranges are the same forest.
  lemma {:induction false} CanonicalForest<E>(f: seq<Tree<E>>, g: seq<Tree<E>>)
    requires WellFormed(f) && WellFormed(g) && Ranges(f) == Ranges(g)
    ensures f == g
    decreases f
  {
    assert f == [] <==> Ranges(f) == {};
    assert g == [] <==> Ranges(g) == {};
    if f != [] {
      FirstRootLeads(f);
      FirstRootLeads(g);
      LeaderIsUnique(Ranges(f), RootOf(f[0]), RootOf(g[0]));
      FirstTreeSplitsRanges(f);
      FirstTreeSplitsRanges(g);
      CanonicalForest(f[0].children, g[0].children);
      TailWellFormed(f);
      TailWellFormed(g);
      CanonicalForest(f[1..], g[1..]);
      assert f == [f[0]] + f[1..] && g == [g[0]] + g[1..];
    }
  }

  // Which of the stored ranges lie under the first tree, and which in the trees after it.
  ghost function Under<E>(rs: set<Range<E>>, r: Range<E>): set<Range<E>> {
    set s | s in rs && s.high <= r.high && s != r
  }

  ghost function After<E>(rs: set<Range<E>>, r: Range<E>): set<Range<E>> {
    set s | s in rs && r.high < s.high
  }

  lemma FirstTreeSplitsRanges<E>(f: seq<Tree<E>>)
    requires WellFormed(f) && f != []
    ensures Ranges(f[0].children) == Under(Ranges(f), RootOf(f[0]))
    ensures Ranges(f[1..]) == After(Ranges(f), RootOf(f[0]))
  {
    var c, rest, all := Ranges(f[0].children), Ranges(f[1..]), Ranges(f);
    assert all == TreeRanges(f[0]) + rest;
    assert TreeRanges(f[0]) == {RootOf(f[0])} + c;
    TreeRangesWithin(f[0]);
    forall s | s in rest ensures f[0].high < s.high {
      FirstTreeIsLowest(f, s);
    }
    assert RootOf(f[0]) !in c;
  }

  lemma TailWellFormed<E>(f: seq<Tree<E>>)
    requires WellFormed(f) && f != []
    ensures WellFormed(f[1..])
  {
  }

  // ---------------------------------------------------------------- storing a list of ranges

  function High<E>(q: Request<E>): Address {
    Wrap(q.base + q.size - 1)
  }

  ghost function Asked<E>(q: Request<E>): Range<E> {
    Range(q.base, High(q), q.entry)
  }

  // StoreRange with its argument check.
  function StoreRange<E>(f: seq<Tree<E>>, q: Request<E>): Option<seq<Tree<E>>> {
    if Acceptable(q.base, q.size) then Store(f, q.base, High(q), q.entry) else None
  }

  // All the stores in turn; None as soon as one of them is refused.
  function StoreAll<E>(f: seq<Tree<E>>, qs: seq<Request<E>>): Option<seq<Tree<E>>>
    decreases |qs|
  {
    if qs == [] then Some(f)
    else
      match StoreRange(f, qs[0])
      case None => None
      case Some(g) => StoreAll(g, qs[1..])
  }

  // Two requests that can share a map: nested or disjoint, and not the same range.
  ghost predicate Agree<E>(p: Request<E>, q: Request<E>) {
    (p.base, High(p)) != (q.base, High(q)) && !Crosses(p.base, High(p), q.base, High(q))
  }

  ghost predicate PairwiseAgree<E>(qs: seq<Request<E>>) {
    forall i, j :: 0 <= i < j < |qs| ==> Agree(qs[i], qs[j])
  }

  ghost function AskedBy<E>(qs: seq<Request<E>>): set<Range<E>> {
    set q | q in qs :: Asked(q)
  }

  ghost predicate StorableAfter<E>(rs: set<Range<E>>, qs: seq<Request<E>>) {
    && PairwiseAgree(qs)
    && forall q :: q in qs ==> Acceptable(q.base, q.size) && Compatible(rs, q.base, High(q))
  }

  // A list of stores succeeds throughout exactly when every request is acceptable, compatible
  // with what was there before and with every other request.
  lemma {:induction false} StoreAllMeaning<E>(f: seq<Tree<E>>, qs: seq<Request<E>>)
    requires WellFormed(f)
    ensures StoreAll(f, qs).Some? <==> StorableAfter(Ranges(f), qs)
    ensures
      StoreAll(f, qs).Some? ==>
      var g := StoreAll(f, qs).value;
      WellFormed(g) && Ranges(g) == Ranges(f) + AskedBy(qs)
    decreases |qs|
  {
    if qs != [] {
      var q, rest := qs[0], qs[1..];
      assert qs == [q] + rest;
      if Acceptable(q.base, q.size) {
        StoreMeaning(f, q.base, High(q), q.entry);
        if Compatible(Ranges(f), q.base, High(q)) {
          var g := StoreRange(f, q).value;
          StoreAllMeaning(g, rest);
          StorableStep(Ranges(f), q, rest);
          assert AskedBy(qs) == {Asked(q)} + AskedBy(rest);
        }
      }
      assert q in qs;
    }
  }

  lemma StorableStep<E>(rs: set<Range<E>>, q: Request<E>, rest: seq<Request<E>>)
    requires Acceptable(q.base, q.size) && Compatible(rs, q.base, High(q))
    ensures StorableAfter(rs + {Asked(q)}, rest) <==> StorableAfter(rs, [q] + rest)
  {
    var qs := [q] + rest;
    if StorableAfter(rs, qs) {
      forall p | p in rest
        ensures Acceptable(p.base, p.size) && Compatible(rs + {Asked(q)}, p.base, High(p))
      {
        assert p in qs;
        var i :| 0 <= i < |rest| && rest[i] == p;
        assert Agree(qs[0], qs[i + 1]);
      }
      forall i, j | 0 <= i < j < |rest| ensures Agree(rest[i], rest[j]) {
        assert Agree(qs[i + 1], qs[j + 1]);
      }
    }
    if StorableAfter(rs + {Asked(q)}, rest) {
      forall i, j | 0 <= i < j < |qs| ensures Agree(qs[i], qs[j]) {
        if i == 0 {
          assert Compatible(rs + {Asked(q)}, rest[j - 1].base, High(rest[j - 1]));
          assert Asked(q) in rs + {Asked(q)};
        } else {
          assert Agree(rest[i - 1], rest[j - 1]);
        }
      }
    }
  }

  // ---------------------------------------------------------------- permutations

  lemma TwiceInMultiset<T>(s: seq<T>, i: nat, j: nat)
    requires i < j < |s| && s[i] == s[j]
    ensures multiset(s)[s[i]] >= 2
  {
    assert s == s[..j] + s[j..];
    assert s[..j][i] in multiset(s[..j]) && s[j..][0] in multiset(s[j..]);
  }

  lemma TwiceInSeq<T>(s: seq<T>, x: T) returns (i: nat, j: nat)
    requires multiset(s)[x] >= 2
    ensures i < j < |s| && s[i] == s[j] == x
  {
    assert x in multiset(s);
    i :| i < |s| && s[i] == x;
    assert s == s[..i] + [x] + s[i + 1..];
    if x in s[i + 1..] {
      var k :| 0 <= k < |s[i + 1..]| && s[i + 1..][k] == x;
      j := i + 1 + k;
    } else {
      assert x in multiset(s[..i]);
      j := i;
      i :| i < |s[..j]| && s[..j][i] == x;
    }
  }

  lemma AgreementIgnoresOrder<E>(ps: seq<Request<E>>, qs: seq<Request<E>>)
    requires multiset(ps) == multiset(qs) && PairwiseAgree(ps)
    ensures PairwiseAgree(qs)
  {
    forall i, j | 0 <= i < j < |qs| ensures Agree(qs[i], qs[j]) {
      if qs[i] == qs[j] {
        TwiceInMultiset(qs, i, j);
        var k, l := TwiceInSeq(ps, qs[i]);
        assert Agree(ps[k], ps[l]);
      } else {
        assert qs[i] in multiset(ps) && qs[j] in multiset(ps);
        var k :| 0 <= k < |ps| && ps[k] == qs[i];
        var l :| 0 <= l < |ps| && ps[l] == qs[j];
        assert if k < l then Agree(ps[k], ps[l]) else Agree(ps[l], ps[k]);
      }
    }
  }

  lemma SameMembers<T>(s: seq<T>, t: seq<T>)
    requires multiset(s) == multiset(t)
    ensures forall x :: x in s <==> x in t
  {
    forall x ensures x in s <==> x in t {
      assert x in s <==> x in multiset(s);
      assert x in t <==> x in multiset(t);
    }
  }

  // Storing the same ranges in any other order succeeds in the same cases and ends in the same
  // forest, starting from any forest.
  lemma OrderDoesNotMatter<E>(f: seq<Tree<E>>, ps: seq<Request<E>>, qs: seq<Request<E>>)
    requires WellFormed(f) && multiset(ps) == multiset(qs)
    ensures StoreAll(f, ps) == StoreAll(f, qs)
  {
    StoreAllMeaning(f, ps);
    StoreAllMeaning(f, qs);
    SameMembers(ps, qs);
    if StorableAfter(Ranges(f), ps) {
      AgreementIgnoresOrder(ps, qs);
      CanonicalForest(StoreAll(f, ps).value, StoreAll(f, qs).value);
    } else if StorableAfter(Ranges(f), qs) {
      AgreementIgnoresOrder(qs, ps);
    }
  }

  // The documented promise: ranges that are pairwise nested or disjoint can be added to an empty
  // map in any order; each store succeeds and every address is then answered alike.
  lemma AnyOrderGivesSameAnswers<E>(ps: seq<Request<E>>, qs: seq<Request<E>>, a: Address)
    requires multiset(ps) == multiset(qs)
    requires PairwiseAgree(ps) && forall q :: q in ps ==> Acceptable(q.base, q.size)
    ensures StoreAll([], ps).Some? && StoreAll([], qs).Some?
    ensures Retrieve(StoreAll([], ps).value, a) == Retrieve(StoreAll([], qs).value, a)
  {
    StoreAllMeaning([], ps);
    OrderDoesNotMatter([], ps, qs);
  }

  // ---------------------------------------------------------------- going on after a refusal

  // All the stores in turn; a refused one leaves the forest as it was.
  function StoreEach<E>(f: seq<Tree<E>>, qs: seq<Request<E>>): seq<Tree<E>>
    decreases |qs|
  {
    if qs == [] then f
    else
      match StoreRange(f, qs[0])
      case None => StoreEach(f, qs[1..])
      case Some(g) => StoreEach(g, qs[1..])
  }

  // A request that would be stored if it came first.
  ghost predicate Candidate<E>(rs: set<Range<E>>, q: Request<E>) {
    Acceptable(q.base, q.size) && Compatible(rs, q.base, High(q))
  }

  ghost function AskedByCandidates<E>(rs: set<Range<E>>, qs: seq<Request<E>>): set<Range<E>> {
    set q | q in qs && Candidate(rs, q) :: Asked(q)
  }

  // No two different candidates stand in each other's way.
  ghost predicate Uncontested<E>(rs: set<Range<E>>, qs: seq<Request<E>>) {
    forall p, q :: p in qs && q in qs && Candidate(rs, p) && Candidate(rs, q) ==> p == q || Agree(p, q)
  }

  lemma StoreOne<E>(f: seq<Tree<E>>, q: Request<E>)
    requires WellFormed(f)
    ensures StoreRange(f, q).Some? <==> Candidate(Ranges(f), q)
    ensures
      StoreRange(f, q).Some? ==>
      var g := StoreRange(f, q).value; WellFormed(g) && Ranges(g) == Ranges(f) + {Asked(q)}
  {
    if Acceptable(q.base, q.size) {
      StoreMeaning(f, q.base, High(q), q.entry);
    }
  }

  lemma CandidateAfter<E>(rs: set<Range<E>>, q: Request<E>, p: Request<E>)
    ensures Candidate(rs + {Asked(q)}, p) <==> Candidate(rs, p) && Agree(q, p)
  {
    assert Asked(q) in rs + {Asked(q)};
  }

  // Without contest, exactly the candidates are added.
  lemma {:induction false} StoreEachMeaning<E>(f: seq<Tree<E>>, qs: seq<Request<E>>)
    requires WellFormed(f) && Uncontested(Ranges(f), qs)
    ensures WellFormed(StoreEach(f, qs))
    ensures Ranges(StoreEach(f, qs)) == Ranges(f) + AskedByCandidates(Ranges(f), qs)
    decreases |qs|
  {
    hide Ranges;
    hide WellFormed;
    hide StoreRange;
    hide Candidate;
    hide Agree;
    if qs != [] {
      var rs, q, rest := Ranges(f), qs[0], qs[1..];
      assert qs == [q] + rest;
      StoreOne(f, q);
      if Candidate(rs, q) {
        forall p ensures Candidate(rs + {Asked(q)}, p) <==> Candidate(rs, p) && Agree(q, p) {
          CandidateAfter(rs, q, p);
        }
        StoreEachMeaning(StoreRange(f, q).value, rest);
        assert AskedByCandidates(rs, qs) == {Asked(q)} + AskedByCandidates(rs + {Asked(q)}, rest);
      } else {
        StoreEachMeaning(f, rest);
        assert AskedByCandidates(rs, qs) == AskedByCandidates(rs, rest);
      }
    }
  }

  // Nothing stored is lost, and nothing that stands in its way comes in.
  lemma {:induction false} StoreEachKeeps<E>(f: seq<Tree<E>>, qs: seq<Request<E>>, p: Request<E>, q: Request<E>)
    requires WellFormed(f) && Asked(p) in Ranges(f) && Asked(q) !in Ranges(f) && !Agree(p, q)
    ensures Asked(p) in Ranges(StoreEach(f, qs)) && Asked(q) !in Ranges(StoreEach(f, qs))
    decreases |qs|
  {
    if qs != [] {
      StoreOne(f, qs[0]);
      match StoreRange(f, qs[0])
      case None => StoreEachKeeps(f, qs[1..], p, q);
      case Some(g) => StoreEachKeeps(g, qs[1..], p, q);
    }
  }

  lemma MoveToFront<T>(s: seq<T>, x: T) returns (t: seq<T>)
    requires x in s
    ensures t != [] && t[0] == x && multiset(t) == multiset(s)
  {
    var i :| 0 <= i < |s| && s[i] == x;
    t := [x] + (s[..i] + s[i + 1..]);
    assert s == s[..i] + [x] + s[i + 1..];
  }

  // Of two candidates that stand in each other's way, the one that comes first shuts the other out.
  lemma FirstShutsOut<E>(f: seq<Tree<E>>, qs: seq<Request<E>>, p: Request<E>, q: Request<E>)
    requires WellFormed(f) && qs != [] && qs[0] == p
    requires Candidate(Ranges(f), p) && Candidate(Ranges(f), q) && p != q && !Agree(p, q)
    ensures Asked(p) in Ranges(StoreEach(f, qs)) && Asked(q) !in Ranges(StoreEach(f, qs))
  {
    AcceptableMeansNoWrap(p.base, p.size);
    AcceptableMeansNoWrap(q.base, q.size);
    assert Asked(p) != Asked(q) && Asked(q) !in Ranges(f);
    hide Compatible;
    hide Ranges;
    hide Wrap;
    hide Agree;
    hide WellFormed;
    StoreOne(f, p);
    StoreEachKeeps(StoreRange(f, p).value, qs[1..], p, q);
  }

  // When refused stores are skipped, the forest does not depend on the order exactly when no two
  // different candidates stand in each other's way.
  lemma SkippingIgnoresOrderIff<E>(f: seq<Tree<E>>, qs: seq<Request<E>>)
    requires WellFormed(f)
    ensures (forall ps :: multiset(ps) == multiset(qs) ==> StoreEach(f, ps) == StoreEach(f, qs)) <==>
            Uncontested(Ranges(f), qs)
  {
    if Uncontested(Ranges(f), qs) {
      StoreEachMeaning(f, qs);
      forall ps | multiset(ps) == multiset(qs) ensures StoreEach(f, ps) == StoreEach(f, qs) {
        SameMembers(ps, qs);
        StoreEachMeaning(f, ps);
        assert AskedByCandidates(Ranges(f), ps) == AskedByCandidates(Ranges(f), qs);
        CanonicalForest(StoreEach(f, ps), StoreEach(f, qs));
      }
    } else {
      var p, q :| p in qs && q in qs && Candidate(Ranges(f), p) && Candidate(Ranges(f), q) && p != q && !Agree(p, q);
      var ps := MoveToFront(qs, p);
      var rs := MoveToFront(qs, q);
      FirstShutsOut(f, ps, p, q);
      FirstShutsOut(f, rs, q, p);
      assert StoreEach(f, ps) != StoreEach(f, rs);
    }
  }

  // ---------------------------------------------------------------- the map itself

  // The same stores made on a map.
  method StoreInTurn<E(0)>(m: ContainedRangeMap<E>, qs: seq<Request<E>>) returns (all: bool)
    requires m.Valid()
    modifies m.Repr
    ensures m.Valid() && fresh(m.Repr - old(m.Repr))
    ensures m.Children == StoreEach(old(m.Children), qs)
    ensures StoreAll(old(m.Children), qs) == if all then Some(m.Children) else None
  {
    hide Owned;
    hide Footprint;
    hide WellFormed;
    hide Ranges;
    hide Compatible;
    hide Acceptable;
    hide Wrap;
    hide Store;
    all := true;
    ghost var f := m.Children;
    for i := 0 to |qs|
      invariant m.Valid() && fresh(m.Repr - old(m.Repr))
      invariant StoreEach(f, qs) == StoreEach(m.Children, qs[i..])
      invariant StoreAll(f, qs) == if all then StoreAll(m.Children, qs[i..]) else None
    {
      assert qs[i..][0] == qs[i] && qs[i..][1..] == qs[i + 1..];
      StoreOne(m.Children, qs[i]);
      var ok := m.StoreRange(qs[i].base, qs[i].size, qs[i].entry);
      all := all && ok;
    }
  }
}
