// linked_ptr: every pointer to an object is on one circular, singly linked list, and the object is
// deleted when the last of them leaves it.

module LinkedPtrs {
  import opened Options

  function Next(i: nat, n: nat): (j: nat)
    requires i < n
    ensures j < n
  {
    if i + 1 == n then 0 else i + 1
  }

  ghost predicate Distinct<X>(s: seq<X>) {
    forall i, j :: 0 <= i < j < |s| ==> s[i] != s[j]
  }

  // The pointers of r are a circle, in this order, and all hold v.
  ghost predicate Circle<T>(r: seq<LinkedPtr<T>>, v: Option<T>)
    reads r
  {
    && r != [] && Distinct(r)
    && (forall i :: 0 <= i < |r| ==> r[i].value_ == v && r[i].next_ == r[Next(i, |r|)])
  }

  // Between r[j] and the pointer after it, r[k], a new pointer has been linked in.
  lemma CircleInsert<T>(r: seq<LinkedPtr<T>>, j: nat, k: nat, x: LinkedPtr<T>, v: Option<T>)
    requires Distinct(r) && x !in r && x.value_ == v && j < |r| && Next(j, |r|) == k
    requires r[j].next_ == x && x.next_ == r[k]
    requires forall i :: 0 <= i < |r| ==> r[i].value_ == v && (i != j ==> r[i].next_ == r[Next(i, |r|)])
    ensures Circle(r[..k] + [x] + r[k..], v)
  {
    var s := r[..k] + [x] + r[k..];
    forall i | 0 <= i < |s| ensures s[i].value_ == v && s[i].next_ == s[Next(i, |s|)] {
      assert s[i] == if i < k then r[i] else if i == k then x else r[i - 1];
    }
  }

  // The pointer after r[j] has been linked past.
  lemma CircleRemove<T>(r: seq<LinkedPtr<T>>, j: nat, k: nat, v: Option<T>)
    requires Distinct(r) && |r| > 1 && j < |r| && Next(j, |r|) == k && r[j].next_ == r[Next(k, |r|)]
    requires forall i :: 0 <= i < |r| ==> r[i].value_ == v && (i != j ==> r[i].next_ == r[Next(i, |r|)])
    ensures Circle(r[..k] + r[k + 1..], v)
  {
  }

  // The circle of an object is made of exactly the live pointers to it; null pointers stand alone.
  ghost predicate Linked<T>(live: set<LinkedPtr<T>>, circle: map<T, seq<LinkedPtr<T>>>)
    reads live
  {
    && (forall o, p :: o in circle && p in circle[o] ==> p in live)
    && (forall o :: o in circle ==> Circle(circle[o], Some(o)))
    && (forall p :: p in live && p.value_.None? ==> p.next_ == p)
    && (forall p :: p in live && p.value_.Some? ==> p.value_.value in circle && p in circle[p.value_.value])
  }

  // Every captured object is either owned or deleted, not both, and deleted once.
  ghost predicate Accounted<T>(circle: map<T, seq<LinkedPtr<T>>>, captured: set<T>, deleted: seq<T>) {
    && Distinct(deleted)
    && captured == circle.Keys + (set o | o in deleted)
    && (forall o :: o in circle ==> o !in deleted)
  }

  // Taking one object's circle out leaves the rest linked, on pointers of their own.
  lemma TakeCircleOut<T>(live: set<LinkedPtr<T>>, circle: map<T, seq<LinkedPtr<T>>>, o: T)
    requires Linked(live, circle) && o in circle
    ensures Circle(circle[o], Some(o)) && circle[o] != []
    ensures forall p :: p in circle[o] <==> p in live && p.value_ == Some(o)
    ensures Linked(live - (set p | p in circle[o]), circle - {o})
  {
  }

  lemma PutCircleIn<T>(live: set<LinkedPtr<T>>, circle: map<T, seq<LinkedPtr<T>>>, o: T, r: seq<LinkedPtr<T>>)
    requires Linked(live, circle) && o !in circle && Circle(r, Some(o))
    ensures Linked(live + (set p | p in r), circle[o := r])
  {
  }

  // A null pointer is on no circle.
  lemma NullOutside<T>(live: set<LinkedPtr<T>>, circle: map<T, seq<LinkedPtr<T>>>, x: LinkedPtr<T>)
    requires Linked(live, circle) && x in live && x.value_.None?
    ensures x.next_ == x && Linked(live - {x}, circle)
  {
  }

  lemma NullAdded<T>(live: set<LinkedPtr<T>>, circle: map<T, seq<LinkedPtr<T>>>, x: LinkedPtr<T>)
    requires Linked(live, circle) && x.value_.None? && x.next_ == x
    ensures Linked(live + {x}, circle)
  {
  }

  lemma WithoutOne<X>(live: set<X>, r: seq<X>, s: seq<X>, x: X)
    requires (forall p :: p in r ==> p in live) && x in r
    requires forall p :: p in s <==> p in r && p != x
    ensures live - {x} == (live - (set p | p in r)) + (set p | p in s)
  {
  }

  lemma WithOne<X>(live: set<X>, r: seq<X>, s: seq<X>, x: X)
    requires (forall p :: p in r ==> p in live)
    requires forall p :: p in s <==> p in r || p == x
    ensures live + {x} == (live - (set p | p in r)) + (set p | p in s)
  {
  }

  lemma Replaced<K, V>(m: map<K, V>, k: K, v: V)
    requires k in m
    ensures (m - {k})[k := v] == m[k := v]
  {
  }

  lemma CircleDistinct<T>(r: seq<LinkedPtr<T>>, k: nat, v: Option<T>)
    requires Circle(r, v) && k < |r|
    ensures forall p :: p in r[..k] + r[k + 1..] <==> p in r && p != r[k]
  {
  }

  lemma OneDeleted<T>(circle: map<T, seq<LinkedPtr<T>>>, o: T, captured: set<T>, deleted: seq<T>)
    requires Accounted(circle, captured, deleted) && o in circle
    ensures Accounted(circle - {o}, captured, deleted + [o])
  {
  }

  lemma SameOwned<T>(circle: map<T, seq<LinkedPtr<T>>>, o: T, r: seq<LinkedPtr<T>>, captured: set<T>, deleted: seq<T>)
    requires Accounted(circle, captured, deleted) && o in circle
    ensures Accounted(circle[o := r], captured, deleted)
  {
  }

  // In a valid world an object has been deleted exactly when it was captured and has no live owner,
  // and walking the circle of an owned object meets each of its owners once.
  lemma DeletedWhenUnowned<T>(w: World<T>, o: T)
    requires w.Valid()
    ensures o in w.deleted <==> o in w.captured && forall p :: p in w.live ==> p.value_ != Some(o)
    ensures o in w.circle ==> Circle(w.circle[o], Some(o))
    ensures o in w.circle ==> forall p :: p in w.circle[o] <==> p in w.live && p.value_ == Some(o)
    ensures forall i, j :: 0 <= i < j < |w.deleted| ==> w.deleted[i] != w.deleted[j]
  {
    if o in w.circle {
      TakeCircleOut(w.live, w.circle, o);
      assert w.circle[o][0] in w.live;
    }
  }

  // What exists at run time besides the pointers themselves: which of them are alive, the circle
  // of each owned object, every object ever captured, and the deletions in the order they happened.
  class World<T> {
    ghost var live: set<LinkedPtr<T>>
    ghost var circle: map<T, seq<LinkedPtr<T>>>
    ghost var captured: set<T>
    ghost var deleted: seq<T>

    ghost predicate Valid()
      reads this, live
    {
      && Linked(live, circle)
      && Accounted(circle, captured, deleted)
    }

    constructor ()
      ensures Valid() && live == {} && captured == {} && deleted == []
    {
      live, circle, captured, deleted := {}, map[], {}, [];
    }

    // Records that x stands alone on a circle for an object captured just now.
    ghost method Captures(x: LinkedPtr<T>, o: T)
      requires Linked(live, circle) && Accounted(circle, captured, deleted)
      requires x !in live && o !in captured && Circle([x], Some(o))
      modifies this
      ensures Valid() && live == old(live) + {x} && captured == old(captured) + {o} && deleted == old(deleted)
    {
      hide Linked;
      hide Circle;
      PutCircleIn(live, circle, o, [x]);
      assert (set p | p in [x]) == {x};
      live, circle, captured := live + {x}, circle[o := [x]], captured + {o};
    }

    // Records that the object of a pointer alone on its circle has been handed back to the caller.
    ghost method Releases(x: LinkedPtr<T>, o: T)
      requires o in circle && circle[o] == [x] && Accounted(circle, captured, deleted)
      requires Linked(live - {x}, circle - {o}) && x in live && x.value_.None? && x.next_ == x
      modifies this
      ensures Valid() && live == old(live) && captured == old(captured) - {o} && deleted == old(deleted)
    {
      hide Linked;
      hide Circle;
      NullAdded(live - {x}, circle - {o}, x);
      assert live - {x} + {x} == live;
      circle, captured := circle - {o}, captured - {o};
    }

    // Records that x has joined the circle r of object o, which is now s.
    ghost method Joined(x: LinkedPtr<T>, o: T, r: seq<LinkedPtr<T>>, s: seq<LinkedPtr<T>>)
      requires o in circle && Accounted(circle, captured, deleted)
      requires Linked(live - (set p | p in r), circle - {o}) && Circle(s, Some(o))
      requires (forall p :: p in r ==> p in live) && (forall p :: p in s <==> p in r || p == x)
      modifies this
      ensures Valid() && live == old(live) + {x} && captured == old(captured) && deleted == old(deleted)
    {
      hide Linked;
      hide Circle;
      hide Accounted;
      WithOne(live, r, s, x);
      Replaced(circle, o, s);
      PutCircleIn(live - (set p | p in r), circle - {o}, o, s);
      SameOwned(circle, o, s, captured, deleted);
      live, circle := live + {x}, circle[o := s];
    }

    // Records that x has left the circle r of object o, and others, s, stay on it.
    ghost method Left(x: LinkedPtr<T>, o: T, r: seq<LinkedPtr<T>>, s: seq<LinkedPtr<T>>)
      requires o in circle && Accounted(circle, captured, deleted)
      requires Linked(live - (set p | p in r), circle - {o}) && Circle(s, Some(o))
      requires x in r && (forall p :: p in r ==> p in live) && (forall p :: p in s <==> p in r && p != x)
      modifies this
      ensures Valid() && live == old(live) - {x} && captured == old(captured) && deleted == old(deleted)
    {
      hide Linked;
      hide Circle;
      hide Accounted;
      WithoutOne(live, r, s, x);
      Replaced(circle, o, s);
      PutCircleIn(live - (set p | p in r), circle - {o}, o, s);
      SameOwned(circle, o, s, captured, deleted);
      live, circle := live - {x}, circle[o := s];
    }

    // Records the deletion of the object whose last pointer, x, is leaving.
    ghost method Deletes(x: LinkedPtr<T>, o: T)
      requires o in circle && Accounted(circle, captured, deleted)
      requires Linked(live - (set p | p in [x]), circle - {o})
      modifies this
      ensures Valid() && live == old(live) - {x} && captured == old(captured) && deleted == old(deleted) + [o]
    {
      hide Linked;
      hide Circle;
      hide Accounted;
      assert (set p | p in [x]) == {x};
      OneDeleted(circle, o, captured, deleted);
      live, circle, deleted := live - {x}, circle - {o}, deleted + [o];
    }
  }

  class LinkedPtr<T> {
    var value_: Option<T>
    var next_: LinkedPtr<T>

    // ---------------------------------------------------------------- linked_ptr_internal

    method JoinNew()
      modifies this`next_
      ensures next_ == this
    {
      next_ := this;
    }

    // Walks the circle from ptr to the pointer before it and steps in between.
    method Join(ptr: LinkedPtr<T>, ghost r: seq<LinkedPtr<T>>, ghost k: nat, ghost v: Option<T>)
      requires Circle(r, v) && k < |r| && r[k] == ptr && this !in r && value_ == v
      modifies this`next_, r`next_
      ensures Circle(r[..k] + [this] + r[k..], v)
    {
      var p := ptr;
      ghost var j: nat := k;
      while p.next_ != ptr
        invariant j < |r| && p == r[j]
        decreases if j < k then k - 1 - j else |r| - 1 - j + k
      {
        p := p.next_;
        j := Next(j, |r|);
      }
      assert Next(j, |r|) == k;
      p.next_ := this;
      next_ := ptr;
      CircleInsert(r, j, k, this, v);
    }

    // Steps out of the circle; true when there was no one else on it.
    method DepartCircle(ghost r: seq<LinkedPtr<T>>, ghost k: nat, ghost v: Option<T>) returns (last: bool)
      requires Circle(r, v) && k < |r| && r[k] == this
      modifies r`next_
      ensures last <==> r == [this]
      ensures last ==> next_ == this
      ensures !last ==> Circle(r[..k] + r[k + 1..], v)
    {
      if next_ == this {
        return true;
      }
      var p := next_;
      ghost var j: nat := Next(k, |r|);
      while p.next_ != this
        invariant j < |r| && j != k && p == r[j]
        decreases if j < k then k - 1 - j else |r| - 1 - j + k
      {
        p := p.next_;
        j := Next(j, |r|);
      }
      assert Next(j, |r|) == k;
      p.next_ := next_;
      CircleRemove(r, j, k, v);
      return false;
    }

    // ---------------------------------------------------------------- construction

    // A pointer that takes over an object no other pointer has captured, or none.
    constructor (ptr: Option<T>, ghost w: World<T>)
      requires w.Valid() && (ptr.Some? ==> ptr.value !in w.captured)
      modifies w
      ensures w.Valid() && w.live == old(w.live) + {this} && value_ == ptr
      ensures w.deleted == old(w.deleted)
      ensures w.captured == old(w.captured) + if ptr.Some? then {ptr.value} else {}
    {
      value_ := None;
      next_ := this;
      new;
      Capture(ptr, w);
    }

    method Capture(ptr: Option<T>, ghost w: World<T>)
      requires w.Valid() && this !in w.live && (ptr.Some? ==> ptr.value !in w.captured)
      modifies w, this
      ensures w.Valid() && w.live == old(w.live) + {this} && value_ == ptr
      ensures w.deleted == old(w.deleted)
      ensures w.captured == old(w.captured) + if ptr.Some? then {ptr.value} else {}
    {
      value_ := ptr;
      JoinNew();
      if ptr.Some? {
        w.Captures(this, ptr.value);
      } else {
        NullAdded(w.live, w.circle, this);
        hide Linked;
        w.live := w.live + {this};
      }
    }

    // Joins the circle of a live pointer, or stands alone when that one is null.
    method CopyFrom(ptr: LinkedPtr<T>, ghost w: World<T>)
      requires w.Valid() && this !in w.live && ptr in w.live
      modifies w, this, w.live`next_
      ensures w.Valid() && w.live == old(w.live) + {this} && value_ == old(ptr.value_)
      ensures w.deleted == old(w.deleted) && w.captured == old(w.captured)
    {
      value_ := ptr.value_;
      if value_.Some? {
        JoinOwners(ptr, w, value_.value);
      } else {
        JoinNew();
        NullAdded(w.live, w.circle, this);
        hide Linked;
        w.live := w.live + {this};
      }
    }

    method JoinOwners(ptr: LinkedPtr<T>, ghost w: World<T>, ghost o: T)
      requires w.Valid() && this !in w.live && ptr in w.live && ptr.value_ == value_ == Some(o)
      modifies w, this`next_, w.live`next_
      ensures w.Valid() && w.live == old(w.live) + {this}
      ensures w.deleted == old(w.deleted) && w.captured == old(w.captured)
    {
      assert o in w.circle;
      hide Circle;
      hide Accounted;
      hide Linked;
      ghost var r := w.circle[o];
      TakeCircleOut(w.live, w.circle, o);
      ghost var k: nat :| k < |r| && r[k] == ptr;
      Join(ptr, r, k, value_);
      ghost var s := r[..k] + [this] + r[k..];
      assert forall p :: p in s <==> p in r || p == this by {
        assert r == r[..k] + r[k..];
      }
      w.Joined(this, o, r, s);
    }

    // Leaves the circle, and deletes the object when no other pointer is left on it.
    method Depart(ghost w: World<T>)
      requires w.Valid() && this in w.live
      modifies w, w.live`next_
      ensures w.Valid() && w.live == old(w.live) - {this} && w.captured == old(w.captured)
      ensures w.deleted == old(w.deleted) + old(DeletedByLeaving(w))
    {
      if value_.None? {
        DepartNull(w);
      } else {
        DepartOwner(w, value_.value);
      }
    }

    method DepartNull(ghost w: World<T>)
      requires w.Valid() && this in w.live && value_.None?
      modifies w, this`next_
      ensures w.Valid() && w.live == old(w.live) - {this} && w.captured == old(w.captured)
      ensures w.deleted == old(w.deleted)
    {
      hide Accounted;
      NullOutside(w.live, w.circle, this);
      hide Linked;
      var last := DepartCircle([this], 0, value_);
      w.live := w.live - {this};
    }

    method DepartOwner(ghost w: World<T>, ghost o: T)
      requires w.Valid() && this in w.live && value_ == Some(o)
      modifies w, w.live`next_
      ensures w.Valid() && w.live == old(w.live) - {this} && w.captured == old(w.captured)
      ensures w.deleted == old(w.deleted) + old(DeletedByLeaving(w))
    {
      hide Circle;
      hide Accounted;
      hide Linked;
      hide Distinct;
      hide DeletedByLeaving;
      ghost var k := PlaceOnCircle(w, o);
      ghost var r := w.circle[o];
      ghost var s := r[..k] + r[k + 1..];
      var last := DepartCircle(r, k, value_);
      if last {
        w.Deletes(this, o);
      } else {
        w.Left(this, o, r, s);
      }
    }

    // Where this pointer stands on the circle of its object, and what leaves with it.
    lemma PlaceOnCircle(w: World<T>, o: T) returns (k: nat)
      requires w.Valid() && this in w.live && value_ == Some(o)
      ensures o in w.circle && Circle(w.circle[o], Some(o))
      ensures Linked(w.live - (set p | p in w.circle[o]), w.circle - {o})
      ensures
        var r := w.circle[o];
        && k < |r| && r[k] == this && (forall p :: p in r ==> p in w.live)
        && (forall p :: p in r[..k] + r[k + 1..] <==> p in r && p != this)
        && DeletedByLeaving(w) == if r == [this] then [o] else []
    {
      assert o in w.circle;
      hide Circle;
      hide Accounted;
      hide Linked;
      var r := w.circle[o];
      TakeCircleOut(w.live, w.circle, o);
      k :| k < |r| && r[k] == this;
      CircleDistinct(r, k, value_);
      LeavingDeletes(w, r, k);
    }

    lemma LeavingDeletes(w: World<T>, r: seq<LinkedPtr<T>>, k: nat)
      requires value_.Some? && k < |r| && r[k] == this
      requires forall p :: p in r <==> p in w.live && p.value_ == value_
      requires forall p :: p in r[..k] + r[k + 1..] <==> p in r && p != this
      ensures DeletedByLeaving(w) == if r == [this] then [value_.value] else []
    {
      var s := r[..k] + r[k + 1..];
      if r != [this] {
        assert |s| > 0;
        var p := s[0];
        assert p in r && p != this;
      } else {
        assert s == [];
      }
    }

    // The object this pointer alone still owns.
    ghost function DeletedByLeaving(w: World<T>): seq<T>
      reads w, w.live, this
    {
      if value_.Some? && (forall p :: p in w.live && p != this ==> p.value_ != value_) then [value_.value] else []
    }
  
    // ---------------------------------------------------------------- the smart pointer's operations

    constructor Copy(ptr: LinkedPtr<T>, ghost w: World<T>)
      requires w.Valid() && ptr in w.live
      modifies w, w.live`next_
      ensures w.Valid() && w.live == old(w.live) + {this} && value_ == old(ptr.value_)
      ensures w.deleted == old(w.deleted) && w.captured == old(w.captured)
    {
      value_ := None;
      next_ := this;
      new;
      CopyFrom(ptr, w);
    }

    // operator= from a pointer of another type, which is never this one.
    method AssignOther(ptr: LinkedPtr<T>, ghost w: World<T>)
      requires w.Valid() && this in w.live && ptr in w.live && ptr != this
      modifies w, this, w.live`next_
      ensures w.Valid() && w.live == old(w.live) && value_ == old(ptr.value_) && w.captured == old(w.captured)
      ensures w.deleted == old(w.deleted) + old(DeletedByLeaving(w))
    {
      hide DeletedByLeaving;
      hide Linked;
      hide Accounted;
      Depart(w);
      CopyFrom(ptr, w);
    }

    // operator= from a pointer of the same type. Assigning a pointer to itself changes nothing.
    method Assign(ptr: LinkedPtr<T>, ghost w: World<T>)
      requires w.Valid() && this in w.live && ptr in w.live
      modifies w, this, w.live`next_
      ensures w.Valid() && w.live == old(w.live) && value_ == old(ptr.value_) && w.captured == old(w.captured)
      ensures w.deleted == old(w.deleted) + if ptr == this then [] else old(DeletedByLeaving(w))
    {
      hide DeletedByLeaving;
      hide Linked;
      hide Accounted;
      if ptr != this {
        AssignOther(ptr, w);
      }
    }

    method Reset(ptr: Option<T>, ghost w: World<T>)
      requires w.Valid() && this in w.live && (ptr.Some? ==> ptr.value !in w.captured)
      modifies w, this, w.live`next_
      ensures w.Valid() && w.live == old(w.live) && value_ == ptr
      ensures w.deleted == old(w.deleted) + old(DeletedByLeaving(w))
      ensures w.captured == old(w.captured) + if ptr.Some? then {ptr.value} else {}
    {
      hide DeletedByLeaving;
      hide Linked;
      hide Accounted;
      Depart(w);
      Capture(ptr, w);
    }

    // Gives the object back without deleting it. No other pointer may own it.
    method Release(ghost w: World<T>) returns (v: Option<T>)
      requires w.Valid() && this in w.live
      requires value_.Some? ==> forall p :: p in w.live && p != this ==> p.value_ != value_
      modifies w, this
      ensures w.Valid() && w.live == old(w.live) && v == old(value_) && value_ == None
      ensures w.deleted == old(w.deleted)
      ensures w.captured == old(w.captured) - if v.Some? then {v.value} else {}
    {
      v := value_;
      if v.Some? {
        AloneOnCircle(w, v.value);
        var last := DepartCircle([this], 0, v);
        value_ := None;
        w.Releases(this, v.value);
      } else {
        NullOutside(w.live, w.circle, this);
        var last := DepartCircle([this], 0, v);
        value_ := None;
      }
    }

    lemma AloneOnCircle(w: World<T>, o: T)
      requires w.Valid() && this in w.live && value_ == Some(o)
      requires forall p :: p in w.live && p != this ==> p.value_ != value_
      ensures o in w.circle && w.circle[o] == [this] && Circle([this], Some(o))
      ensures Linked(w.live - {this}, w.circle - {o})
    {
      TakeCircleOut(w.live, w.circle, o);
      var r := w.circle[o];
      assert forall p :: p in r ==> p == this;
      assert r[0] == this;
      assert r[|r| - 1] == r[0];
      assert (set p | p in r) == {this};
    }

    // The destructor.
    method Destroy(ghost w: World<T>)
      requires w.Valid() && this in w.live
      modifies w, w.live`next_
      ensures w.Valid() && w.live == old(w.live) - {this} && w.captured == old(w.captured)
      ensures w.deleted == old(w.deleted) + old(DeletedByLeaving(w))
    {
      Depart(w);
    }
  }
}
