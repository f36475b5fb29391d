/** RefCountedPointer on an explicit heap: handles share a counter, the counter's last handle
    destroys the object.

    Lines are those of mysql++/include/refcounted.h. */
module RefCounted {
  import opened Options

  /** A pointer object: `counted_` and `refs_` are both null, or name an object and a counter. */
  datatype Handle = Empty | Managed(obj: nat, ref: nat)

  /** Memory: the pointer objects alive, the counters on the heap, and as history the object each
      counter was made for, the raw pointers handed in, and the objects destroyed, in order. */
  datatype Mem = Mem(
    handles: map<nat, Handle>,
    counts: map<nat, nat>,
    targets: map<nat, nat>,
    next: nat,
    given: set<nat>,
    dead: seq<nat>)

  const EmptyMem := Mem(map[], map[], map[], 0, {}, [])

  ghost function Holders(m: Mem, r: nat): set<nat>
  {
    set h | h in m.handles && m.handles[h].Managed? && m.handles[h].ref == r
  }

  /** Every pointer's counter exists and was made for the pointer's object. */
  ghost predicate NoDangling(m: Mem)
  {
    && m.counts.Keys == m.targets.Keys
    && (forall r :: r in m.counts ==> r < m.next)
    && (forall h :: h in m.handles && m.handles[h].Managed? ==>
          m.handles[h].ref in m.targets && m.targets[m.handles[h].ref] == m.handles[h].obj)
  }

  /** A counter holds the number of live handles that share it, and there is one. */
  ghost predicate CountsAreExact(m: Mem)
  {
    forall r :: r in m.counts ==> m.counts[r] == |Holders(m, r)| && 0 < m.counts[r]
  }

  /** No object has two counters, none is destroyed twice, none is destroyed while counted. */
  ghost predicate NoTwoFates(m: Mem)
  {
    && (forall r, s :: r in m.targets && s in m.targets && m.targets[r] == m.targets[s] ==> r == s)
    && (forall i, j :: 0 <= i < j < |m.dead| ==> m.dead[i] != m.dead[j])
    && (forall r :: r in m.targets ==> m.targets[r] !in m.dead)
  }

  ghost predicate Counted(m: Mem, o: nat)
  {
    exists r :: r in m.targets && m.targets[r] == o
  }

  /** Exactly the objects handed in are counted or destroyed: nothing leaks. */
  ghost predicate NoLeak(m: Mem)
  {
    forall o :: o in m.given <==> o in m.dead || Counted(m, o)
  }

  ghost predicate Inv(m: Mem)
  {
    NoDangling(m) && CountsAreExact(m) && NoTwoFates(m) && NoLeak(m)
  }

  // ----- the operations -----

  /** `RefCountedPointer(T* c)`; `alloc` says whether `new size_t` succeeds. If it does not, the
      guard deletes the object and the constructor throws. */
  function Adopt(m: Mem, h: nat, c: Option<nat>, alloc: bool): Mem
  {
    match c
    case None => m.(handles := m.handles[h := Empty])
    case Some(o) =>
      if !alloc then m.(given := m.given + {o}, dead := m.dead + [o])
      else m.(handles := m.handles[h := Managed(o, m.next)], counts := m.counts[m.next := 1],
              targets := m.targets[m.next := o], next := m.next + 1, given := m.given + {o})
  }

  predicate Known(m: Mem, h: nat)
  {
    h in m.handles && (m.handles[h].Managed? ==> m.handles[h].ref in m.counts && 0 < m.counts[m.handles[h].ref])
  }

  /** The copy constructor. */
  function Copy(m: Mem, h: nat, other: nat): Mem
    requires Known(m, other)
  {
    var v := m.handles[other];
    if v.Empty? then m.(handles := m.handles[h := Empty])
    else m.(handles := m.handles[h := v], counts := m.counts[v.ref := m.counts[v.ref] + 1])
  }

  function Swap(m: Mem, h: nat, other: nat): Mem
    requires h in m.handles && other in m.handles
  {
    m.(handles := m.handles[h := m.handles[other]][other := m.handles[h]])
  }

  /** The destructor. */
  function Drop(m: Mem, h: nat): Mem
    requires Known(m, h)
  {
    var v, rest := m.handles[h], m.handles - {h};
    if v.Empty? then m.(handles := rest)
    else if m.counts[v.ref] == 1 then
      m.(handles := rest, counts := m.counts - {v.ref}, targets := m.targets - {v.ref}, dead := m.dead + [v.obj])
    else m.(handles := rest, counts := m.counts[v.ref := m.counts[v.ref] - 1])
  }

  /** `assign(T*)`: a temporary, a swap, and the temporary's destructor. */
  ghost function AssignRaw(m: Mem, h: nat, c: Option<nat>, alloc: bool, tmp: nat): Mem
    requires h != tmp && Known(m, h) && forall r :: r in m.counts ==> r < m.next
  {
    if c.Some? && !alloc then Adopt(m, tmp, c, false)
    else Drop(Swap(Adopt(m, tmp, c, alloc), h, tmp), tmp)
  }

  /** `assign(const ThisType&)`. */
  function AssignFrom(m: Mem, h: nat, other: nat, tmp: nat): Mem
    requires h != tmp && other != tmp && Known(m, h) && Known(m, other)
  {
    Drop(Swap(Copy(m, tmp, other), h, tmp), tmp)
  }

  // ----- the invariant is kept -----

  lemma InvKnows(m: Mem, h: nat)
    requires NoDangling(m) && CountsAreExact(m) && h in m.handles
    ensures Known(m, h)
  {
  }

  /** A counter other than `r` keeps its holders; counter `r` gains `h`. */
  lemma HoldersGain(m: Mem, q: Mem, h: nat, v: Handle, r: nat)
    requires h !in m.handles && q.handles == m.handles[h := v]
    ensures Holders(q, r) == if v.Managed? && v.ref == r then Holders(m, r) + {h} else Holders(m, r)
  {
  }

  lemma HoldersLose(m: Mem, q: Mem, h: nat, r: nat)
    requires h in m.handles && q.handles == m.handles - {h}
    ensures Holders(q, r)
            == if m.handles[h].Managed? && m.handles[h].ref == r then Holders(m, r) - {h} else Holders(m, r)
  {
  }

  /** The last handle of a counter: no other handle names it. */
  lemma LastHolder(m: Mem, h: nat, g: nat)
    requires h in m.handles && m.handles[h].Managed? && |Holders(m, m.handles[h].ref)| == 1
    requires g in m.handles && m.handles[g].Managed? && m.handles[g].ref == m.handles[h].ref
    ensures g == h
  {
    InSingleton(Holders(m, m.handles[h].ref), h, g);
  }

  lemma InSingleton<T>(s: set<T>, x: T, y: T)
    requires |s| == 1 && x in s && y in s
    ensures x == y
  {
    var rest := s - {x};
    assert |rest| == 0;
    assert y !in rest;
  }

  lemma AdoptKeepsCounts(m: Mem, h: nat, c: Option<nat>, alloc: bool)
    requires NoDangling(m) && CountsAreExact(m) && h !in m.handles
    ensures NoDangling(Adopt(m, h, c, alloc)) && CountsAreExact(Adopt(m, h, c, alloc))
  {
    var q := Adopt(m, h, c, alloc);
    if c.None? || alloc {
      forall r ensures Holders(q, r) == if c.Some? && r == m.next then Holders(m, r) + {h} else Holders(m, r) {
        HoldersGain(m, q, h, q.handles[h], r);
      }
      assert Holders(m, m.next) == {};
    } else {
      assert forall r :: Holders(q, r) == Holders(m, r);
    }
  }

  lemma AdoptKeepsFates(m: Mem, h: nat, c: Option<nat>, alloc: bool)
    requires NoDangling(m) && NoTwoFates(m) && NoLeak(m) && (c.Some? ==> c.value !in m.given)
    ensures NoTwoFates(Adopt(m, h, c, alloc)) && NoLeak(Adopt(m, h, c, alloc))
  {
    var q := Adopt(m, h, c, alloc);
    if c.Some? {
      var o := c.value;
      assert !Counted(m, o) && o !in m.dead;
      forall x ensures Counted(q, x) <==> Counted(m, x) || (alloc && x == o) {
        if Counted(m, x) {
          var r :| r in m.targets && m.targets[r] == x;
          assert q.targets[r] == x;
        }
        if alloc {
          assert q.targets[m.next] == o;
        }
      }
    } else {
      assert forall x :: Counted(q, x) <==> Counted(m, x);
    }
  }

  lemma AdoptKeepsInv(m: Mem, h: nat, c: Option<nat>, alloc: bool)
    requires Inv(m) && h !in m.handles && (c.Some? ==> c.value !in m.given)
    ensures Inv(Adopt(m, h, c, alloc))
  {
    AdoptKeepsCounts(m, h, c, alloc);
    AdoptKeepsFates(m, h, c, alloc);
  }

  lemma SameFates(m: Mem, q: Mem)
    requires NoTwoFates(m) && NoLeak(m) && q.targets == m.targets && q.dead == m.dead && q.given == m.given
    ensures NoTwoFates(q) && NoLeak(q)
  {
    assert forall x :: Counted(q, x) <==> Counted(m, x);
  }

  lemma CopyKeepsInv(m: Mem, h: nat, other: nat)
    requires Inv(m) && h !in m.handles && other in m.handles
    ensures Known(m, other) && Inv(Copy(m, h, other))
  {
    InvKnows(m, other);
    var q, v := Copy(m, h, other), m.handles[other];
    assert CountsAreExact(q) by {
      forall r | r in m.counts ensures q.counts[r] == |Holders(q, r)| && 0 < q.counts[r] {
        HoldersGain(m, q, h, v, r);
      }
    }
    assert NoDangling(q);
    SameFates(m, q);
  }

  lemma SwapKeepsInv(m: Mem, h: nat, other: nat)
    requires Inv(m) && h in m.handles && other in m.handles
    ensures Inv(Swap(m, h, other))
  {
    var q := Swap(m, h, other);
    assert CountsAreExact(q) by {
      forall r | r in m.counts ensures |Holders(q, r)| == |Holders(m, r)| {
        SwappedHolders(m, h, other, r);
      }
    }
    assert NoDangling(q);
    SameFates(m, q);
  }

  /** Swapping two handles renames them in every holder set. */
  lemma SwappedHolders(m: Mem, h: nat, other: nat, r: nat)
    requires h in m.handles && other in m.handles
    ensures |Holders(Swap(m, h, other), r)| == |Holders(m, r)|
  {
    var s, t := Holders(m, r), Holders(Swap(m, h, other), r);
    forall g ensures g in t <==> (if g == h then other else if g == other then h else g) in s {
    }
    RenamedSet(s, t, h, other);
  }

  lemma RenamedSet(s: set<nat>, t: set<nat>, x: nat, y: nat)
    requires forall g :: g in t <==> (if g == x then y else if g == y then x else g) in s
    ensures |t| == |s|
  {
    if x in s && y !in s {
      SwapOne(s, t, x, y);
    } else if x !in s && y in s {
      SwapOne(s, t, y, x);
    } else {
      forall g ensures g in t <==> g in s {
      }
      assert t == s;
    }
  }

  lemma SwapOne(s: set<nat>, t: set<nat>, x: nat, y: nat)
    requires x in s && y !in s && y in t && x !in t
    requires forall g :: g != x && g != y ==> (g in t <==> g in s)
    ensures |t| == |s|
  {
    assert t - {y} == s - {x};
    assert |t - {y}| == |t| - 1 && |s - {x}| == |s| - 1;
  }

  lemma DropKeepsCounts(m: Mem, h: nat)
    requires NoDangling(m) && CountsAreExact(m) && h in m.handles
    ensures Known(m, h) && NoDangling(Drop(m, h)) && CountsAreExact(Drop(m, h))
  {
    InvKnows(m, h);
    var q, v := Drop(m, h), m.handles[h];
    assert CountsAreExact(q) by {
      forall r | r in q.counts ensures q.counts[r] == |Holders(q, r)| && 0 < q.counts[r] {
        HoldersLose(m, q, h, r);
        if v.Managed? && v.ref == r {
          assert h in Holders(m, r);
        }
      }
    }
    forall g | g in q.handles && q.handles[g].Managed? ensures q.handles[g].ref in q.targets {
      if v.Managed? && v.ref == q.handles[g].ref && m.counts[v.ref] == 1 {
        LastHolder(m, h, g);
      }
    }
  }

  lemma DropKeepsFates(m: Mem, h: nat)
    requires NoDangling(m) && NoTwoFates(m) && NoLeak(m) && Known(m, h)
    ensures NoTwoFates(Drop(m, h)) && NoLeak(Drop(m, h))
  {
    var q, v := Drop(m, h), m.handles[h];
    if v.Managed? && m.counts[v.ref] == 1 {
      assert m.targets[v.ref] == v.obj;
      forall x ensures Counted(q, x) <==> Counted(m, x) && x != v.obj {
        if Counted(m, x) && x != v.obj {
          var r :| r in m.targets && m.targets[r] == x;
          assert q.targets[r] == x;
        }
      }
    } else {
      SameFates(m, q);
    }
  }

  lemma DropKeepsInv(m: Mem, h: nat)
    requires Inv(m) && h in m.handles
    ensures Known(m, h) && Inv(Drop(m, h))
  {
    DropKeepsCounts(m, h);
    DropKeepsFates(m, h);
  }

  // ----- assignment -----

  /** The temporary takes the old value away, and `h` has the new one. */
  lemma AssignRawKeepsInv(m: Mem, h: nat, c: Option<nat>, alloc: bool, tmp: nat)
    requires Inv(m) && h in m.handles && tmp !in m.handles && (c.Some? ==> c.value !in m.given)
    ensures Known(m, h) && Inv(AssignRaw(m, h, c, alloc, tmp))
    ensures c.Some? && !alloc ==> AssignRaw(m, h, c, alloc, tmp).handles == m.handles
  {
    hide Inv;
    InvParts(m);
    InvKnows(m, h);
    AdoptKeepsInv(m, tmp, c, alloc);
    if c.None? || alloc {
      var m1 := Adopt(m, tmp, c, alloc);
      SwapKeepsInv(m1, h, tmp);
      DropKeepsInv(Swap(m1, h, tmp), tmp);
    }
  }

  lemma InvParts(m: Mem)
    requires Inv(m)
    ensures NoDangling(m) && CountsAreExact(m) && NoTwoFates(m) && NoLeak(m)
  {
  }

  /** A raw pointer must be handed in at most once: constructing from one that is managed already, or
      was destroyed, breaks the invariant, whether or not the counter can be allocated. */
  lemma AdoptIff(m: Mem, h: nat, o: nat, alloc: bool)
    requires Inv(m) && h !in m.handles
    ensures Inv(Adopt(m, h, Some(o), alloc)) <==> o !in m.given
  {
    var q := Adopt(m, h, Some(o), alloc);
    if o !in m.given {
      AdoptKeepsInv(m, h, Some(o), alloc);
    } else if Counted(m, o) {
      var r :| r in m.targets && m.targets[r] == o;
      assert q.targets[r] == o;
      assert if alloc then q.targets[m.next] == o && r != m.next else q.dead[|m.dead|] == o;
      assert !NoTwoFates(q);
    } else {
      var i :| 0 <= i < |m.dead| && m.dead[i] == o;
      assert q.dead[i] == o;
      assert if alloc then q.targets[m.next] == o else q.dead[|m.dead|] == o;
      assert !NoTwoFates(q);
    }
  }

  /** The same for assigning it, even when the handle assigned to manages it. */
  lemma AssignRawIff(m: Mem, h: nat, o: nat, alloc: bool, tmp: nat)
    requires Inv(m) && h in m.handles && tmp !in m.handles
    ensures Known(m, h) && (Inv(AssignRaw(m, h, Some(o), alloc, tmp)) <==> o !in m.given)
  {
    InvKnows(m, h);
    if o !in m.given {
      AssignRawKeepsInv(m, h, Some(o), alloc, tmp);
    } else if alloc {
      var v, q := m.handles[h], AssignRaw(m, h, Some(o), true, tmp);
      assert q.targets[m.next] == o;
      if Counted(m, o) {
        var r :| r in m.targets && m.targets[r] == o;
        if r in q.targets {
          assert q.targets[r] == o && r != m.next;
        } else {
          assert v.Managed? && v.ref == r && v.obj == o;
          assert q.dead[|m.dead|] == o;
        }
        assert !NoTwoFates(q);
      } else {
        var i :| 0 <= i < |m.dead| && m.dead[i] == o;
        assert q.dead[i] == o;
        assert !NoTwoFates(q);
      }
    } else {
      AdoptIff(m, tmp, o, false);
    }
  }

  lemma AssignRawHandles(m: Mem, h: nat, c: Option<nat>, alloc: bool, tmp: nat)
    requires Known(m, h) && tmp !in m.handles && (forall r :: r in m.counts ==> r < m.next) && (c.Some? ==> alloc)
    ensures var q := AssignRaw(m, h, c, alloc, tmp);
            && q.handles == m.handles[h := if c.None? then Empty else Managed(c.value, m.next)]
            && (c.Some? ==> m.next !in m.counts && m.next in q.counts && q.counts[m.next] == 1)
            && q.dead == Drop(m, h).dead
  {
    var q := AssignRaw(m, h, c, alloc, tmp);
    assert m.next !in m.counts;
    assert q.handles == m.handles[h := if c.None? then Empty else Managed(c.value, m.next)];
  }

  lemma DropOfEmpty(m: Mem, h: nat)
    requires Known(m, h) && m.handles[h].Empty?
    ensures Drop(m, h).dead == m.dead
  {
  }

  /** What assigning a raw pointer does, when no exception leaves: null empties the handle, a new pointer
      is managed under a new counter of one, no other handle changes, and the object held before is
      destroyed exactly if no other handle holds it. */
  lemma AssignRawSets(m: Mem, h: nat, c: Option<nat>, alloc: bool, tmp: nat)
    requires Inv(m) && h in m.handles && tmp !in m.handles && (c.Some? ==> c.value !in m.given && alloc)
    ensures Known(m, h)
    ensures var q := AssignRaw(m, h, c, alloc, tmp);
            && q.handles == m.handles[h := if c.None? then Empty else Managed(c.value, m.next)]
            && (c.Some? ==> m.next !in m.counts && m.next in q.counts && q.counts[m.next] == 1)
            && q.dead == if m.handles[h].Managed? && !Held(m.(handles := m.handles - {h}), m.handles[h].obj)
                         then m.dead + [m.handles[h].obj] else m.dead
  {
    InvKnows(m, h);
    InvBounds(m);
    AssignRawHandles(m, h, c, alloc, tmp);
    hide Inv, AssignRaw, Drop, Held, Known;
    if m.handles[h].Managed? {
      LastHandleDestroys(m, h);
    } else {
      DropOfEmpty(m, h);
    }
  }

  lemma InvBounds(m: Mem)
    requires Inv(m)
    ensures forall r :: r in m.counts ==> r < m.next
  {
  }

  /** What assigning a handle its own pointer does: a second counter is made for the object, and if
      the handle was the last on the first counter, the object is destroyed while the handle still
      points to it. */
  lemma OwnPointerIsNotNoOp(m: Mem, h: nat, tmp: nat)
    requires Inv(m) && h in m.handles && m.handles[h].Managed? && tmp !in m.handles
    ensures Known(m, h)
    ensures var v := m.handles[h];
            var q := AssignRaw(m, h, Some(v.obj), true, tmp);
            && q.handles == m.handles[h := Managed(v.obj, m.next)] && q.counts[m.next] == 1
            && q.dead == if m.counts[v.ref] == 1 then m.dead + [v.obj] else m.dead
  {
    InvKnows(m, h);
    var v := m.handles[h];
    var q := AssignRaw(m, h, Some(v.obj), true, tmp);
    assert m.next !in m.counts;
    assert q.handles == m.handles[h := Managed(v.obj, m.next)];
  }

  /** The shortest run that shows it: hand in an object, and assign it again. */
  lemma AssigningAgainDangles(h: nat, o: nat, tmp: nat)
    requires h != tmp
    ensures var m := Adopt(EmptyMem, h, Some(o), true);
            && Inv(m) && Known(m, h)
            && (var q := AssignRaw(m, h, Some(o), true, tmp);
                q.dead == [o] && q.handles[h] == Managed(o, 1) && !Inv(q))
  {
    var m := Adopt(EmptyMem, h, Some(o), true);
    EmptyInv();
    AdoptKeepsInv(EmptyMem, h, Some(o), true);
    OwnPointerIsNotNoOp(m, h, tmp);
    AssignRawIff(m, h, o, true, tmp);
    assert [] + [o] == [o];
  }

  lemma AssignFromKeepsInv(m: Mem, h: nat, other: nat, tmp: nat)
    requires Inv(m) && h in m.handles && other in m.handles && tmp !in m.handles
    ensures Known(m, h) && Known(m, other) && Inv(AssignFrom(m, h, other, tmp))
    ensures AssignFrom(m, h, other, tmp).handles == m.handles[h := m.handles[other]]
  {
    hide Inv;
    InvParts(m);
    InvKnows(m, h);
    CopyKeepsInv(m, tmp, other);
    var m1 := Copy(m, tmp, other);
    SwapKeepsInv(m1, h, tmp);
    DropKeepsInv(Swap(m1, h, tmp), tmp);
  }

  /** Assigning a pointer to itself changes nothing. */
  lemma SelfAssignIsNoOp(m: Mem, h: nat, tmp: nat)
    requires Inv(m) && h in m.handles && tmp !in m.handles
    ensures Known(m, h) && AssignFrom(m, h, h, tmp) == m
  {
    InvKnows(m, h);
    var q := AssignFrom(m, h, h, tmp);
    assert q.handles == m.handles;
    assert q.counts == m.counts;
  }

  /** Some live handle points to the object. */
  ghost predicate Held(m: Mem, o: nat)
  {
    exists h :: h in m.handles && m.handles[h].Managed? && m.handles[h].obj == o
  }

  /** Destroying a handle destroys the object exactly when no other handle shares it. */
  lemma LastHandleDestroys(m: Mem, h: nat)
    requires Inv(m) && h in m.handles && m.handles[h].Managed?
    ensures Known(m, h)
    ensures var o := m.handles[h].obj;
            Drop(m, h).dead == if Held(m.(handles := m.handles - {h}), o) then m.dead else m.dead + [o]
  {
    InvKnows(m, h);
    var v := m.handles[h];
    var s := Holders(m, v.ref);
    assert h in s;
    var rest := m.handles - {h};
    if g :| g in rest && rest[g].Managed? && rest[g].obj == v.obj {
      assert m.handles[g].ref == v.ref;
      assert g in s;
      if |s| == 1 {
        InSingleton(s, g, h);
      }
    } else {
      assert forall g :: g in s && g != h ==> g in rest && rest[g].Managed? && rest[g].obj == v.obj;
      assert s == {h};
    }
  }

  // ----- runs -----

  /** What client code does with pointers; `tmp` names the temporary of an assignment. */
  datatype Op =
    | Create(h: nat, c: Option<nat>, alloc: bool)
    | CreateCopy(h: nat, other: nat)
    | Assign(h: nat, c: Option<nat>, alloc: bool, tmp: nat)
    | AssignOther(h: nat, other: nat, tmp: nat)
    | Exchange(h: nat, other: nat)
    | Destroy(h: nat)

  /** Handles are created once and used while alive; a raw pointer is handed in at most once. */
  predicate Allowed(m: Mem, op: Op)
  {
    match op
    case Create(h, c, _) => h !in m.handles && (c.Some? ==> c.value !in m.given)
    case CreateCopy(h, other) => h !in m.handles && other in m.handles
    case Assign(h, c, _, tmp) => h in m.handles && tmp !in m.handles && (c.Some? ==> c.value !in m.given)
    case AssignOther(h, other, tmp) => h in m.handles && other in m.handles && tmp !in m.handles
    case Exchange(h, other) => h in m.handles && other in m.handles
    case Destroy(h) => h in m.handles
  }

  ghost function Apply(m: Mem, op: Op): Mem
    requires NoDangling(m) && CountsAreExact(m) && Allowed(m, op)
  {
    match op
    case Create(h, c, alloc) => Adopt(m, h, c, alloc)
    case CreateCopy(h, other) => InvKnows(m, other); Copy(m, h, other)
    case Assign(h, c, alloc, tmp) => InvKnows(m, h); AssignRaw(m, h, c, alloc, tmp)
    case AssignOther(h, other, tmp) => InvKnows(m, h); InvKnows(m, other); AssignFrom(m, h, other, tmp)
    case Exchange(h, other) => Swap(m, h, other)
    case Destroy(h) => InvKnows(m, h); Drop(m, h)
  }

  lemma ApplyKeepsInv(m: Mem, op: Op)
    requires Inv(m) && Allowed(m, op)
    ensures Inv(Apply(m, op))
  {
    hide Inv, Adopt, Copy, AssignRaw, AssignFrom, Swap, Drop;
    InvParts(m);
    match op
    case Create(h, c, alloc) => AdoptKeepsInv(m, h, c, alloc);
    case CreateCopy(h, other) => CopyKeepsInv(m, h, other);
    case Assign(h, c, alloc, tmp) => AssignRawKeepsInv(m, h, c, alloc, tmp);
    case AssignOther(h, other, tmp) => AssignFromKeepsInv(m, h, other, tmp);
    case Exchange(h, other) => SwapKeepsInv(m, h, other);
    case Destroy(h) => DropKeepsInv(m, h);
  }

  ghost predicate IsRun(m: Mem, ops: seq<Op>)
    requires Inv(m)
    decreases |ops|
  {
    ops == [] || (Allowed(m, ops[0]) && (ApplyKeepsInv(m, ops[0]); IsRun(Apply(m, ops[0]), ops[1..])))
  }

  ghost function After(m: Mem, ops: seq<Op>): (q: Mem)
    requires Inv(m) && IsRun(m, ops)
    ensures Inv(q)
    decreases |ops|
  {
    if ops == [] then m else ApplyKeepsInv(m, ops[0]); After(Apply(m, ops[0]), ops[1..])
  }

  lemma EmptyInv()
    ensures Inv(EmptyMem)
  {
  }

  /** Over any run from the start: each counter is the number of handles that share it; an object is
      destroyed once if no handle is left for it and not at all while there is one; and when the last
      handle is gone, so are all the counters and all the objects. */
  lemma RunsAreSafe(ops: seq<Op>)
    requires Inv(EmptyMem) && IsRun(EmptyMem, ops)
    ensures var m := After(EmptyMem, ops);
            && CountsAreExact(m)
            && (forall o :: o in m.given ==> multiset(m.dead)[o] == if Held(m, o) then 0 else 1)
            && (m.handles == map[] ==> m.counts == map[] && m.given == set o | o in m.dead)
  {
    var m := After(EmptyMem, ops);
    forall o | o in m.given ensures multiset(m.dead)[o] == if Held(m, o) then 0 else 1 {
      CountedIffHeld(m, o);
      DistinctOnce(m.dead, o);
    }
    if m.handles == map[] {
      assert forall r :: Holders(m, r) == {};
      assert m.counts.Keys == {};
    }
  }

  lemma CountedIffHeld(m: Mem, o: nat)
    requires Inv(m)
    ensures Counted(m, o) <==> Held(m, o)
  {
    if Counted(m, o) {
      var r :| r in m.targets && m.targets[r] == o;
      assert Holders(m, r) != {};
      var h :| h in Holders(m, r);
    }
  }

  lemma DistinctOnce(s: seq<nat>, o: nat)
    requires forall i, j :: 0 <= i < j < |s| ==> s[i] != s[j]
    ensures multiset(s)[o] == if o in s then 1 else 0
  {
    if s != [] {
      var t := s[..|s| - 1];
      assert s == t + [s[|s| - 1]];
      DistinctOnce(t, o);
    }
  }

  // ----- the same on a mutable heap -----

  /** The heap the pointer objects live on. Each method does what the member function's body does,
      one field at a time; `targets`, `given` and `dead` are history. */
  class Heap {
    var handles: map<nat, Handle>
    var counts: map<nat, nat>
    var next: nat
    ghost var targets: map<nat, nat>
    ghost var given: set<nat>
    ghost var dead: seq<nat>

    ghost function View(): Mem
      reads this
    {
      Mem(handles, counts, targets, next, given, dead)
    }

    ghost predicate Valid()
      reads this
    {
      Inv(View())
    }

    constructor ()
      ensures View() == EmptyMem && Valid()
    {
      handles, counts, next := map[], map[], 0;
      targets, given, dead := map[], {}, [];
      new;
      EmptyInv();
    }

    /** Lines 102-111. `threw` reports that `new size_t` failed and the guard deleted the object. */
    method Construct(h: nat, c: Option<nat>, alloc: bool) returns (threw: bool)
      requires Valid() && Allowed(View(), Create(h, c, alloc))
      modifies this
      ensures Valid() && View() == Adopt(old(View()), h, c, alloc) && threw == (c.Some? && !alloc)
    {
      hide Inv;
      AdoptKeepsInv(View(), h, c, alloc);
      threw := false;
      if c.Some? {
        given := given + {c.value};
        if !alloc {
          dead := dead + [c.value];
          return true;
        }
        counts := counts[next := 1];
        targets := targets[next := c.value];
        handles := handles[h := Managed(c.value, next)];
        next := next + 1;
      } else {
        handles := handles[h := Empty];
      }
    }

    /** Lines 114-121. */
    method CopyConstruct(h: nat, other: nat)
      requires Valid() && Allowed(View(), CreateCopy(h, other))
      modifies this
      ensures Known(old(View()), other) && Valid() && View() == Copy(old(View()), h, other)
    {
      hide Inv;
      CopyKeepsInv(View(), h, other);
      handles := handles[h := handles[other]];
      if handles[h].Managed? {
        var r := handles[h].ref;
        counts := counts[r := counts[r] + 1];
      }
    }

    /** Lines 127-133. */
    method Destruct(h: nat)
      requires Valid() && h in handles
      modifies this
      ensures Known(old(View()), h) && Valid() && View() == Drop(old(View()), h)
    {
      hide Inv;
      DropKeepsInv(View(), h);
      var v := handles[h];
      if v.Managed? {
        RemoveUpdated(counts, v.ref, counts[v.ref] - 1);
        counts := counts[v.ref := counts[v.ref] - 1];
        if counts[v.ref] == 0 {
          dead := dead + [v.obj];
          counts := counts - {v.ref};
          targets := targets - {v.ref};
        }
      }
      handles := handles - {h};
    }

    /** Lines 247-251. */
    method Exchange(h: nat, other: nat)
      requires Valid() && h in handles && other in handles
      modifies this
      ensures Valid() && View() == Swap(old(View()), h, other)
    {
      hide Inv;
      SwapKeepsInv(View(), h, other);
      handles := handles[h := handles[other]][other := handles[h]];
    }

    /** Lines 142-149: a temporary, `swap`, and the temporary's destructor. An exception leaves
        before the swap. */
    method AssignPointer(h: nat, c: Option<nat>, alloc: bool, tmp: nat) returns (threw: bool)
      requires Valid() && Allowed(View(), Assign(h, c, alloc, tmp))
      modifies this
      ensures Known(old(View()), h) && NoDangling(old(View()))
      ensures Valid() && View() == AssignRaw(old(View()), h, c, alloc, tmp) && threw == (c.Some? && !alloc)
    {
      hide Inv, NoDangling, CountsAreExact, Known, Adopt, Swap, Drop;
      InvParts(View());
      InvKnows(View(), h);
      Below(View());
      AdoptAdds(View(), tmp, c, alloc);
      threw := Construct(tmp, c, alloc);
      if threw {
        return;
      }
      Exchange(tmp, h);
      SwapCommutes(old(View()), h, c, alloc, tmp);
      Destruct(tmp);
    }

    /** Lines 159-166. */
    method AssignHandle(h: nat, other: nat, tmp: nat)
      requires Valid() && Allowed(View(), AssignOther(h, other, tmp))
      modifies this
      ensures Known(old(View()), h) && Known(old(View()), other)
      ensures Valid() && View() == AssignFrom(old(View()), h, other, tmp)
    {
      hide Inv, NoDangling, CountsAreExact, Known, Copy, Swap, Drop;
      InvParts(View());
      InvKnows(View(), h);
      InvKnows(View(), other);
      CopySwaps(View(), h, other, tmp);
      CopyConstruct(tmp, other);
      Exchange(tmp, h);
      Destruct(tmp);
    }
  }

  lemma AdoptAdds(m: Mem, tmp: nat, c: Option<nat>, alloc: bool)
    ensures var q := Adopt(m, tmp, c, alloc);
            forall h :: h in m.handles ==> h in q.handles
    ensures c.None? || alloc ==> tmp in Adopt(m, tmp, c, alloc).handles
  {
  }

  lemma Below(m: Mem)
    requires NoDangling(m)
    ensures forall r :: r in m.counts ==> r < m.next
  {
  }

  lemma RemoveUpdated(m: map<nat, nat>, k: nat, v: nat)
    ensures m[k := v] - {k} == m - {k}
  {
  }

  lemma CopySwaps(m: Mem, h: nat, other: nat, tmp: nat)
    requires h in m.handles && tmp != h && Known(m, other)
    ensures var q := Copy(m, tmp, other);
            h in q.handles && tmp in q.handles && Swap(q, tmp, h) == Swap(q, h, tmp) && tmp in Swap(q, h, tmp).handles
  {
  }

  lemma SwapCommutes(m: Mem, h: nat, c: Option<nat>, alloc: bool, tmp: nat)
    requires h in m.handles && tmp != h && (c.None? || alloc)
    ensures var q := Adopt(m, tmp, c, alloc);
            h in q.handles && tmp in q.handles && Swap(q, tmp, h) == Swap(q, h, tmp) && tmp in Swap(q, h, tmp).handles
  {
  }
}
