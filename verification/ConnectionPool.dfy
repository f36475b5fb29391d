/** The connection pool: a list of connections with in-use flags and last-used times, under one
    lock. Each public operation is one atomic step; times and new connections are arguments.

    Lines are those of mysql++/include/cpool.cpp. */
module ConnectionPool {
  import opened Options

  datatype Info = Info(conn: nat, lastUsed: int, inUse: bool)

  // ----- the ordering, cpool.h -----

  /** `operator<`: in-use entries come before idle ones; then the less recently used. */
  predicate Less(a: Info, b: Info)
  {
    if a.inUse == b.inUse then a.lastUsed < b.lastUsed else a.inUse
  }

  lemma LessIsStrictWeakOrder(a: Info, b: Info, c: Info)
    ensures !Less(a, a)
    ensures Less(a, b) && Less(b, c) ==> Less(a, c)
    ensures !Less(a, b) && !Less(b, a) && !Less(b, c) && !Less(c, b) ==> !Less(a, c) && !Less(c, a)
  {
  }

  /** What `max_element` finds: the first entry that no entry exceeds. */
  ghost predicate IsFirstMax(pool: seq<Info>, k: nat)
  {
    && k < |pool|
    && (forall i :: 0 <= i < |pool| ==> !Less(pool[k], pool[i]))
    && (forall i :: 0 <= i < k ==> Less(pool[i], pool[k]))
  }

  lemma FirstMaxIsUnique(pool: seq<Info>, j: nat, k: nat)
    requires IsFirstMax(pool, j) && IsFirstMax(pool, k)
    ensures j == k
  {
    var a, b := pool[j], pool[k];
    assert !Less(a, b) && !Less(b, a);
  }

  /** The maximum is idle exactly when some entry is, and then it is the most recently used of the
      idle ones. */
  lemma MaxIsIdleIffAnyIs(pool: seq<Info>, k: nat)
    requires IsFirstMax(pool, k)
    ensures !pool[k].inUse <==> exists i :: 0 <= i < |pool| && !pool[i].inUse
    ensures !pool[k].inUse ==> forall i :: 0 <= i < |pool| && !pool[i].inUse ==> pool[i].lastUsed <= pool[k].lastUsed
  {
    forall i | 0 <= i < |pool| && !pool[i].inUse ensures !pool[k].inUse && pool[i].lastUsed <= pool[k].lastUsed {
      assert !Less(pool[k], pool[i]);
    }
  }

  // ----- filtering -----

  /** The entries that satisfy `f`, in order. */
  function Filter(pool: seq<Info>, f: Info -> bool): seq<Info>
  {
    if pool == [] then []
    else
      var rest := Filter(pool[..|pool| - 1], f);
      var last := pool[|pool| - 1];
      if f(last) then rest + [last] else rest
  }

  lemma {:induction false} FilterMembers(pool: seq<Info>, f: Info -> bool)
    ensures forall x :: x in Filter(pool, f) <==> x in pool && f(x)
  {
    if pool != [] {
      FilterMembers(pool[..|pool| - 1], f);
      assert pool == pool[..|pool| - 1] + [pool[|pool| - 1]];
    }
  }

  lemma FilterPush(pool: seq<Info>, x: Info, f: Info -> bool)
    ensures Filter(pool + [x], f) == if f(x) then Filter(pool, f) + [x] else Filter(pool, f)
  {
    assert (pool + [x])[..|pool|] == pool;
  }

  lemma FilterNone(f: Info -> bool)
    ensures Filter([], f) == [] && Conns(Filter([], f)) == []
  {
  }

  function Conns(pool: seq<Info>): (r: seq<nat>)
    ensures |r| == |pool| && forall i :: 0 <= i < |pool| ==> r[i] == pool[i].conn
  {
    seq(|pool|, i requires 0 <= i < |pool| => pool[i].conn)
  }

  /** Idle since `minAge` or longer. */
  function TooOld(minAge: int): Info -> bool
  {
    (x: Info) => !x.inUse && x.lastUsed <= minAge
  }

  function Not(f: Info -> bool): Info -> bool
  {
    (x: Info) => !f(x)
  }

  function Idle(all: bool): Info -> bool
  {
    (x: Info) => all || !x.inUse
  }

  // ----- what each operation does to the list -----

  predicate AnyIdle(pool: seq<Info>)
  {
    exists i :: 0 <= i < |pool| && !pool[i].inUse
  }

  /** `grab`: the list afterwards and the connection handed out. */
  ghost predicate Grabbed(pool: seq<Info>, now: int, maxIdle: nat, newConn: nat, after: seq<Info>, conn: nat)
  {
    var kept := Filter(pool, Not(TooOld(now - maxIdle)));
    if AnyIdle(kept) then
      exists k: nat :: IsFirstMax(kept, k) && !kept[k].inUse
                       && after == kept[k := kept[k].(inUse := true)] && conn == kept[k].conn
    else
      after == kept + [Info(newConn, now, true)] && conn == newConn
  }

  /** `grab` drops exactly the entries idle for too long and keeps the others in order; of those left
      it hands out the most recently used idle one, and a new connection only if none is idle. */
  lemma GrabChoosesMru(pool: seq<Info>, now: int, maxIdle: nat, newConn: nat, after: seq<Info>, conn: nat)
    requires Grabbed(pool, now, maxIdle, newConn, after, conn)
    ensures var kept := Filter(pool, Not(TooOld(now - maxIdle)));
            && (forall x :: x in kept <==> x in pool && (x.inUse || x.lastUsed > now - maxIdle))
            && (AnyIdle(kept) ==> exists k :: 0 <= k < |kept| && !kept[k].inUse && conn == kept[k].conn
                                              && after == kept[k := kept[k].(inUse := true)]
                                              && forall i :: 0 <= i < |kept| && !kept[i].inUse
                                                             ==> kept[i].lastUsed <= kept[k].lastUsed)
            && (!AnyIdle(kept) ==> conn == newConn && after == kept + [Info(newConn, now, true)])
  {
    var kept := Filter(pool, Not(TooOld(now - maxIdle)));
    FilterMembers(pool, Not(TooOld(now - maxIdle)));
    if AnyIdle(kept) {
      var k: nat :| IsFirstMax(kept, k) && !kept[k].inUse
                    && after == kept[k := kept[k].(inUse := true)] && conn == kept[k].conn;
      MaxIsIdleIffAnyIs(kept, k);
    }
  }

  /** The first entry for the connection, if there is one. */
  function IndexOf(pool: seq<Info>, pc: nat): (k: nat)
    ensures k <= |pool| && (k < |pool| ==> pool[k].conn == pc)
    ensures forall i :: 0 <= i < k ==> pool[i].conn != pc
  {
    if pool == [] then 0
    else if pool[0].conn == pc then 0
    else 1 + IndexOf(pool[1..], pc)
  }

  function Without(pool: seq<Info>, k: nat): (r: seq<Info>)
    requires k < |pool|
    ensures |r| == |pool| - 1
  {
    pool[..k] + pool[k + 1..]
  }

  class Pool {
    var pool: seq<Info>
    // History: connections destroyed, in order.
    ghost var destroyed: seq<nat>

    constructor ()
      ensures pool == [] && destroyed == []
    {
      pool := [];
      destroyed := [];
    }

    /** Lines 183-189. */
    method RemoveAt(i: nat)
      requires i < |pool|
      modifies this
      ensures pool == Without(old(pool), i) && destroyed == old(destroyed) + [old(pool)[i].conn]
    {
      destroyed := destroyed + [pool[i].conn];
      pool := pool[..i] + pool[i + 1..];
    }

    /** Lines 72-85. */
    method Clear(all: bool)
      modifies this
      ensures pool == Filter(old(pool), Not(Idle(all)))
      ensures destroyed == old(destroyed) + Conns(Filter(old(pool), Idle(all)))
    {
      hide Filter;
      FilterNone(Idle(all));
      FilterNone(Not(Idle(all)));
      ghost var was, j := pool, 0;
      var it := 0;
      while it < |pool|
        invariant j <= |was| && it <= |pool| && pool[..it] == Filter(was[..j], Not(Idle(all))) && pool[it..] == was[j..]
        invariant destroyed == old(destroyed) + Conns(Filter(was[..j], Idle(all)))
        decreases |pool| - it
      {
        FilterPush(was[..j], was[j], Idle(all));
        FilterPush(was[..j], was[j], Not(Idle(all)));
        assert was[..j + 1] == was[..j] + [was[j]];
        assert pool[it] == was[j];
        if all || !pool[it].inUse {
          RemoveAt(it);
        } else {
          it := it + 1;
        }
        j := j + 1;
      }
      assert was[..j] == was;
    }

    /** `find_if` with the TooOld functor. */
    method FindOld(from: nat, minAge: int) returns (it: nat)
      requires from <= |pool|
      ensures from <= it <= |pool|
      ensures forall i :: from <= i < it ==> !TooOld(minAge)(pool[i])
      ensures it < |pool| ==> TooOld(minAge)(pool[it])
    {
      it := from;
      while it < |pool| && (pool[it].inUse || pool[it].lastUsed > minAge)
        invariant from <= it <= |pool|
        invariant forall i :: from <= i < it ==> !TooOld(minAge)(pool[i])
      {
        it := it + 1;
      }
    }

    /** Moving on to the next entry that is too old; what is passed over is kept. `was` is the list
        at the start, of which `j` entries have been dealt with. */
    method NextOld(from: nat, minAge: int, ghost was: seq<Info>, ghost j: nat) returns (it: nat, ghost next: nat)
      requires from <= |pool| && j <= |was| && pool[from..] == was[j..]
      requires pool[..from] == Filter(was[..j], Not(TooOld(minAge)))
      ensures from <= it <= |pool| && next <= |was| && pool[it..] == was[next..]
      ensures pool[..it] == Filter(was[..next], Not(TooOld(minAge)))
      ensures Filter(was[..next], TooOld(minAge)) == Filter(was[..j], TooOld(minAge))
      ensures it < |pool| ==> TooOld(minAge)(pool[it])
    {
      hide Filter;
      it := FindOld(from, minAge);
      next := j + (it - from);
      assert |pool[from..]| == |was[j..]|;
      forall i | j <= i < next ensures !TooOld(minAge)(was[i]) {
        assert was[i] == was[j..][i - j] == pool[from..][i - j];
      }
      SkipKept(was, j, next, minAge);
      assert pool[..it] == pool[..from] + pool[from..it];
      assert pool[from..it] == pool[from..][..it - from] == was[j..][..it - from] == was[j..next];
      assert pool[it..] == pool[from..][it - from..] == was[j..][it - from..] == was[next..];
    }

    /** Lines 196-204. */
    method RemoveOldConnections(now: int, maxIdle: nat)
      modifies this
      ensures pool == Filter(old(pool), Not(TooOld(now - maxIdle)))
      ensures destroyed == old(destroyed) + Conns(Filter(old(pool), TooOld(now - maxIdle)))
    {
      hide Filter, Not, TooOld, Conns;
      var minAge := now - maxIdle;
      FilterNone(TooOld(minAge));
      FilterNone(Not(TooOld(minAge)));
      ghost var was := pool;
      var it: nat, j: nat := NextOld(0, minAge, was, 0);
      while it < |pool|
        invariant 0 <= j <= |was| && it <= |pool| && pool[it..] == was[j..]
        invariant it < |pool| ==> TooOld(minAge)(pool[it])
        invariant pool[..it] == Filter(was[..j], Not(TooOld(minAge)))
        invariant destroyed == old(destroyed) + Conns(Filter(was[..j], TooOld(minAge)))
        decreases |pool| - it
      {
        ghost var here := pool;
        assert pool[it] == pool[it..][0] == was[j];
        PushOld(was[..j], was[j], minAge);
        assert was[..j + 1] == was[..j] + [was[j]];
        RemoveAt(it);
        assert pool[it..] == here[it..][1..] == was[j..][1..] == was[j + 1..];
        it, j := NextOld(it, minAge, was, j + 1);
      }
      assert was[..j] == was;
    }

    /** `max_element` over the list. */
    method MaxElement() returns (k: nat)
      requires pool != []
      ensures IsFirstMax(pool, k)
    {
      k := 0;
      var i := 1;
      while i < |pool|
        invariant k < i <= |pool| && IsFirstMax(pool[..i], k)
      {
        if Less(pool[k], pool[i]) {
          k := i;
        }
        i := i + 1;
      }
      assert pool[..i] == pool;
    }

    /** Lines 110-120. */
    method FindMru() returns (c: Option<nat>)
      modifies this`pool
      ensures c.None? <==> !AnyIdle(old(pool))
      ensures c.None? ==> pool == old(pool)
      ensures c.Some? ==> exists k: nat :: IsFirstMax(old(pool), k) && !old(pool)[k].inUse
                                           && pool == old(pool)[k := old(pool)[k].(inUse := true)]
                                           && c.value == old(pool)[k].conn
    {
      if pool == [] {
        return None;
      }
      var mru := MaxElement();
      MaxIsIdleIffAnyIs(pool, mru);
      if pool[mru].inUse {
        return None;
      }
      c := Some(pool[mru].conn);
      pool := pool[mru := pool[mru].(inUse := true)];
    }

    /** Lines 126-138. `newConn` is what `create()` would return. */
    method Grab(now: int, maxIdle: nat, newConn: nat) returns (conn: nat)
      modifies this
      ensures Grabbed(old(pool), now, maxIdle, newConn, pool, conn)
      ensures destroyed == old(destroyed) + Conns(Filter(old(pool), TooOld(now - maxIdle)))
    {
      RemoveOldConnections(now, maxIdle);
      var mru := FindMru();
      if mru.Some? {
        return mru.value;
      }
      pool := pool + [Info(newConn, now, true)];
      return pool[|pool| - 1].conn;
    }

    /** The loops of lines 148 and 174: the first entry for the connection. */
    method Find(pc: nat) returns (k: nat)
      ensures k == IndexOf(pool, pc)
    {
      k := 0;
      while k < |pool| && pool[k].conn != pc
        invariant k <= |pool| && k + IndexOf(pool[k..], pc) == IndexOf(pool, pc)
      {
        assert pool[k..][1..] == pool[k + 1..];
        k := k + 1;
      }
    }

    /** Lines 144-155. */
    method Release(pc: nat, now: int)
      modifies this`pool
      ensures pool == Released(old(pool), pc, now)
    {
      var k := Find(pc);
      if k < |pool| {
        pool := pool[k := Info(pool[k].conn, now, false)];
      }
    }

    /** Lines 170-180. */
    method Remove(pc: nat)
      modifies this
      ensures pool == Removed(old(pool), pc)
      ensures destroyed == old(destroyed) + if IndexOf(old(pool), pc) < |old(pool)| then [pc] else []
    {
      var k := Find(pc);
      if k < |pool| {
        RemoveAt(k);
      }
    }

    /** Lines 93-101: two operations, each with the lock to itself. */
    method Exchange(pc: nat, now: int, maxIdle: nat, newConn: nat) returns (conn: nat)
      modifies this
      ensures Grabbed(Removed(old(pool), pc), now, maxIdle, newConn, pool, conn)
      ensures destroyed == old(destroyed) + (if IndexOf(old(pool), pc) < |old(pool)| then [pc] else [])
                           + Conns(Filter(Removed(old(pool), pc), TooOld(now - maxIdle)))
    {
      Remove(pc);
      conn := Grab(now, maxIdle, newConn);
    }
  }

  function Released(pool: seq<Info>, pc: nat, now: int): seq<Info>
  {
    var k := IndexOf(pool, pc);
    if k < |pool| then pool[k := Info(pool[k].conn, now, false)] else pool
  }

  function Removed(pool: seq<Info>, pc: nat): seq<Info>
  {
    var k := IndexOf(pool, pc);
    if k < |pool| then Without(pool, k) else pool
  }

  lemma PushOld(pool: seq<Info>, x: Info, minAge: int)
    requires TooOld(minAge)(x)
    ensures Filter(pool + [x], Not(TooOld(minAge))) == Filter(pool, Not(TooOld(minAge)))
    ensures Conns(Filter(pool + [x], TooOld(minAge))) == Conns(Filter(pool, TooOld(minAge))) + [x.conn]
  {
    hide Filter;
    FilterPush(pool, x, TooOld(minAge));
    FilterPush(pool, x, Not(TooOld(minAge)));
  }

  /** Entries that are not too old pass the filter unchanged. */
  lemma {:induction false} SkipKept(was: seq<Info>, j: nat, n: nat, minAge: int)
    requires j <= n <= |was| && forall i :: j <= i < n ==> !TooOld(minAge)(was[i])
    ensures Filter(was[..n], Not(TooOld(minAge))) == Filter(was[..j], Not(TooOld(minAge))) + was[j..n]
    ensures Filter(was[..n], TooOld(minAge)) == Filter(was[..j], TooOld(minAge))
    decreases n - j
  {
    hide Filter;
    if j < n {
      SkipKept(was, j, n - 1, minAge);
      FilterPush(was[..n - 1], was[n - 1], TooOld(minAge));
      FilterPush(was[..n - 1], was[n - 1], Not(TooOld(minAge)));
      assert was[..n] == was[..n - 1] + [was[n - 1]];
      assert was[j..n] == was[j..n - 1] + [was[n - 1]];
    }
  }

  // ----- release, and clear -----

  /** A release at `now` of a connection in the pool: its first entry is idle and last used now, and all
      other entries are as they were. */
  lemma ReleaseRenews(pool: seq<Info>, pc: nat, now: int)
    requires IndexOf(pool, pc) < |pool|
    ensures var k, r := IndexOf(pool, pc), Released(pool, pc, now);
            && |r| == |pool| && r[k].conn == pc && r[k].lastUsed == now && !r[k].inUse
            && (forall i :: 0 <= i < |pool| && i != k ==> r[i] == pool[i])
            && (forall i :: 0 <= i < k ==> pool[i].conn != pc)
  {
  }

  /** What is in the list after a filter. */
  lemma {:induction false} FilterKeeps(pool: seq<Info>, f: Info -> bool, k: nat)
    requires k < |pool| && f(pool[k])
    ensures pool[k] in Filter(pool, f)
  {
    FilterMembers(pool, f);
  }

  /** A released connection is not too old for a `grab` within `maxIdle`, and is the one handed out if
      every other idle entry was last used before it. */
  lemma ReleasedIsGrabbed(pool: seq<Info>, pc: nat, now: int, now2: int, maxIdle: nat, newConn: nat,
                          after: seq<Info>, conn: nat)
    requires IndexOf(pool, pc) < |pool| && now2 - maxIdle < now
    requires Grabbed(Released(pool, pc, now), now2, maxIdle, newConn, after, conn)
    ensures var k, r := IndexOf(pool, pc), Released(pool, pc, now);
            && r[k] in Filter(r, Not(TooOld(now2 - maxIdle))) && r[k] !in Filter(r, TooOld(now2 - maxIdle))
            && ((forall i :: 0 <= i < |pool| && i != k && !pool[i].inUse ==> pool[i].lastUsed < now) ==> conn == pc)
  {
    var k, r := IndexOf(pool, pc), Released(pool, pc, now);
    ReleaseRenews(pool, pc, now);
    var kept := Filter(r, Not(TooOld(now2 - maxIdle)));
    FilterKeeps(r, Not(TooOld(now2 - maxIdle)), k);
    FilterMembers(r, TooOld(now2 - maxIdle));
    FilterMembers(r, Not(TooOld(now2 - maxIdle)));
    assert AnyIdle(kept) by {
      var j :| 0 <= j < |kept| && kept[j] == r[k];
    }
    GrabChoosesMru(r, now2, maxIdle, newConn, after, conn);
    var j: nat :| j < |kept| && !kept[j].inUse && conn == kept[j].conn
                  && forall i :: 0 <= i < |kept| && !kept[i].inUse ==> kept[i].lastUsed <= kept[j].lastUsed;
    assert kept[j] in kept && kept[j] in r;
    var i :| 0 <= i < |r| && r[i] == kept[j];
    var n :| 0 <= n < |kept| && kept[n] == r[k];
    assert kept[n].lastUsed <= kept[j].lastUsed;
  }

  /** `shrink` keeps exactly the entries in use, and `clear(true)` keeps none. */
  lemma ClearKeeps(pool: seq<Info>, all: bool, x: Info)
    ensures x in Filter(pool, Not(Idle(all))) <==> x in pool && x.inUse && !all
    ensures x in Filter(pool, Idle(all)) <==> x in pool && (all || !x.inUse)
  {
    FilterMembers(pool, Not(Idle(all)));
    FilterMembers(pool, Idle(all));
  }

}
