/** The connection pool over any run of operations: connections are counted by multisets. */
module ConnectionPoolRuns {
  import opened ConnectionPool

  /** The pool, and as history the connections `create` returned, those destroyed, and those that
      clients have grabbed and not given back. */
  datatype World = World(pool: seq<Info>, created: set<nat>, destroyed: seq<nat>, held: set<nat>)

  const Start := World([], {}, [], {})

  function InUse(): Info -> bool
  {
    (x: Info) => x.inUse
  }

  /** The connections of a list, with multiplicity. */
  ghost function Bag(pool: seq<Info>): multiset<nat>
  {
    multiset(Conns(pool))
  }

  /** Every connection created is in the pool or was destroyed, in one place and once. */
  ghost predicate Accounted(w: World)
  {
    multiset(w.destroyed) + Bag(w.pool) == multiset(w.created)
  }

  /** The in-use entries are exactly the outstanding grabs. */
  ghost predicate HeldIsInUse(w: World)
  {
    Bag(Filter(w.pool, InUse())) == multiset(w.held)
  }

  ghost predicate Inv(w: World)
  {
    Accounted(w) && HeldIsInUse(w)
  }

  /** Operations under the lock. `conn` is what `grab` returns, `newConn` what `create` would
      return. */
  datatype Op =
    | Grab(now: int, maxIdle: nat, newConn: nat, conn: nat)
    | Release(pc: nat, now: int)
    | Remove(pc: nat)
    | Clear(all: bool)

  /** `create` returns new connections, and clients release or remove what they hold; `clear(true)`
      takes from them what they hold. Times may be anything. */
  ghost predicate Step(w: World, op: Op, v: World)
  {
    match op
    case Grab(now, maxIdle, newConn, conn) =>
      && newConn !in w.created
      && Grabbed(w.pool, now, maxIdle, newConn, v.pool, conn)
      && v.destroyed == w.destroyed + Conns(Filter(w.pool, TooOld(now - maxIdle)))
      && v.created == (if AnyIdle(Filter(w.pool, Not(TooOld(now - maxIdle)))) then w.created else w.created + {newConn})
      && v.held == w.held + {conn}
    case Release(pc, now) =>
      pc in w.held && v == w.(pool := Released(w.pool, pc, now), held := w.held - {pc})
    case Remove(pc) =>
      pc in w.held && v == w.(pool := Removed(w.pool, pc), destroyed := w.destroyed + [pc], held := w.held - {pc})
    case Clear(all) =>
      v == w.(pool := Filter(w.pool, Not(Idle(all))),
              destroyed := w.destroyed + Conns(Filter(w.pool, Idle(all))),
              held := if all then {} else w.held)
  }

  // ----- filters and multisets -----

  lemma BagConcat(s: seq<Info>, t: seq<Info>)
    ensures Bag(s + t) == Bag(s) + Bag(t)
  {
    assert Conns(s + t) == Conns(s) + Conns(t);
  }

  lemma BagOne(x: Info)
    ensures Bag([x]) == multiset{x.conn}
  {
    assert Conns([x]) == [x.conn];
  }

  lemma BagPush(s: seq<Info>, x: Info)
    ensures Bag(s + [x]) == Bag(s) + multiset{x.conn}
  {
    BagConcat(s, [x]);
    BagOne(x);
  }

  lemma {:induction false} FilterConcat(s: seq<Info>, t: seq<Info>, f: Info -> bool)
    ensures Filter(s + t, f) == Filter(s, f) + Filter(t, f)
    decreases |t|
  {
    if t == [] {
      assert s + t == s;
    } else {
      assert (s + t)[..|s + t| - 1] == s + t[..|t| - 1];
      FilterConcat(s, t[..|t| - 1], f);
    }
  }

  /** A filter and its complement share the list out. */
  lemma {:induction false} FilterPartition(pool: seq<Info>, f: Info -> bool)
    ensures Bag(Filter(pool, f)) + Bag(Filter(pool, Not(f))) == Bag(pool)
  {
    hide Bag;
    if pool == [] {
      BagConcat([], []);
      assert [] + [] == pool;
    } else {
      var init, x := pool[..|pool| - 1], pool[|pool| - 1];
      FilterPartition(init, f);
      assert pool == init + [x];
      BagPush(init, x);
      BagPush(Filter(init, f), x);
      BagPush(Filter(init, Not(f)), x);
    }
  }

  /** Removing entries that a second filter would not pass does not change what it passes. */
  lemma {:induction false} FilterTwice(pool: seq<Info>, f: Info -> bool, g: Info -> bool)
    requires forall x :: g(x) ==> !f(x)
    ensures Filter(Filter(pool, Not(f)), g) == Filter(pool, g)
  {
    if pool != [] {
      var init, x := pool[..|pool| - 1], pool[|pool| - 1];
      FilterTwice(init, f, g);
      FilterPush(init, x, g);
      FilterPush(init, x, Not(f));
      FilterPush(Filter(init, Not(f)), x, g);
      assert pool == init + [x];
    }
  }

  lemma FilterParts(a: seq<Info>, x: Info, b: seq<Info>, f: Info -> bool)
    ensures Bag(Filter((a + [x]) + b, f)) == Bag(Filter(a + b, f)) + if f(x) then multiset{x.conn} else multiset{}
  {
    hide Bag, Filter;
    FilterConcat(a + [x], b, f);
    FilterConcat(a, b, f);
    FilterPush(a, x, f);
    BagConcat(Filter(a + [x], f), Filter(b, f));
    BagConcat(Filter(a, f), Filter(b, f));
    BagPush(Filter(a, f), x);
  }

  /** The connections passed by a filter, with one entry taken apart from the others. */
  lemma FilterAround(pool: seq<Info>, k: nat, f: Info -> bool)
    requires k < |pool|
    ensures Bag(Filter(pool, f))
            == Bag(Filter(Without(pool, k), f)) + if f(pool[k]) then multiset{pool[k].conn} else multiset{}
  {
    hide Bag, Filter, Without;
    SplitAround(pool, k);
    FilterParts(pool[..k], pool[k], pool[k + 1..], f);
  }

  lemma SplitAround(pool: seq<Info>, k: nat)
    requires k < |pool|
    ensures pool == (pool[..k] + [pool[k]]) + pool[k + 1..] && Without(pool, k) == pool[..k] + pool[k + 1..]
  {
  }

  lemma BagAround(pool: seq<Info>, k: nat)
    requires k < |pool|
    ensures Bag(pool) == Bag(Without(pool, k)) + multiset{pool[k].conn}
  {
    hide Bag;
    var a, x, b := pool[..k], pool[k], pool[k + 1..];
    assert pool == (a + [x]) + b;
    BagConcat(a + [x], b);
    BagPush(a, x);
    BagConcat(a, b);
  }

  /** One entry replaced by another for the same connection: who is in use changes, who is in the
      pool does not. */
  lemma UpdateEntry(pool: seq<Info>, k: nat, y: Info)
    requires k < |pool| && y.conn == pool[k].conn
    ensures Bag(pool[k := y]) == Bag(pool)
    ensures Bag(Filter(pool[k := y], InUse())) + (if pool[k].inUse then multiset{y.conn} else multiset{})
            == Bag(Filter(pool, InUse())) + (if y.inUse then multiset{y.conn} else multiset{})
  {
    hide Bag, Filter;
    var q := pool[k := y];
    assert Without(q, k) == Without(pool, k);
    BagAround(pool, k);
    BagAround(q, k);
    FilterAround(pool, k, InUse());
    FilterAround(q, k, InUse());
  }

  // ----- every step keeps the invariant -----

  lemma BagMember(pool: seq<Info>, k: nat)
    requires k < |pool|
    ensures pool[k].conn in Bag(pool)
  {
    assert Conns(pool)[k] in Conns(pool);
  }

  lemma BagIndex(pool: seq<Info>, c: nat) returns (k: nat)
    requires c in Bag(pool)
    ensures k < |pool| && pool[k].conn == c
  {
    assert c in Conns(pool);
    k :| k < |pool| && Conns(pool)[k] == c;
  }

  /** A connection is never both in an idle and in an in-use entry. */
  lemma IdleIsNotHeld(w: World, k: nat)
    requires Inv(w) && k < |w.pool| && !w.pool[k].inUse
    ensures w.pool[k].conn !in w.held
  {
    hide Bag, Filter;
    var c := w.pool[k].conn;
    FilterPartition(w.pool, InUse());
    FilterAround(w.pool, k, Not(InUse()));
    assert multiset(w.created)[c] <= 1;
    assert Bag(w.pool)[c] <= 1;
  }

  /** A held connection's first entry is in use. */
  lemma HeldIndex(w: World, c: nat)
    requires Inv(w) && c in w.held
    ensures var k := IndexOf(w.pool, c); k < |w.pool| && w.pool[k].inUse
  {
    FilterMembers(w.pool, InUse());
    var j := BagIndex(Filter(w.pool, InUse()), c);
    var x := Filter(w.pool, InUse())[j];
    assert x in w.pool;
    var k := IndexOf(w.pool, c);
    if !w.pool[k].inUse {
      IdleIsNotHeld(w, k);
    }
  }

  lemma GrabKeepsInv(w: World, now: int, maxIdle: nat, newConn: nat, conn: nat, v: World)
    requires Inv(w) && Step(w, Grab(now, maxIdle, newConn, conn), v)
    ensures Inv(v) && conn !in w.held
  {
    hide Bag, Filter;
    var gone, kept := Filter(w.pool, TooOld(now - maxIdle)), Filter(w.pool, Not(TooOld(now - maxIdle)));
    FilterPartition(w.pool, TooOld(now - maxIdle));
    FilterTwice(w.pool, TooOld(now - maxIdle), InUse());
    var w1 := w.(pool := kept, destroyed := v.destroyed);
    assert Accounted(w1) by { BagConns(gone); }
    assert Inv(w1);
    if AnyIdle(kept) {
      var k: nat :| IsFirstMax(kept, k) && !kept[k].inUse
                    && v.pool == kept[k := kept[k].(inUse := true)] && conn == kept[k].conn;
      UpdateEntry(kept, k, kept[k].(inUse := true));
      IdleIsNotHeld(w1, k);
      AddToSet(w.held, conn);
    } else {
      var x := Info(newConn, now, true);
      BagPush(kept, x);
      FilterPush(kept, x, InUse());
      BagPush(Filter(kept, InUse()), x);
      FilterPartition(kept, InUse());
      assert newConn !in multiset(w.created) && newConn !in Bag(kept);
      assert newConn !in multiset(w.held);
      AddToSet(w.held, newConn);
      AddToSet(w.created, newConn);
    }
  }

  lemma AddToSet(s: set<nat>, c: nat)
    requires c !in s
    ensures multiset(s + {c}) == multiset(s) + multiset{c}
  {
  }

  lemma Cancel(a: multiset<nat>, b: multiset<nat>, c: nat)
    requires a + multiset{c} == b + multiset{c}
    ensures a == b
  {
    forall x ensures a[x] == b[x] {
      assert (a + multiset{c})[x] == (b + multiset{c})[x];
    }
  }

  lemma BagConns(pool: seq<Info>)
    ensures Bag(pool) == multiset(Conns(pool))
  {
  }

  lemma ReleaseKeepsInv(w: World, pc: nat, now: int, v: World)
    requires Inv(w) && Step(w, Release(pc, now), v)
    ensures Inv(v)
  {
    hide Bag, Filter;
    HeldIndex(w, pc);
    UpdateEntry(w.pool, IndexOf(w.pool, pc), Info(pc, now, false));
    AddToSet(v.held, pc);
    assert v.held + {pc} == w.held;
    Cancel(Bag(Filter(v.pool, InUse())), multiset(v.held), pc);
  }

  lemma RemoveKeepsInv(w: World, pc: nat, v: World)
    requires Inv(w) && Step(w, Remove(pc), v)
    ensures Inv(v)
  {
    hide Bag, Filter;
    HeldIndex(w, pc);
    BagAround(w.pool, IndexOf(w.pool, pc));
    FilterAround(w.pool, IndexOf(w.pool, pc), InUse());
    AddToSet(v.held, pc);
    assert v.held + {pc} == w.held;
    Cancel(Bag(Filter(v.pool, InUse())), multiset(v.held), pc);
  }

  lemma ClearKeepsInv(w: World, all: bool, v: World)
    requires Inv(w) && Step(w, Clear(all), v)
    ensures Inv(v)
  {
    hide Bag, Filter;
    FilterPartition(w.pool, Idle(all));
    BagConns(Filter(w.pool, Idle(all)));
    if all {
      NoneKept(w.pool);
      assert Bag([]) == multiset{} by { BagOfNone(); }
      FilterOfNone(InUse());
    } else {
      FilterTwice(w.pool, Idle(false), InUse());
    }
  }

  lemma {:induction false} NoneKept(pool: seq<Info>)
    ensures Filter(pool, Not(Idle(true))) == []
  {
    if pool != [] {
      NoneKept(pool[..|pool| - 1]);
    }
  }

  lemma BagOfNone()
    ensures Bag([]) == multiset{}
  {
  }

  lemma FilterOfNone(f: Info -> bool)
    ensures Filter([], f) == []
  {
  }

  lemma StepKeepsInv(w: World, op: Op, v: World)
    requires Inv(w) && Step(w, op, v)
    ensures Inv(v)
  {
    hide Inv;
    match op
    case Grab(now, maxIdle, newConn, conn) => GrabKeepsInv(w, now, maxIdle, newConn, conn, v);
    case Release(pc, now) => ReleaseKeepsInv(w, pc, now, v);
    case Remove(pc) => RemoveKeepsInv(w, pc, v);
    case Clear(all) => ClearKeepsInv(w, all, v);
  }

  // ----- main results -----

  /** A run from the empty pool: one world more than operations. */
  ghost predicate IsRun(ws: seq<World>, ops: seq<Op>)
  {
    && |ws| == |ops| + 1 && ws[0] == Start
    && forall i :: 0 <= i < |ops| ==> Step(ws[i], ops[i], ws[i + 1])
  }

  lemma {:induction false} RunKeepsInv(ws: seq<World>, ops: seq<Op>, i: nat)
    requires IsRun(ws, ops) && i <= |ops|
    ensures Inv(ws[i])
  {
    hide Inv;
    if i == 0 {
      StartInv();
    } else {
      RunKeepsInv(ws, ops, i - 1);
      assert Step(ws[i - 1], ops[i - 1], ws[i - 1 + 1]);
      StepKeepsInv(ws[i - 1], ops[i - 1], ws[i]);
    }
  }

  lemma StartInv()
    ensures Inv(Start)
  {
  }

  predicate HasInUse(pool: seq<Info>, c: nat)
  {
    exists k :: 0 <= k < |pool| && pool[k].conn == c && pool[k].inUse
  }

  /** In every world of a run: no connection has two entries, the in-use entries are the outstanding
      grabs, and the connections created are those in the pool and those destroyed, so that created
      minus destroyed is the pool's size. */
  lemma PoolIsExact(ws: seq<World>, ops: seq<Op>, i: nat)
    requires IsRun(ws, ops) && i <= |ops|
    ensures var w := ws[i];
            && (forall j, k :: 0 <= j < k < |w.pool| ==> w.pool[j].conn != w.pool[k].conn)
            && (forall c :: c in w.held <==> HasInUse(w.pool, c))
            && |w.created| - |w.destroyed| == |w.pool|
  {
    RunKeepsInv(ws, ops, i);
    var w := ws[i];
    forall j, k | 0 <= j < k < |w.pool| ensures w.pool[j].conn != w.pool[k].conn {
      DistinctEntries(w, j, k);
    }
    forall c ensures c in w.held <==> HasInUse(w.pool, c) {
      if c in w.held {
        HeldIndex(w, c);
        assert w.pool[IndexOf(w.pool, c)].conn == c;
      }
      if k :| 0 <= k < |w.pool| && w.pool[k].conn == c && w.pool[k].inUse {
        FilterAround(w.pool, k, InUse());
        assert c in Bag(Filter(w.pool, InUse()));
      }
    }
    assert |multiset(w.created)| == |multiset(w.destroyed)| + |Bag(w.pool)|;
  }

  lemma DistinctEntries(w: World, j: nat, k: nat)
    requires Accounted(w) && j < k < |w.pool|
    ensures w.pool[j].conn != w.pool[k].conn
  {
    hide Bag;
    var c := w.pool[k].conn;
    BagAround(w.pool, k);
    assert Without(w.pool, k)[j] == w.pool[j];
    BagMember(Without(w.pool, k), j);
    assert multiset(w.created)[c] <= 1;
  }

  /** `grab` never hands out a connection that a caller still holds. */
  lemma GrabIsExclusive(ws: seq<World>, ops: seq<Op>, i: nat)
    requires IsRun(ws, ops) && i < |ops| && ops[i].Grab?
    ensures ops[i].conn !in ws[i].held
  {
    RunKeepsInv(ws, ops, i);
    var op := ops[i];
    GrabKeepsInv(ws[i], op.now, op.maxIdle, op.newConn, op.conn, ws[i + 1]);
  }

  /** A connection that a caller holds is destroyed by `remove` of that connection and by `clear(true)`,
      and by nothing else. */
  lemma HeldIsDestroyedIff(ws: seq<World>, ops: seq<Op>, i: nat, c: nat)
    requires IsRun(ws, ops) && i < |ops| && c in ws[i].held
    ensures c in ws[i + 1].destroyed <==> ops[i] == Remove(c) || ops[i] == Clear(true)
  {
    hide Filter;
    var w, v := ws[i], ws[i + 1];
    assert Step(w, ops[i], v);
    RunKeepsInv(ws, ops, i);
    RunKeepsInv(ws, ops, i + 1);
    if ops[i].Release? && ops[i].pc == c {
      assert v.destroyed == w.destroyed;
      NotDestroyed(w, c);
    } else if ops[i] == Clear(true) {
      ClearedIsDestroyed(w, v, c);
    } else if ops[i] != Remove(c) {
      assert c in v.held;
      NotDestroyed(v, c);
    }
  }

  lemma ClearedIsDestroyed(w: World, v: World, c: nat)
    requires Inv(w) && Inv(v) && c in w.held && v.created == w.created && v.pool == Filter(w.pool, Not(Idle(true)))
    ensures c in v.destroyed
  {
    hide Bag, Filter;
    NoneKept(w.pool);
    BagOfNone();
    FilterPartition(w.pool, InUse());
    assert multiset(w.held)[c] == 1 && multiset(w.created)[c] >= 1;
    assert multiset(v.destroyed)[c] >= 1;
  }

  lemma NotDestroyed(w: World, c: nat)
    requires Inv(w) && c in w.held
    ensures c !in w.destroyed
  {
    hide Bag, Filter;
    FilterPartition(w.pool, InUse());
    assert multiset(w.held)[c] == 1 && multiset(w.created)[c] <= 1;
    assert Bag(w.pool)[c] >= 1;
    assert multiset(w.destroyed)[c] == 0;
  }
}
