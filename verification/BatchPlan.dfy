/** How `insertfrom` and `replacefrom` cut a range of rows into statements under an insert policy:
    the statement text, the three policies, and the bounds each policy gives. */
module BatchPlan {
  import opened Sequences

  const U32: int := 0x1_0000_0000
  const I31: int := 0x8000_0000

  /** A row, by what it renders to: table name, field list and value list. */
  datatype Row = Row(table: string, fields: string, values: string)

  function Header(verb: string, r: Row): string
  {
    verb + " INTO `" + r.table + "` (" + r.fields + ") VALUES ("
  }

  /** The values of a row that is not the first of its statement. */
  function More(r: Row): (s: string)
    ensures |s| == |r.values| + 3
  {
    ",(" + r.values + ")"
  }

  /** The text in the query buffer after these rows. */
  function Render(verb: string, rows: seq<Row>): string
  {
    if rows == [] then ""
    else if |rows| == 1 then Header(verb, rows[0]) + rows[0].values + ")"
    else Render(verb, rows[..|rows| - 1]) + More(rows[|rows| - 1])
  }

  /** The cast to a 32-bit int. */
  function ToInt(n: nat): int { (n + I31) % U32 - I31 }

  // ----- insertpolicy.h -----

  /** The state of a policy object. `Custom` is any policy of the user's own: its answers may
      depend on how often it was asked before. */
  datatype Policy =
    | RowCount(cur: nat, max: nat)
    | SizeThreshold(limit: int)
    | MaxPacket(limit: int)
    | Custom(asked: nat, answer: (nat, int, Row) -> bool)

  /** `can_add`: the new state and the answer. */
  function CanAdd(p: Policy, size: int, r: Row): (Policy, bool)
  {
    match p
    case RowCount(cur, max) =>
      var c := (cur + 1) % U32;
      if c > max then (RowCount(0, max), false) else (RowCount(c, max), true)
    case SizeThreshold(limit) => (p, size < limit)
    case MaxPacket(limit) =>
      (p, size < limit && limit - size >= ToInt(|More(r)|))
    case Custom(n, answer) => (Custom(n + 1, answer), answer(n, size, r))
  }

  // ----- the split -----

  /** The statements, as groups of rows, and whether every row found its place. */
  datatype Plan = Plan(batches: seq<seq<Row>>, complete: bool)

  function Flush(cur: seq<Row>): seq<seq<Row>>
  {
    if cur == [] then [] else [cur]
  }

  /** The groups that the loop forms from `rows` when `cur` is in the buffer. */
  function MakePlan(verb: string, p: Policy, cur: seq<Row>, rows: seq<Row>): Plan
    decreases |rows|
  {
    if rows == [] then Plan(Flush(cur), true)
    else
      var (p1, yes) := CanAdd(p, ToInt(|Render(verb, cur)|), rows[0]);
      if yes then MakePlan(verb, p1, cur + [rows[0]], rows[1..])
      else
        var (p2, again) := CanAdd(p1, 0, rows[0]);
        if again then
          var rest := MakePlan(verb, p2, [rows[0]], rows[1..]);
          Plan(Flush(cur) + rest.batches, rest.complete)
        else Plan(Flush(cur), false)
  }

  lemma FlattenFlush(cur: seq<Row>, rest: seq<seq<Row>>)
    ensures Flatten(Flush(cur) + rest) == cur + Flatten(rest)
  {
    if cur == [] {
      assert Flush(cur) + rest == rest;
    } else {
      assert (Flush(cur) + rest)[1..] == rest;
    }
  }

  /** Each row once and in order: the statements' rows, one after the other, are the input; or, if
      the policy refused a row outright, the input up to that row. */
  lemma {:induction false} PlanCoversRows(verb: string, p: Policy, cur: seq<Row>, rows: seq<Row>)
    ensures var plan := MakePlan(verb, p, cur, rows);
            && (forall b :: b in plan.batches ==> b != [])
            && (plan.complete ==> Flatten(plan.batches) == cur + rows)
            && (!plan.complete ==> Flatten(plan.batches) < cur + rows)
    decreases |rows|
  {
    hide CanAdd, Render, ToInt;
    if rows == [] {
      FlattenFlush(cur, []);
      assert Flush(cur) + [] == Flush(cur);
    } else {
      var (p1, yes) := CanAdd(p, ToInt(|Render(verb, cur)|), rows[0]);
      if yes {
        PlanCoversRows(verb, p1, cur + [rows[0]], rows[1..]);
        assert cur + [rows[0]] + rows[1..] == cur + rows;
      } else {
        var (p2, again) := CanAdd(p1, 0, rows[0]);
        if again {
          PlanCoversRows(verb, p2, [rows[0]], rows[1..]);
          var rest := MakePlan(verb, p2, [rows[0]], rows[1..]);
          FlattenFlush(cur, rest.batches);
          assert [rows[0]] + rows[1..] == rows;
        } else {
          FlattenFlush(cur, []);
          assert Flush(cur) + [] == Flush(cur);
        }
      }
    }
  }

  // ----- bounds: row count -----

  /** Every batch but the last has exactly `max` rows, the last at most that many. */
  ghost predicate ExactBatches(batches: seq<seq<Row>>, max: nat)
  {
    && (forall i :: 0 <= i < |batches| - 1 ==> |batches[i]| == max)
    && (batches != [] ==> |batches[|batches| - 1]| <= max)
  }

  lemma RowCountAnswers(cur: nat, max: nat, size: int, r: Row)
    requires cur <= max < U32 - 1
    ensures CanAdd(RowCount(cur, max), size, r)
            == if cur < max then (RowCount(cur + 1, max), true) else (RowCount(0, max), false)
  {
  }

  lemma ExactCons(cur: seq<Row>, rest: seq<seq<Row>>, max: nat)
    requires |cur| == max && ExactBatches(rest, max)
    ensures ExactBatches([cur] + rest, max)
  {
  }

  /** With a fresh row-count policy every statement but the last has exactly `max` rows. */
  lemma {:induction false} RowCountIsExact(verb: string, max: nat, cur: seq<Row>, rows: seq<Row>)
    requires |cur| <= max < U32 - 1
    ensures var plan := MakePlan(verb, RowCount(|cur|, max), cur, rows);
            ExactBatches(plan.batches, max) && (plan.complete <==> 0 < max || rows == [])
    decreases |rows|
  {
    hide CanAdd, Render, ToInt;
    if rows != [] {
      RowCountAnswers(|cur|, max, ToInt(|Render(verb, cur)|), rows[0]);
      RowCountAnswers(0, max, 0, rows[0]);
      if |cur| < max {
        RowCountIsExact(verb, max, cur + [rows[0]], rows[1..]);
      } else if 0 < max {
        RowCountIsExact(verb, max, [rows[0]], rows[1..]);
        ExactCons(cur, MakePlan(verb, RowCount(1, max), [rows[0]], rows[1..]).batches, max);
      }
    }
  }

  /** A row-count policy that was used before never exceeds the limit either: it counts rows of the
      earlier statement too, so that only its first statement may fall short. */
  lemma {:induction false} RowCountNeverExceeds(verb: string, n: nat, max: nat, cur: seq<Row>, rows: seq<Row>)
    requires |cur| <= n <= max < U32 - 1
    ensures var plan := MakePlan(verb, RowCount(n, max), cur, rows);
            && (forall b :: b in plan.batches ==> |b| <= max)
            && (forall i :: 1 <= i < |plan.batches| - 1 ==> |plan.batches[i]| == max)
            && (plan.complete <==> 0 < max || rows == [])
    decreases |rows|
  {
    hide CanAdd, Render, ToInt;
    if rows != [] {
      RowCountAnswers(n, max, ToInt(|Render(verb, cur)|), rows[0]);
      RowCountAnswers(0, max, 0, rows[0]);
      if n < max {
        RowCountNeverExceeds(verb, n + 1, max, cur + [rows[0]], rows[1..]);
      } else if 0 < max {
        RowCountIsExact(verb, max, [rows[0]], rows[1..]);
      }
    }
  }

  /** At the largest limit the counter wraps before it can pass it: no row is ever refused, and all
      rows go into one statement. */
  lemma {:induction false} LargestRowCountNeverRefuses(verb: string, n: nat, cur: seq<Row>, rows: seq<Row>)
    requires n < U32
    ensures MakePlan(verb, RowCount(n, U32 - 1), cur, rows) == Plan(Flush(cur + rows), true)
    decreases |rows|
  {
    hide Render, ToInt;
    if rows == [] {
      assert cur + rows == cur;
    } else {
      LargestRowCountNeverRefuses(verb, (n + 1) % U32, cur + [rows[0]], rows[1..]);
      assert cur + [rows[0]] + rows[1..] == cur + rows;
    }
  }

  lemma SmallBatchesSmallPlan(batches: seq<seq<Row>>, max: nat, rows: seq<Row>)
    requires batches == Flush(rows)
    ensures ExactBatches(batches, max) <==> |rows| <= max
  {
  }

  /** So the promise of a fresh row-count policy holds for every limit but the largest, and for that
      one as long as there are no more rows than it allows. */
  lemma RowCountExactIff(verb: string, max: nat, rows: seq<Row>)
    requires max < U32
    ensures ExactBatches(MakePlan(verb, RowCount(0, max), [], rows).batches, max) <==> max < U32 - 1 || |rows| <= max
  {
    hide MakePlan, ExactBatches;
    if max < U32 - 1 {
      RowCountIsExact(verb, max, [], rows);
    } else {
      LargestRowCountNeverRefuses(verb, 0, [], rows);
      assert [] + rows == rows;
      SmallBatchesSmallPlan(Flush(rows), max, rows);
    }
  }

  ghost predicate NoneLonger(batches: seq<seq<Row>>, max: nat)
  {
    forall b :: b in batches ==> |b| <= max
  }

  lemma FlushedLength(rows: seq<Row>, max: nat)
    ensures NoneLonger(Flush(rows), max) <==> |rows| <= max
  {
    if rows != [] {
      assert rows in Flush(rows);
    }
  }

  /** A policy that was used before never exceeds its limit, under the same exact condition; and unless
      the limit is zero it refuses no row. */
  lemma RowCountReusedIff(verb: string, n: nat, max: nat, rows: seq<Row>)
    requires n <= max < U32
    ensures var plan := MakePlan(verb, RowCount(n, max), [], rows);
            && (NoneLonger(plan.batches, max) <==> max < U32 - 1 || |rows| <= max)
            && (plan.complete <==> 0 < max || rows == [])
  {
    hide MakePlan;
    if max < U32 - 1 {
      RowCountNeverExceeds(verb, n, max, [], rows);
    } else {
      LargestRowCountNeverRefuses(verb, n, [], rows);
      assert [] + rows == rows;
      FlushedLength(rows, max);
    }
  }

  // ----- bounds: size threshold and maximum packet -----

  /** The casts to int do not wrap: one row with its header, on top of the limit, stays below
      2^31. */
  ghost predicate FitsInt(verb: string, rows: seq<Row>, limit: int)
  {
    forall r :: r in rows ==> (if limit < 0 then 0 else limit) + |Header(verb, r)| + |r.values| + 3 < I31
  }

  lemma ToIntSmall(n: nat)
    requires n < I31
    ensures ToInt(n) == n
  {
  }

  lemma RenderAdd(verb: string, cur: seq<Row>, r: Row)
    ensures Render(verb, cur + [r]) ==
            if cur == [] then Header(verb, r) + r.values + ")" else Render(verb, cur) + More(r)
  {
    assert (cur + [r])[..|cur|] == cur;
  }

  /** All a statement's text but its last row. */
  function BeforeLast(verb: string, b: seq<Row>): string
    requires b != []
  {
    Render(verb, b[..|b| - 1])
  }

  ghost predicate UnderThreshold(verb: string, limit: int, b: seq<Row>)
  {
    |b| >= 2 ==> |BeforeLast(verb, b)| < limit
  }

  lemma RenderEmpty(verb: string)
    ensures Render(verb, []) == ""
  {
  }

  /** Row lists that hold rows of `all` only. */
  ghost predicate DrawnFrom(rows: seq<Row>, all: set<Row>)
  {
    forall r :: r in rows ==> r in all
  }

  lemma DrawnRest(rows: seq<Row>, all: set<Row>)
    requires rows != [] && DrawnFrom(rows, all)
    ensures rows[0] in all && DrawnFrom(rows[1..], all) && DrawnFrom([rows[0]], all)
  {
  }

  lemma DrawnPush(rows: seq<Row>, r: Row, all: set<Row>)
    requires DrawnFrom(rows, all) && r in all
    ensures DrawnFrom(rows + [r], all)
  {
  }

  /** The text grows with every row. */
  lemma {:induction false} RenderGrows(verb: string, rows: seq<Row>, k: nat)
    requires k <= |rows|
    ensures |Render(verb, rows[..k])| <= |Render(verb, rows)|
    decreases |rows| - k
  {
    hide Render;
    if k < |rows| {
      assert rows[..k + 1] == rows[..k] + [rows[k]];
      RenderAdd(verb, rows[..k], rows[k]);
      RenderEmpty(verb);
      RenderGrows(verb, rows, k + 1);
    } else {
      assert rows[..k] == rows;
    }
  }

  /** Is the row at `k` let in, and the policy as before, when the rows in front of it are in the
      buffer? */
  ghost predicate LetIn(verb: string, p: Policy, rows: seq<Row>, k: nat)
    requires k < |rows|
  {
    CanAdd(p, ToInt(|Render(verb, rows[..k])|), rows[k]) == (p, true)
  }

  /** Rows that are let in one after another are one statement. */
  lemma {:induction false} AllLetIn(verb: string, p: Policy, cur: seq<Row>, rows: seq<Row>)
    requires forall k :: |cur| <= k < |cur + rows| ==> LetIn(verb, p, cur + rows, k)
    ensures MakePlan(verb, p, cur, rows) == Plan(Flush(cur + rows), true)
    decreases |rows|
  {
    hide CanAdd, Render, ToInt;
    if rows == [] {
      assert cur + rows == cur;
    } else {
      assert LetIn(verb, p, cur + rows, |cur|);
      assert (cur + rows)[..|cur|] == cur && (cur + rows)[|cur|] == rows[0];
      assert cur + [rows[0]] + rows[1..] == cur + rows;
      AllLetIn(verb, p, cur + [rows[0]], rows[1..]);
    }
  }

  // ----- size threshold -----

  /** Below the limit before its last row, by the size that the cast gives. */
  ghost predicate SeenBelow(verb: string, limit: int, b: seq<Row>)
  {
    |b| >= 2 ==> ToInt(|BeforeLast(verb, b)|) < limit
  }

  /** Under a size threshold a statement is below the limit before its last row is added, by the size
      that the policy is told. */
  lemma {:induction false} ThresholdBound(verb: string, limit: int, cur: seq<Row>, rows: seq<Row>)
    requires SeenBelow(verb, limit, cur) && (cur != [] ==> 0 < limit)
    ensures var plan := MakePlan(verb, SizeThreshold(limit), cur, rows);
            && (forall b :: b in plan.batches ==> SeenBelow(verb, limit, b))
            && (plan.complete <==> 0 < limit || rows == [])
    decreases |rows|
  {
    hide Render, ToInt;
    if rows != [] {
      var r := rows[0];
      RenderEmpty(verb);
      ToIntSmall(0);
      assert (cur + [r])[..|cur|] == cur;
      if ToInt(|Render(verb, cur)|) < limit {
        ThresholdBound(verb, limit, cur + [r], rows[1..]);
      } else if 0 < limit {
        ThresholdBound(verb, limit, [r], rows[1..]);
      }
    }
  }

  /** The branch that fails: a statement at the limit or above it whose size the cast makes small. */
  ghost predicate Overlooked(verb: string, limit: int, cur: seq<Row>)
  {
    cur != [] && limit <= |Render(verb, cur)| && ToInt(|Render(verb, cur)|) < limit
  }

  ghost predicate NoneOverlooked(verb: string, limit: int, all: set<Row>)
  {
    forall cur :: DrawnFrom(cur, all) && UnderThreshold(verb, limit, cur) ==> !Overlooked(verb, limit, cur)
  }

  /** Every statement for these rows is below the limit before its last row. */
  ghost predicate AllUnderThreshold(verb: string, limit: int, rows: seq<Row>)
  {
    forall b :: b in MakePlan(verb, SizeThreshold(limit), [], rows).batches ==> UnderThreshold(verb, limit, b)
  }

  lemma {:induction false} ThresholdBatches(verb: string, limit: int, all: set<Row>, cur: seq<Row>, rows: seq<Row>)
    requires limit <= 0 || NoneOverlooked(verb, limit, all)
    requires DrawnFrom(cur, all) && DrawnFrom(rows, all)
    requires UnderThreshold(verb, limit, cur) && (cur != [] ==> 0 < limit)
    ensures forall b :: b in MakePlan(verb, SizeThreshold(limit), cur, rows).batches ==> UnderThreshold(verb, limit, b)
    decreases |rows|
  {
    hide Render, ToInt, DrawnFrom;
    if rows != [] {
      var r := rows[0];
      RenderEmpty(verb);
      ToIntSmall(0);
      DrawnRest(rows, all);
      DrawnPush(cur, r, all);
      assert (cur + [r])[..|cur|] == cur;
      if ToInt(|Render(verb, cur)|) < limit {
        assert cur != [] ==> !Overlooked(verb, limit, cur);
        ThresholdBatches(verb, limit, all, cur + [r], rows[1..]);
      } else if 0 < limit {
        ThresholdBatches(verb, limit, all, [r], rows[1..]);
      }
    }
  }

  /** Such a statement is built, and takes a further row. */
  lemma OverlookedExceeds(verb: string, limit: int, all: set<Row>, cur: seq<Row>)
    requires 0 < limit < I31 && DrawnFrom(cur, all)
    requires UnderThreshold(verb, limit, cur) && Overlooked(verb, limit, cur)
    ensures DrawnFrom(cur + [cur[0]], all) && !AllUnderThreshold(verb, limit, cur + [cur[0]])
  {
    hide Render, ToInt, MakePlan;
    var rows, p := cur + [cur[0]], SizeThreshold(limit);
    RenderEmpty(verb);
    ToIntSmall(0);
    forall k | 0 <= k < |rows| ensures LetIn(verb, p, rows, k) {
      if k < |cur| {
        var init := cur[..|cur| - 1];
        assert rows[..k] == init[..k];
        RenderGrows(verb, init, k);
        assert |Render(verb, rows[..k])| < limit;
        ToIntSmall(|Render(verb, rows[..k])|);
      } else {
        assert rows[..k] == cur;
      }
    }
    assert [] + rows == rows;
    AllLetIn(verb, p, [], rows);
    assert rows in MakePlan(verb, p, [], rows).batches;
    assert rows[..|rows| - 1] == cur;
  }

  lemma NothingBelowZero(verb: string, limit: int, rows: seq<Row>)
    requires limit <= 0
    ensures AllUnderThreshold(verb, limit, rows)
  {
    RenderEmpty(verb);
  }

  /** The size threshold, exactly: whatever rows of `all` are inserted, every statement is below the
      limit before its last row, if and only if the limit lets nothing in or no statement within the
      promise is overlooked by the cast. */
  lemma ThresholdIff(verb: string, limit: int, all: set<Row>)
    requires limit < I31
    ensures (forall rows :: DrawnFrom(rows, all) ==> AllUnderThreshold(verb, limit, rows))
            <==> limit <= 0 || NoneOverlooked(verb, limit, all)
  {
    hide AllUnderThreshold, UnderThreshold, Overlooked, DrawnFrom, MakePlan;
    if limit <= 0 {
      forall rows | DrawnFrom(rows, all) ensures AllUnderThreshold(verb, limit, rows) {
        NothingBelowZero(verb, limit, rows);
      }
    } else if NoneOverlooked(verb, limit, all) {
      forall rows | DrawnFrom(rows, all) ensures AllUnderThreshold(verb, limit, rows) {
        UnderFromEmpty(verb, limit, all, rows);
      }
    } else {
      var cur :| DrawnFrom(cur, all) && UnderThreshold(verb, limit, cur) && Overlooked(verb, limit, cur);
      assert cur != [] by { OverlookedHasRows(verb, limit, cur); }
      OverlookedExceeds(verb, limit, all, cur);
    }
  }

  lemma OverlookedHasRows(verb: string, limit: int, cur: seq<Row>)
    requires Overlooked(verb, limit, cur)
    ensures cur != []
  {
  }

  lemma UnderFromEmpty(verb: string, limit: int, all: set<Row>, rows: seq<Row>)
    requires NoneOverlooked(verb, limit, all) && DrawnFrom(rows, all)
    ensures AllUnderThreshold(verb, limit, rows)
  {
    hide MakePlan;
    assert DrawnFrom([], all) && UnderThreshold(verb, limit, []);
    ThresholdBatches(verb, limit, all, [], rows);
  }

  lemma SmallRowsAreSeen(verb: string, limit: int, cur: seq<Row>)
    requires FitsInt(verb, cur, limit) && UnderThreshold(verb, limit, cur)
    ensures !Overlooked(verb, limit, cur)
  {
    hide Render, ToInt, Header;
    if cur != [] {
      var init, r := cur[..|cur| - 1], cur[|cur| - 1];
      assert cur == init + [r] && r in cur;
      RenderAdd(verb, init, r);
      ToIntSmall(|Render(verb, cur)|);
    }
  }

  /** In particular if no size, one row and its header on top of the limit included, reaches 2^31. */
  lemma ThresholdWhenSmall(verb: string, limit: int, rows: seq<Row>)
    requires FitsInt(verb, rows, limit)
    ensures AllUnderThreshold(verb, limit, rows)
  {
    hide Overlooked, UnderThreshold, MakePlan, Header, AllUnderThreshold;
    var all := set r | r in rows;
    forall cur | DrawnFrom(cur, all) && UnderThreshold(verb, limit, cur) ensures !Overlooked(verb, limit, cur) {
      SmallRowsAreSeen(verb, limit, cur);
    }
    UnderFromEmpty(verb, limit, all, rows);
  }

  // ----- maximum packet -----

  ghost predicate FitsPacket(verb: string, limit: int, b: seq<Row>)
  {
    if |b| >= 2 then |Render(verb, b)| <= limit
    else forall r :: r in b ==> |More(r)| <= limit
  }

  /** If no size reaches 2^31, then under the maximum-packet policy every statement of two or more rows
      fits the limit; of a statement with a single row only the row does, since the header is not
      counted. Every row finds a place exactly when each row fits by itself. */
  lemma {:induction false} PacketWhenSmall(verb: string, limit: int, cur: seq<Row>, rows: seq<Row>)
    requires FitsInt(verb, rows, limit) && FitsPacket(verb, limit, cur)
    requires |Render(verb, cur)| < I31
    ensures var plan := MakePlan(verb, MaxPacket(limit), cur, rows);
            && (forall b :: b in plan.batches ==> FitsPacket(verb, limit, b))
            && (plan.complete <==> forall r :: r in rows ==> |More(r)| <= limit)
    decreases |rows|
  {
    hide Render, ToInt, Header, More;
    if rows != [] {
      var r := rows[0];
      ToIntSmall(|Render(verb, cur)|);
      ToIntSmall(|More(r)|);
      RenderAdd(verb, cur, r);
      RenderAdd(verb, [], r);
      RenderEmpty(verb);
      assert r in rows && forall x :: x in rows[1..] ==> x in rows;
      assert [] + [r] == [r];
      if |Render(verb, cur)| < limit && limit - |Render(verb, cur)| >= |More(r)| {
        PacketWhenSmall(verb, limit, cur + [r], rows[1..]);
      } else if |More(r)| <= limit {
        PacketWhenSmall(verb, limit, [r], rows[1..]);
      }
    }
  }

  /** Let in by the sizes that the policy is told: the last row of a longer statement behind the
      others, a single row into an empty buffer. */
  ghost predicate SeenToFit(verb: string, limit: int, b: seq<Row>)
  {
    if |b| >= 2 then
      var size := ToInt(|BeforeLast(verb, b)|);
      size < limit && ToInt(|More(b[|b| - 1])|) <= limit - size
    else
      forall r :: r in b ==> 0 < limit && ToInt(|More(r)|) <= limit
  }

  /** Under the maximum-packet policy every statement was let in by the sizes told. Every row finds a
      place if each would alone. */
  lemma {:induction false} PacketBound(verb: string, limit: int, cur: seq<Row>, rows: seq<Row>)
    requires SeenToFit(verb, limit, cur)
    ensures var plan := MakePlan(verb, MaxPacket(limit), cur, rows);
            && (forall b :: b in plan.batches ==> SeenToFit(verb, limit, b))
            && ((forall r :: r in rows ==> SeenToFit(verb, limit, [r])) ==> plan.complete)
    decreases |rows|
  {
    hide Render, ToInt, More;
    if rows != [] {
      var r := rows[0];
      RenderEmpty(verb);
      ToIntSmall(0);
      assert r in rows && r in [r] && forall x :: x in rows[1..] ==> x in rows;
      assert (cur + [r])[..|cur|] == cur && [] + [r] == [r];
      var size := ToInt(|Render(verb, cur)|);
      if size < limit && limit - size >= ToInt(|More(r)|) {
        PacketBound(verb, limit, cur + [r], rows[1..]);
      } else if 0 < limit && ToInt(|More(r)|) <= limit {
        PacketBound(verb, limit, [r], rows[1..]);
      }
    }
  }

  /** Every statement for these rows is within the limit, header included. */
  ghost predicate WithinPacket(verb: string, limit: int, rows: seq<Row>)
  {
    forall b :: b in MakePlan(verb, MaxPacket(limit), [], rows).batches ==> |Render(verb, b)| <= limit
  }

  /** A row that the policy lets into an empty buffer fits together with its header. */
  predicate HeaderFits(verb: string, limit: int, r: Row)
  {
    0 < limit && ToInt(|More(r)|) <= limit ==> |Header(verb, r)| + |r.values| + 1 <= limit
  }

  lemma RoomBehind(verb: string, limit: int, size: nat, r: Row)
    requires HeaderFits(verb, limit, r) && size < limit < I31 && ToInt(|More(r)|) <= limit - size
    ensures size + |More(r)| <= limit && |Header(verb, r)| + |r.values| + 1 <= limit
  {
    hide ToInt, Header;
    assert |Header(verb, r)| >= 2 by { HeaderIsLong(verb, r); }
    ToIntSmall(|More(r)|);
  }

  lemma HeaderIsLong(verb: string, r: Row)
    ensures |Header(verb, r)| >= 2
  {
  }

  lemma {:induction false} PacketBatches(verb: string, limit: int, cur: seq<Row>, rows: seq<Row>)
    requires limit < I31 && (forall r :: r in rows ==> HeaderFits(verb, limit, r))
    requires cur != [] ==> |Render(verb, cur)| <= limit
    ensures forall b :: b in MakePlan(verb, MaxPacket(limit), cur, rows).batches ==> |Render(verb, b)| <= limit
    decreases |rows|
  {
    hide Render, ToInt, More, Header, HeaderFits;
    if rows != [] {
      var r := rows[0];
      RenderEmpty(verb);
      ToIntSmall(0);
      ToIntSmall(|Render(verb, cur)|);
      RenderAdd(verb, cur, r);
      RenderAdd(verb, [], r);
      assert r in rows && forall x :: x in rows[1..] ==> x in rows;
      assert [] + [r] == [r];
      if |Render(verb, cur)| < limit && limit - |Render(verb, cur)| >= ToInt(|More(r)|) {
        RoomBehind(verb, limit, |Render(verb, cur)|, r);
        PacketBatches(verb, limit, cur + [r], rows[1..]);
      } else if 0 < limit && ToInt(|More(r)|) <= limit {
        RoomBehind(verb, limit, 0, r);
        PacketBatches(verb, limit, [r], rows[1..]);
      }
    }
  }

  lemma LongHeaderExceeds(verb: string, limit: int, r: Row)
    requires !HeaderFits(verb, limit, r)
    ensures !WithinPacket(verb, limit, [r])
  {
    hide More, Header;
    RenderEmpty(verb);
    ToIntSmall(0);
    assert [] + [r] == [r] && [r][1..] == [];
    assert MakePlan(verb, MaxPacket(limit), [r], []) == Plan([[r]], true);
    assert MakePlan(verb, MaxPacket(limit), [], [r]).batches == [[r]];
    assert [r] in [[r]];
  }

  /** The packet limit, exactly: whatever rows of `all` are inserted, every statement is within the
      limit if and only if each row that the policy lets in fits together with its header. */
  lemma PacketIff(verb: string, limit: int, all: set<Row>)
    requires limit < I31
    ensures (forall rows :: DrawnFrom(rows, all) ==> WithinPacket(verb, limit, rows))
            <==> forall r :: r in all ==> HeaderFits(verb, limit, r)
  {
    hide HeaderFits, MakePlan;
    if forall r :: r in all ==> HeaderFits(verb, limit, r) {
      forall rows | DrawnFrom(rows, all) ensures WithinPacket(verb, limit, rows) {
        PacketBatches(verb, limit, [], rows);
      }
    } else {
      var r :| r in all && !HeaderFits(verb, limit, r);
      LongHeaderExceeds(verb, limit, r);
      assert DrawnFrom([r], all);
    }
  }

  // ----- maximum packet: statements of two or more rows -----

  /** Every statement of two or more rows is within the limit. */
  ghost predicate RowsWithinPacket(verb: string, limit: int, rows: seq<Row>)
  {
    forall b :: b in MakePlan(verb, MaxPacket(limit), [], rows).batches && |b| >= 2 ==> |Render(verb, b)| <= limit
  }

  /** A statement within that promise: a single row that is let in, or rows that fit. */
  ghost predicate Promised(verb: string, limit: int, b: seq<Row>)
  {
    && 0 < limit
    && if |b| >= 2 then |Render(verb, b)| <= limit else forall r :: r in b ==> ToInt(|More(r)|) <= limit
  }

  /** The branch that fails: the casts let a row in for which there is no room. */
  ghost predicate Misjudged(verb: string, limit: int, cur: seq<Row>, r: Row)
  {
    var size := ToInt(|Render(verb, cur)|);
    cur != [] && size < limit && ToInt(|More(r)|) <= limit - size && |Render(verb, cur)| + |More(r)| > limit
  }

  ghost predicate NoneMisjudged(verb: string, limit: int, all: set<Row>)
  {
    forall cur, r :: r in all && DrawnFrom(cur, all) && Promised(verb, limit, cur) ==> !Misjudged(verb, limit, cur, r)
  }

  lemma {:induction false} PromisedBatches(verb: string, limit: int, all: set<Row>, cur: seq<Row>, rows: seq<Row>)
    requires NoneMisjudged(verb, limit, all) && DrawnFrom(cur, all) && DrawnFrom(rows, all)
    requires cur != [] ==> Promised(verb, limit, cur)
    ensures forall b :: b in MakePlan(verb, MaxPacket(limit), cur, rows).batches ==> b != [] && Promised(verb, limit, b)
    decreases |rows|
  {
    hide Render, ToInt, More, DrawnFrom;
    if rows != [] {
      var r := rows[0];
      RenderEmpty(verb);
      ToIntSmall(0);
      RenderAdd(verb, cur, r);
      DrawnRest(rows, all);
      DrawnPush(cur, r, all);
      assert [] + [r] == [r];
      var size := ToInt(|Render(verb, cur)|);
      if size < limit && limit - size >= ToInt(|More(r)|) {
        assert cur != [] ==> !Misjudged(verb, limit, cur, r);
        PromisedBatches(verb, limit, all, cur + [r], rows[1..]);
      } else if 0 < limit && ToInt(|More(r)|) <= limit {
        PromisedBatches(verb, limit, all, [r], rows[1..]);
      }
    }
  }

  /** A row that fits behind others by the true sizes is let in. */
  lemma FittingIsLetIn(verb: string, limit: int, rows: seq<Row>, k: nat)
    requires k < |rows| && 0 < limit < I31 && |Render(verb, rows[..k + 1])| <= limit
    ensures LetIn(verb, MaxPacket(limit), rows, k)
  {
    hide Render, Header, ToInt;
    assert rows[..k + 1] == rows[..k] + [rows[k]];
    RenderAdd(verb, rows[..k], rows[k]);
    RenderEmpty(verb);
    HeaderIsLong(verb, rows[k]);
    ToIntSmall(|Render(verb, rows[..k])|);
    ToIntSmall(|More(rows[k])|);
  }

  /** Such a statement is built, and takes the row. */
  lemma MisjudgedExceeds(verb: string, limit: int, cur: seq<Row>, r: Row)
    requires limit < I31 && Promised(verb, limit, cur) && Misjudged(verb, limit, cur, r)
    ensures !RowsWithinPacket(verb, limit, cur + [r])
  {
    hide Render, ToInt, MakePlan, More;
    var rows, p := cur + [r], MaxPacket(limit);
    RenderEmpty(verb);
    ToIntSmall(0);
    forall k | 0 <= k < |rows| ensures LetIn(verb, p, rows, k) {
      if k == |cur| {
        assert rows[..k] == cur;
      } else if |cur| == 1 {
        assert rows[..0] == [] && rows[0] in cur;
      } else {
        assert rows[..k + 1] == cur[..k + 1];
        RenderGrows(verb, cur, k + 1);
        FittingIsLetIn(verb, limit, rows, k);
      }
    }
    assert [] + rows == rows;
    AllLetIn(verb, p, [], rows);
    assert rows in MakePlan(verb, p, [], rows).batches;
    RenderAdd(verb, cur, r);
  }

  /** Statements of two or more rows, exactly: whatever rows of `all` are inserted, they are within the
      limit if and only if the casts misjudge no row behind a statement within the promise. */
  lemma PacketRowsIff(verb: string, limit: int, all: set<Row>)
    requires limit < I31
    ensures (forall rows :: DrawnFrom(rows, all) ==> RowsWithinPacket(verb, limit, rows))
            <==> NoneMisjudged(verb, limit, all)
  {
    hide MakePlan, Misjudged, Render, DrawnFrom, ToInt, More;
    if NoneMisjudged(verb, limit, all) {
      forall rows | DrawnFrom(rows, all) ensures RowsWithinPacket(verb, limit, rows) {
        assert DrawnFrom([], all) by { DrawnNone(all); }
        PromisedBatches(verb, limit, all, [], rows);
      }
    } else {
      var cur, r :| r in all && DrawnFrom(cur, all) && Promised(verb, limit, cur) && Misjudged(verb, limit, cur, r);
      DrawnPush(cur, r, all);
      MisjudgedExceeds(verb, limit, cur, r);
    }
  }

  lemma DrawnNone(all: set<Row>)
    ensures DrawnFrom([], all)
  {
  }

  /** A single-row statement that passes the packet policy and exceeds its limit. */
  lemma PacketCanBeExceeded() returns (r: Row)
    ensures MakePlan("INSERT", MaxPacket(8), [], [r]) == Plan([[r]], true)
    ensures |Render("INSERT", [r])| > 8
  {
    r := Row("t", "f", "1");
    assert MakePlan("INSERT", MaxPacket(8), [r], []) == Plan([[r]], true);
    assert [] + [r] == [r] && [r][1..] == [];
  }

  /** Beyond 2^31 the threshold policy sees a negative size and lets a further row in. */
  lemma ThresholdCanBeExceeded() returns (r: Row)
    ensures MakePlan("INSERT", SizeThreshold(8), [], [r, r]).batches == [[r, r]]
    ensures !UnderThreshold("INSERT", 8, [r, r])
  {
    r := Row("t", "f", seq(I31, _ => '1'));
    var p := SizeThreshold(8);
    assert |Render("INSERT", [r])| == |Header("INSERT", r)| + I31 + 1;
    assert |Header("INSERT", r)| < 100;
    assert [r, r][..1] == [r] && [r, r][1..] == [r] && [r][1..] == [];
    assert [] + [r] == [r] && [r] + [r] == [r, r];
    assert MakePlan("INSERT", p, [r, r], []) == Plan([[r, r]], true);
    assert MakePlan("INSERT", p, [r], [r]) == Plan([[r, r]], true);
  }

  // ----- the text of a statement -----

  /** The value lists of the rows, one after the other, as they stand between the first opening and the
      last closing parenthesis. */
  function ValueLists(rows: seq<Row>): string
    requires rows != []
  {
    if |rows| == 1 then rows[0].values else rows[0].values + ("),(" + ValueLists(rows[1..]))
  }

  lemma {:induction false} ValueListsPush(rows: seq<Row>, r: Row)
    requires rows != []
    ensures ValueLists(rows + [r]) == ValueLists(rows) + ("),(" + r.values)
    decreases |rows|
  {
    if |rows| == 1 {
      assert (rows + [r])[1..] == [r];
    } else {
      assert (rows + [r])[1..] == rows[1..] + [r];
      ValueListsPush(rows[1..], r);
    }
  }

  lemma {:induction false} RenderIs(verb: string, rows: seq<Row>)
    requires rows != []
    ensures Render(verb, rows) == Header(verb, rows[0]) + (ValueLists(rows) + ")")
    decreases |rows|
  {
    hide Header;
    if |rows| > 1 {
      var init, r := rows[..|rows| - 1], rows[|rows| - 1];
      assert rows == init + [r];
      RenderIs(verb, init);
      ValueListsPush(init, r);
      assert ")" + More(r) == "),(" + r.values + ")";
      assert Header(verb, rows[0]) + (ValueLists(init) + ")") + More(r)
          == Header(verb, rows[0]) + (ValueLists(init) + (")" + More(r)));
    }
  }

  /** `part` stands in the text at `at`. */
  predicate Reads(text: string, at: nat, part: string)
  {
    at + |part| <= |text| && text[at..at + |part|] == part
  }

  lemma HeaderReads(verb: string, r: Row, rest: string)
    ensures var s := Header(verb, r) + rest;
            var table := |verb| + 7;
            var fields := table + |r.table| + 3;
            var end := fields + |r.fields| + 10;
            && Reads(s, 0, verb) && Reads(s, |verb|, " INTO `") && Reads(s, table, r.table)
            && Reads(s, table + |r.table|, "` (") && Reads(s, fields, r.fields)
            && Reads(s, fields + |r.fields|, ") VALUES (") && |Header(verb, r)| == end && Reads(s, end, rest)
  {
    var s := Header(verb, r) + rest;
    assert s == verb + (" INTO `" + (r.table + ("` (" + (r.fields + (") VALUES (" + rest)))));
  }

  /** What a statement says: the verb, the table and the field list of its first row, and the value lists
      of all its rows in order, each in its parentheses, and nothing else. */
  lemma StatementReads(verb: string, rows: seq<Row>)
    requires rows != []
    ensures var s, r := Render(verb, rows), rows[0];
            var table := |verb| + 7;
            var fields := table + |r.table| + 3;
            var values := fields + |r.fields| + 10;
            && Reads(s, 0, verb) && Reads(s, |verb|, " INTO `") && Reads(s, table, r.table)
            && Reads(s, table + |r.table|, "` (") && Reads(s, fields, r.fields)
            && Reads(s, fields + |r.fields|, ") VALUES (") && Reads(s, values, ValueLists(rows) + ")")
            && |s| == values + |ValueLists(rows)| + 1
  {
    hide Header, Reads;
    RenderIs(verb, rows);
    HeaderReads(verb, rows[0], ValueLists(rows) + ")");
  }

}
