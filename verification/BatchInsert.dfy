/** `insertfrom` and `replacefrom` over a transaction: what is sent to the server, and what of it
    is there in the end. */
module BatchInsert {
  import opened BatchPlan
  import opened Sequences

  // ----- the server -----

  datatype Statement = Start | Commit | Rollback | Rows(sql: string)

  /** A statement that was sent, and whether the server executed it. */
  datatype Event = Event(stmt: Statement, ok: bool)

  /** What the server holds: statements in force, statements of the open transaction. */
  datatype Server = Server(durable: seq<string>, open: bool, pending: seq<string>)

  /** Starting a transaction ends the one before; outside a transaction a statement takes effect at
      once; a statement that fails has no effect. */
  function Effect(s: Server, e: Event): Server
  {
    if !e.ok then s
    else match e.stmt
      case Start => Server(s.durable + s.pending, true, [])
      case Commit => Server(s.durable + s.pending, false, [])
      case Rollback => Server(s.durable, false, [])
      case Rows(sql) => if s.open then s.(pending := s.pending + [sql]) else s.(durable := s.durable + [sql])
  }

  function Replay(s: Server, log: seq<Event>): Server
    decreases |log|
  {
    if log == [] then s else Effect(Replay(s, log[..|log| - 1]), log[|log| - 1])
  }

  /** Each event carries the server's answer, given what was sent before. */
  ghost predicate Answered(answer: (seq<Event>, Statement) -> bool, before: seq<Event>, e: seq<Event>)
  {
    forall i :: 0 <= i < |e| ==> e[i].ok == answer(before + e[..i], e[i].stmt)
  }

  /** What was sent since `before`, and answered. */
  ghost predicate AnsweredSince(answer: (seq<Event>, Statement) -> bool, before: seq<Event>, log: seq<Event>)
  {
    before <= log && Answered(answer, before, log[|before|..])
  }

  lemma AnsweredNone(answer: (seq<Event>, Statement) -> bool, log: seq<Event>)
    ensures AnsweredSince(answer, log, log)
  {
  }

  lemma AnsweredPush(answer: (seq<Event>, Statement) -> bool, before: seq<Event>, log: seq<Event>, stmt: Statement)
    requires AnsweredSince(answer, before, log)
    ensures AnsweredSince(answer, before, log + [Event(stmt, answer(log, stmt))])
  {
    var x := Event(stmt, answer(log, stmt));
    var e := log[|before|..];
    assert (log + [x])[|before|..] == e + [x];
    assert before + e == log;
    forall i | 0 <= i < |e + [x]| ensures (e + [x])[i].ok == answer(before + (e + [x])[..i], (e + [x])[i].stmt) {
      if i < |e| {
        assert (e + [x])[..i] == e[..i];
      } else {
        assert (e + [x])[..i] == e;
      }
    }
  }

  lemma AnsweredOne(answer: (seq<Event>, Statement) -> bool, log: seq<Event>, stmt: Statement)
    ensures AnsweredSince(answer, log, log + [Event(stmt, answer(log, stmt))])
  {
    hide AnsweredSince;
    AnsweredNone(answer, log);
    AnsweredPush(answer, log, log, stmt);
  }

  lemma AnsweredOnwards(answer: (seq<Event>, Statement) -> bool, a: seq<Event>, b: seq<Event>, c: seq<Event>)
    requires AnsweredSince(answer, a, b) && AnsweredSince(answer, b, c)
    ensures AnsweredSince(answer, a, c)
  {
    var e, f, g := b[|a|..], c[|b|..], c[|a|..];
    assert g == e + f && a + e == b;
    forall i | 0 <= i < |g| ensures g[i].ok == answer(a + g[..i], g[i].stmt) {
      if i < |e| {
        assert g[..i] == e[..i];
      } else {
        assert g[..i] == e + f[..i - |e|];
        assert a + (e + f[..i - |e|]) == b + f[..i - |e|];
        assert f[i - |e|].ok == answer(b + f[..i - |e|], f[i - |e|].stmt);
      }
    }
  }

  /** The driver: it sends statements and reports whether they worked. `answer` stands for the
      server's answers, whatever they are. */
  class Driver {
    var log: seq<Event>
    const answer: (seq<Event>, Statement) -> bool

    constructor (answer: (seq<Event>, Statement) -> bool)
      ensures log == [] && this.answer == answer
    {
      log := [];
      this.answer := answer;
    }

    method Execute(stmt: Statement) returns (ok: bool)
      modifies this
      ensures log == old(log) + [Event(stmt, ok)] && ok == answer(old(log), stmt)
    {
      ok := answer(log, stmt);
      log := log + [Event(stmt, ok)];
    }
  }

  /** A call that returns normally, or leaves by an exception. */
  datatype Exit<T> = Returned(value: T) | Threw

  /** A connection: its driver, and whether the queries it makes throw. */
  class Connection {
    const driver: Driver
    const throws: bool

    constructor (driver: Driver, throws: bool)
      ensures this.driver == driver && this.throws == throws
    {
      this.driver := driver;
      this.throws := throws;
    }

    /** `query(...).execute()`. */
    method Run(stmt: Statement) returns (r: Exit<bool>)
      modifies driver
      ensures driver.log == old(driver.log) + [Event(stmt, driver.answer(old(driver.log), stmt))]
      ensures r == if !driver.answer(old(driver.log), stmt) && throws then Threw
                   else Returned(driver.answer(old(driver.log), stmt))
    {
      var ok := driver.Execute(stmt);
      if !ok && throws {
        return Threw;
      }
      return Returned(ok);
    }
  }

  // ----- transaction.cpp -----

  class Transaction {
    const conn: Connection
    var finished: bool

    /** transaction.cpp, lines 40-53, the part of the constructor that cannot throw; `Begin` is the rest. */
    constructor (conn: Connection)
      ensures this.conn == conn && finished
    {
      this.conn := conn;
      finished := true;
    }

    method Begin() returns (r: Exit<bool>)
      requires finished
      modifies this, conn.driver
      ensures conn.driver.log == old(conn.driver.log) + [Event(Start, conn.driver.answer(old(conn.driver.log), Start))]
      ensures r.Threw? <==> conn.throws && !conn.driver.answer(old(conn.driver.log), Start)
      ensures finished == r.Threw?
      ensures AnsweredSince(conn.driver.answer, old(conn.driver.log), conn.driver.log)
    {
      hide AnsweredSince;
      AnsweredOne(conn.driver.answer, conn.driver.log, Start);
      r := conn.Run(Start);
      if r.Threw? {
        return;
      }
      finished := false;
    }

    /** transaction.cpp, lines 104-119: `finished` is set even when the statement failed, unless that threw. */
    method End(stmt: Statement) returns (r: Exit<bool>)
      requires stmt.Commit? || stmt.Rollback?
      modifies this, conn.driver
      ensures conn.driver.log == old(conn.driver.log) + [Event(stmt, conn.driver.answer(old(conn.driver.log), stmt))]
      ensures r.Threw? <==> conn.throws && !conn.driver.answer(old(conn.driver.log), stmt)
      ensures finished == if r.Threw? then old(finished) else true
      ensures AnsweredSince(conn.driver.answer, old(conn.driver.log), conn.driver.log)
    {
      hide AnsweredSince;
      AnsweredOne(conn.driver.answer, conn.driver.log, stmt);
      r := conn.Run(stmt);
      if r.Threw? {
        return;
      }
      finished := true;
    }

    /** transaction.cpp, lines 89-99: an unfinished transaction is rolled back, and an exception is swallowed. */
    method Destroy()
      modifies this, conn.driver
      ensures conn.driver.log == old(conn.driver.log) +
              if old(finished) then [] else [Event(Rollback, conn.driver.answer(old(conn.driver.log), Rollback))]
      ensures AnsweredSince(conn.driver.answer, old(conn.driver.log), conn.driver.log)
    {
      hide AnsweredSince;
      AnsweredNone(conn.driver.answer, conn.driver.log);
      if !finished {
        var r := End(Rollback);
      }
    }
  }

  // ----- query.h -----

  /** The policy object. */
  class InsertPolicy {
    var p: Policy

    constructor (p: Policy)
      ensures this.p == p
    {
      this.p := p;
    }

    method Ask(size: int, r: Row) returns (yes: bool)
      modifies this
      ensures (p, yes) == CanAdd(old(p), size, r)
    {
      match p
      case RowCount(cur, max) =>
        var c := (cur + 1) % U32;
        if c > max {
          p, yes := RowCount(0, max), false;
        } else {
          p, yes := RowCount(c, max), true;
        }
      case SizeThreshold(limit) => yes := size < limit;
      case MaxPacket(limit) =>
        if size < limit {
          yes := limit - size >= ToInt(|More(r)|);
        } else {
          yes := false;
        }
      case Custom(n, answer) =>
        yes := answer(n, size, r);
        p := Custom(n + 1, answer);
    }
  }

  /** The successful statements for the first groups of a plan. */
  function Sent(verb: string, batches: seq<seq<Row>>): (e: seq<Event>)
    ensures |e| == |batches|
  {
    if batches == [] then []
    else Sent(verb, batches[..|batches| - 1]) + [Event(Rows(Render(verb, batches[|batches| - 1])), true)]
  }

  /** What the row loop sent: the first `k` groups of the plan executed, and the next one, if there
      is one and it was tried, failed. */
  ghost predicate LoopLog(e: seq<Event>, verb: string, plan: Plan, k: nat)
  {
    && k <= |plan.batches|
    && e == Sent(verb, plan.batches[..k]) +
            if k < |plan.batches| then [Event(Rows(Render(verb, plan.batches[k])), false)] else []
  }

  class Query {
    const conn: Connection
    const throws: bool
    var buffer: string
    var copacetic: bool

    constructor (conn: Connection, throws: bool)
      ensures this.conn == conn && this.throws == throws && buffer == "" && copacetic
    {
      this.conn := conn;
      this.throws := throws;
      buffer := "";
      copacetic := true;
    }

    /** The parameterless `exec` for a query that is not a template: on success the buffer is
        reset. */
    method Exec() returns (r: Exit<bool>)
      modifies this, conn.driver
      ensures var ok := conn.driver.answer(old(conn.driver.log), Rows(old(buffer)));
              && conn.driver.log == old(conn.driver.log) + [Event(Rows(old(buffer)), ok)]
              && copacetic == ok && buffer == (if ok then "" else old(buffer))
              && r == if ok then Returned(true) else if throws then Threw else Returned(false)
    {
      copacetic := conn.driver.Execute(Rows(buffer));
      if copacetic {
        buffer := "";
        return Returned(true);
      } else if throws {
        return Threw;
      } else {
        return Returned(false);
      }
    }

    /** query.h, lines 1082-1094: the row joins the statement in the buffer. */
    method AddRow(verb: string, row: Row, empty: bool, ghost cur: seq<Row>)
      requires buffer == Render(verb, cur) && (empty <==> cur == [])
      modifies this`buffer
      ensures buffer == Render(verb, cur + [row])
    {
      RenderAdd(verb, cur, row);
      if empty {
        buffer := buffer + Header(verb, row);
      } else {
        buffer := buffer + ",(";
      }
      buffer := buffer + row.values + ")";
    }

    /** query.h, lines 1082-1125, one turn of the loop. `Returned(false)` stands for `success = false` and
        the `break`. `failed` says that the statement in the buffer was tried and failed. */
    method OfferRow(verb: string, row: Row, policy: InsertPolicy, empty: bool, ghost cur: seq<Row>)
      returns (r: Exit<bool>, ghost failed: bool)
      requires buffer == Render(verb, cur) && (empty <==> cur == [])
      modifies this, policy, conn.driver
      ensures r == Returned(true) || r == if throws then Threw else Returned(false)
      ensures failed ==> r != Returned(true) && cur != []
      ensures AnsweredSince(conn.driver.answer, old(conn.driver.log), conn.driver.log)
      ensures var (p1, yes) := CanAdd(old(policy.p), ToInt(|Render(verb, cur)|), row);
              var (p2, again) := CanAdd(p1, 0, row);
              var log, was := conn.driver.log, old(conn.driver.log);
              && (failed ==> !yes && log == was + [Event(Rows(Render(verb, cur)), false)])
              && (!failed && yes ==> policy.p == p1 && log == was && buffer == Render(verb, cur + [row]))
              && (!failed && !yes ==> log == was + Sent(verb, Flush(cur)))
              && (!failed && !yes && again ==> policy.p == p2 && buffer == Render(verb, [row]))
              && (!failed ==> (r == Returned(true) <==> yes || again))
    {
      hide CanAdd, Render, ToInt, Header, More, Sent, AnsweredSince;
      RenderEmpty(verb);
      SentNone(verb);
      SentMore(verb, [], cur);
      ToIntSmall(0);
      AnsweredNone(conn.driver.answer, conn.driver.log);
      AnsweredOne(conn.driver.answer, conn.driver.log, Rows(buffer));
      failed := false;
      var yes := policy.Ask(ToInt(|buffer|), row);
      if yes {
        AddRow(verb, row, empty, cur);
        return Returned(true), failed;
      }
      if !empty {
        var e := Exec();
        if e != Returned(true) {
          return e, true;
        }
        assert [] + [cur] == Flush(cur);
      }
      var again := policy.Ask(ToInt(|buffer|), row);
      if again {
        AddRow(verb, row, true, []);
        assert [] + [row] == [row];
        return Returned(true), failed;
      } else if throws {
        return Threw, failed;
      } else {
        return Returned(false), failed;
      }
    }

    /** query.h, lines 1081-1131 and 1169-1219, for a non-empty range: the row loop and the last statement.
        `Returned(s)` carries the local flag `success`; `k` counts the statements that worked. */
    method RowLoop(verb: string, rows: seq<Row>, policy: InsertPolicy) returns (r: Exit<bool>, ghost k: nat)
      requires buffer == ""
      modifies this, policy, conn.driver
      ensures var plan := MakePlan(verb, old(policy.p), [], rows);
              && old(conn.driver.log) <= conn.driver.log
              && LoopLog(conn.driver.log[|old(conn.driver.log)|..], verb, plan, k)
              && (r == Returned(true) <==> k == |plan.batches| && plan.complete)
              && (r.Threw? <==> throws && r != Returned(true))
      ensures AnsweredSince(conn.driver.answer, old(conn.driver.log), conn.driver.log)
    {
      hide CanAdd, Render, ToInt, Sent, MakePlan, LoopLog, AnsweredSince;
      ghost var before := conn.driver.log;
      ghost var plan := MakePlan(verb, policy.p, [], rows);
      ghost var cur: seq<Row>, done: seq<seq<Row>> := [], [];
      RenderEmpty(verb);
      SentNone(verb);
      AnsweredNone(conn.driver.answer, before);
      var empty := true;
      var it := 0;
      while it < |rows|
        invariant it <= |rows| && buffer == Render(verb, cur) && (empty <==> cur == [])
        invariant var rest := MakePlan(verb, policy.p, cur, rows[it..]);
                  plan == Plan(done + rest.batches, rest.complete)
        invariant conn.driver.log == before + Sent(verb, done)
        invariant AnsweredSince(conn.driver.answer, before, conn.driver.log)
      {
        ghost var here := conn.driver.log;
        PlanStep(verb, policy.p, cur, rows, it, done);
        ghost var failed, yes := false, CanAdd(policy.p, ToInt(|Render(verb, cur)|), rows[it]).1;
        r, failed := OfferRow(verb, rows[it], policy, empty, cur);
        AnsweredOnwards(conn.driver.answer, before, here, conn.driver.log);
        SentFlush(verb, done, cur);
        if r != Returned(true) {
          k := |done| + if failed then 0 else |Flush(cur)|;
          LoopStops(verb, plan, done, cur, k, failed);
          LogSuffix(before, Sent(verb, done), conn.driver.log[|before + Sent(verb, done)|..], conn.driver.log);
          return;
        }
        empty := false;
        done, cur := if yes then done else done + Flush(cur), if yes then cur + [rows[it]] else [rows[it]];
        it := it + 1;
      }
      PlanEnd(verb, policy.p, cur, rows[it..]);
      SentFlush(verb, done, cur);
      r := Returned(true);
      if !empty {
        AnsweredPush(conn.driver.answer, before, conn.driver.log, Rows(buffer));
        r := Exec();
        SentMore(verb, [], cur);
        assert [] + [cur] == Flush(cur);
      }
      k := |done| + if r == Returned(true) then |Flush(cur)| else 0;
      LoopStops(verb, plan, done, cur, k, r != Returned(true));
      ghost var last := if r == Returned(true) then Sent(verb, Flush(cur)) else [Event(Rows(Render(verb, cur)), false)];
      SentNone(verb);
      LogSuffix(before, Sent(verb, done), last, conn.driver.log);
    }

    /** `insertfrom` and `replacefrom`, query.h, lines 1068-1141 and 1156-1229. With `NoTransaction` as the
        access controller nothing but the row statements is sent. The result carries `success`;
        `run` says what was sent. */
    method InsertFrom(verb: string, rows: seq<Row>, policy: InsertPolicy, transactional: bool)
      returns (r: Exit<bool>, ghost run: Run)
      modifies this, policy, conn.driver
      ensures conn.driver.log == old(conn.driver.log) + run.start + run.rows + run.closing
      ensures IsRun(run, r, verb, MakePlan(verb, old(policy.p), [], rows), rows != [], transactional,
                    throws, conn.throws)
      ensures AnsweredSince(conn.driver.answer, old(conn.driver.log), conn.driver.log)
    {
      hide MakePlan, LoopLog, AnsweredSince, IsClosing;
      ghost var log := conn.driver.log;
      ghost var before, answer := log, conn.driver.answer;
      AnsweredNone(answer, before);
      run := Run([], [], [], 0, Returned(true));
      buffer := "";
      if rows == [] {
        return Returned(true), run;
      }
      if !transactional {
        r, run := RunLoop(verb, rows, policy, []);
        return;
      }
      var ac := new Transaction(conn);
      var begun := ac.Begin();
      ghost var start := conn.driver.log[|log|..];
      if begun.Threw? {
        return Threw, Run(start, [], [], 0, Threw);
      }
      log := conn.driver.log;
      r, run := RunLoop(verb, rows, policy, start);
      AnsweredOnwards(answer, before, log, conn.driver.log);
      log := conn.driver.log;
      r := Close(ac, r);
      AnsweredOnwards(answer, before, log, conn.driver.log);
      run := run.(closing := conn.driver.log[|log|..]);
    }

    /** query.h, lines 1133-1141, and the end of the access controller's life: `loop` is how the row loop
        was left. */
    method Close(ac: Transaction, loop: Exit<bool>) returns (r: Exit<bool>)
      requires ac.conn == conn && !ac.finished
      modifies ac, conn.driver
      ensures AnsweredSince(conn.driver.answer, old(conn.driver.log), conn.driver.log)
      ensures old(conn.driver.log) <= conn.driver.log
      ensures IsClosing(conn.driver.log[|old(conn.driver.log)|..], loop, r, conn.throws)
    {
      hide AnsweredSince;
      r := loop;
      if loop.Threw? {
        ac.Destroy();
      } else {
        ghost var before := conn.driver.log;
        var ended := ac.End(if loop.value then Commit else Rollback);
        ghost var mid := conn.driver.log;
        ac.Destroy();
        AnsweredOnwards(conn.driver.answer, before, mid, conn.driver.log);
        if ended.Threw? {
          r := Threw;
        }
      }
    }

    method RunLoop(verb: string, rows: seq<Row>, policy: InsertPolicy, ghost start: seq<Event>)
      returns (r: Exit<bool>, ghost run: Run)
      requires buffer == ""
      modifies this, policy, conn.driver
      ensures conn.driver.log == old(conn.driver.log) + run.rows && run.loop == r
      ensures run == Run(start, run.rows, [], run.k, r)
      ensures LoopRun(run, verb, MakePlan(verb, old(policy.p), [], rows), throws)
      ensures AnsweredSince(conn.driver.answer, old(conn.driver.log), conn.driver.log)
    {
      hide MakePlan, LoopLog, AnsweredSince;
      ghost var was, k := conn.driver.log, 0;
      r, k := RowLoop(verb, rows, policy);
      run := Run(start, conn.driver.log[|was|..], [], k, r);
    }
  }

  /** What one call sent: the start of the transaction, the row statements, of which `k` worked, and
      the end of the transaction; `loop` is how the row loop ended. */
  datatype Run = Run(start: seq<Event>, rows: seq<Event>, closing: seq<Event>, k: nat, loop: Exit<bool>)

  ghost predicate LoopRun(run: Run, verb: string, plan: Plan, throws: bool)
  {
    && LoopLog(run.rows, verb, plan, run.k)
    && (run.loop == Returned(true) <==> run.k == |plan.batches| && plan.complete)
    && (run.loop.Threw? <==> throws && run.loop != Returned(true))
  }

  ghost predicate IsRun(run: Run, r: Exit<bool>, verb: string, plan: Plan, nonempty: bool, transactional: bool,
                        throws: bool, connThrows: bool)
  {
    if !nonempty then
      run == Run([], [], [], 0, Returned(true)) && r == Returned(true)
    else if !transactional then
      run.start == [] && run.closing == [] && LoopRun(run, verb, plan, throws) && r == run.loop
    else
      && |run.start| == 1 && run.start[0].stmt == Start
      && if !run.start[0].ok && connThrows then
           run.rows == [] && run.closing == [] && run.k == 0 && r == Threw && run.loop == Threw
         else
           LoopRun(run, verb, plan, throws) && IsClosing(run.closing, run.loop, r, connThrows)
  }

  /** COMMIT after success, ROLLBACK otherwise; an exception leaves the rollback to the destructor,
      and so does an end that throws. */
  ghost predicate IsClosing(e: seq<Event>, loop: Exit<bool>, r: Exit<bool>, connThrows: bool)
  {
    && e != [] && e[0].stmt == (if loop == Returned(true) then Commit else Rollback)
    && if loop.Threw? || e[0].ok || !connThrows then |e| == 1 && r == loop
       else |e| == 2 && e[1].stmt == Rollback && r == Threw
  }

  lemma LogSuffix(before: seq<Event>, more: seq<Event>, last: seq<Event>, log: seq<Event>)
    requires log == before + more + last
    ensures before <= log && log[|before|..] == more + last
  {
  }

  /** The log when the loop is left with `cur` tried or executed after `done`. */
  lemma LoopStops(verb: string, plan: Plan, done: seq<seq<Row>>, cur: seq<Row>, k: nat, failed: bool)
    requires k == |done| + if failed then 0 else |Flush(cur)|
    requires if failed then cur != [] && |plan.batches| > k && plan.batches[..k + 1] == done + [cur]
             else plan.batches == done + Flush(cur)
    ensures failed ==> LoopLog(Sent(verb, done) + [Event(Rows(Render(verb, cur)), false)], verb, plan, k)
    ensures !failed ==> LoopLog(Sent(verb, done + Flush(cur)), verb, plan, k)
  {
    hide Sent, Render;
    if failed {
      assert plan.batches[..k] == plan.batches[..k + 1][..k] == done;
      assert plan.batches[k] == plan.batches[..k + 1][k] == cur;
    } else {
      assert plan.batches[..k] == done + Flush(cur);
    }
  }

  /** One turn of the loop, with the groups already executed in front. */
  lemma PlanStep(verb: string, p: Policy, cur: seq<Row>, rows: seq<Row>, it: nat, done: seq<seq<Row>>)
    requires it < |rows|
    ensures var (p1, yes) := CanAdd(p, ToInt(|Render(verb, cur)|), rows[it]);
            var (p2, again) := CanAdd(p1, 0, rows[it]);
            var plan := MakePlan(verb, p, cur, rows[it..]);
            var more := MakePlan(verb, p1, cur + [rows[it]], rows[it + 1..]);
            var rest := MakePlan(verb, p2, [rows[it]], rows[it + 1..]);
            && (yes ==> plan == more)
            && (!yes && again ==> plan.complete == rest.complete
                                  && done + plan.batches == (done + Flush(cur)) + rest.batches)
            && (!yes && !again ==> !plan.complete && done + plan.batches == done + Flush(cur))
            && (!yes && cur != [] ==> |plan.batches| >= 1 && plan.batches[0] == cur)
  {
    hide CanAdd, Render, ToInt;
    assert rows[it..][1..] == rows[it + 1..];
  }

  lemma PlanEnd(verb: string, p: Policy, cur: seq<Row>, rows: seq<Row>)
    requires rows == []
    ensures MakePlan(verb, p, cur, rows) == Plan(Flush(cur), true)
  {
  }

  lemma SentFlush(verb: string, done: seq<seq<Row>>, cur: seq<Row>)
    ensures Sent(verb, done + Flush(cur)) == Sent(verb, done) + Sent(verb, Flush(cur))
  {
    hide Sent;
    SentNone(verb);
    if cur == [] {
      assert done + Flush(cur) == done;
    } else {
      SentMore(verb, done, cur);
      SentMore(verb, [], cur);
      assert [] + [cur] == [cur];
    }
  }

  lemma SentNone(verb: string)
    ensures Sent(verb, []) == []
  {
  }

  lemma SentMore(verb: string, done: seq<seq<Row>>, cur: seq<Row>)
    ensures Sent(verb, done + [cur]) == Sent(verb, done) + [Event(Rows(Render(verb, cur)), true)]
  {
    hide Render;
    assert (done + [cur])[..|done|] == done;
  }

  // ----- what the server holds in the end -----

  lemma {:induction false} ReplayConcat(s: Server, x: seq<Event>, y: seq<Event>)
    ensures Replay(s, x + y) == Replay(Replay(s, x), y)
    decreases |y|
  {
    hide Effect;
    if y == [] {
      assert x + y == x;
    } else {
      assert (x + y)[..|x + y| - 1] == x + y[..|y| - 1];
      ReplayConcat(s, x, y[..|y| - 1]);
    }
  }

  lemma ReplayOne(s: Server, e: Event)
    ensures Replay(s, [e]) == Effect(s, e)
  {
    assert [e][..0] == [];
  }

  function Texts(verb: string, batches: seq<seq<Row>>): (t: seq<string>)
    ensures |t| == |batches|
  {
    seq(|batches|, i requires 0 <= i < |batches| => Render(verb, batches[i]))
  }

  /** Row statements add their texts, to the transaction if one is open. */
  lemma {:induction false} ReplaySent(s: Server, verb: string, batches: seq<seq<Row>>)
    ensures Replay(s, Sent(verb, batches)) ==
            if s.open then s.(pending := s.pending + Texts(verb, batches))
            else s.(durable := s.durable + Texts(verb, batches))
    decreases |batches|
  {
    hide Render;
    if batches != [] {
      var n := |batches| - 1;
      var e := Sent(verb, batches);
      ReplaySent(s, verb, batches[..n]);
      assert e[..|e| - 1] == Sent(verb, batches[..n]);
      assert Texts(verb, batches) == Texts(verb, batches[..n]) + [Render(verb, batches[n])];
    } else {
      assert Texts(verb, batches) == [];
    }
  }

  lemma ReplayLoop(s: Server, e: seq<Event>, verb: string, plan: Plan, k: nat)
    requires LoopLog(e, verb, plan, k)
    ensures Replay(s, e) ==
            if s.open then s.(pending := s.pending + Texts(verb, plan.batches)[..k])
            else s.(durable := s.durable + Texts(verb, plan.batches)[..k])
  {
    hide Render, Sent;
    ReplaySent(s, verb, plan.batches[..k]);
    assert Texts(verb, plan.batches[..k]) == Texts(verb, plan.batches)[..k];
    if k < |plan.batches| {
      var last := Event(Rows(Render(verb, plan.batches[k])), false);
      ReplayConcat(s, Sent(verb, plan.batches[..k]), [last]);
      ReplayOne(Replay(s, Sent(verb, plan.batches[..k])), last);
    } else {
      assert Sent(verb, plan.batches[..k]) + [] == Sent(verb, plan.batches[..k]);
    }
  }

  lemma ReplayClosing(s: Server, e: seq<Event>)
    requires 1 <= |e| <= 2
    ensures Replay(s, e) == if |e| == 1 then Effect(s, e[0]) else Effect(Effect(s, e[0]), e[1])
  {
    hide Effect;
    if |e| == 1 {
      assert e == [e[0]];
      ReplayOne(s, e[0]);
    } else {
      assert e == [e[0]] + [e[1]];
      ReplayConcat(s, [e[0]], [e[1]]);
      ReplayOne(s, e[0]);
      ReplayOne(Effect(s, e[0]), e[1]);
    }
  }

  lemma ReplayRun(s: Server, run: Run)
    ensures Replay(s, run.start + run.rows + run.closing)
            == Replay(Replay(Replay(s, run.start), run.rows), run.closing)
  {
    ReplayConcat(s, run.start + run.rows, run.closing);
    ReplayConcat(s, run.start, run.rows);
  }

  /** All or nothing. If the server started the transaction, what is in force afterwards is what was
      in force before with either all the statements of a complete plan, which hold each row once and
      in order, or none: all of them exactly when COMMIT was sent and executed, and then the call
      reports success. In every other case the transaction is rolled back, or is still open because
      the server refused to end it. */
  lemma AllOrNothing(s: Server, run: Run, r: Exit<bool>, verb: string, p: Policy, rows: seq<Row>,
                     throws: bool, connThrows: bool)
    requires IsRun(run, r, verb, MakePlan(verb, p, [], rows), true, true, throws, connThrows) && run.start[0].ok
    ensures var plan := MakePlan(verb, p, [], rows);
            var after := Replay(s, run.start + run.rows + run.closing);
            var base, texts := s.durable + s.pending, Texts(verb, plan.batches);
            var committed := run.closing[0] == Event(Commit, true);
            && (committed ==> after == Server(base + texts, false, []) && r == Returned(true)
                              && plan.complete && Flatten(plan.batches) == rows)
            && (!committed ==> after == Server(base, false, [])
                               || (after == Server(base, true, texts[..run.k])
                                   && forall e :: e in run.closing ==> !e.ok))
            && (r == Returned(true) ==> committed || !connThrows)
  {
    hide Render, Sent, MakePlan, Flatten, Texts, Replay, IsClosing;
    var plan := MakePlan(verb, p, [], rows);
    var texts := Texts(verb, plan.batches);
    PlanCoversRows(verb, p, [], rows);
    assert [] + rows == rows;
    ReplayRun(s, run);
    ReplayToClosing(s, run, verb, plan, throws);
    EndEffect(Server(s.durable + s.pending, true, texts[..run.k]), run.closing, run.loop, r, connThrows);
    assert run.loop == Returned(true) ==> texts[..run.k] == texts;
  }

  /** What the caller is told, and what is tried. The call reports success exactly if every statement of
      a complete plan was executed and no statement about the transaction threw; it throws exactly if the
      loop failed with the query's exceptions on or such a statement threw. A call that sent an end and
      does not report success sent ROLLBACK last; when the end itself threw, as a second attempt. */
  lemma CallAnswersIff(run: Run, r: Exit<bool>, verb: string, plan: Plan, transactional: bool,
                       throws: bool, connThrows: bool)
    requires IsRun(run, r, verb, plan, true, transactional, throws, connThrows)
    ensures var all := plan.complete && run.k == |plan.batches|;
            var ended := !transactional || !connThrows || (run.start[0].ok && run.closing[0].ok);
            && (r == Returned(true) <==> all && ended)
            && (r.Threw? <==> (throws && !all) || !ended)
            && (r != Returned(true) && run.closing != [] ==> run.closing[|run.closing| - 1].stmt == Rollback)
            && (|run.closing| == 2 <==> transactional && run.start[0].ok && !ended && (all || !throws))
  {
    hide LoopLog;
  }

  lemma ReplayToClosing(s: Server, run: Run, verb: string, plan: Plan, throws: bool)
    requires LoopRun(run, verb, plan, throws) && run.start == [Event(Start, true)]
    ensures Replay(Replay(s, run.start), run.rows)
            == Server(s.durable + s.pending, true, Texts(verb, plan.batches)[..run.k])
  {
    hide Render, Sent, Texts;
    var texts := Texts(verb, plan.batches);
    ReplayOne(s, Event(Start, true));
    ReplayLoop(Server(s.durable + s.pending, true, []), run.rows, verb, plan, run.k);
    assert [] + texts[..run.k] == texts[..run.k];
  }

  /** The closing statements on an open transaction. */
  lemma EndEffect(s: Server, e: seq<Event>, loop: Exit<bool>, r: Exit<bool>, connThrows: bool)
    requires s.open && IsClosing(e, loop, r, connThrows)
    ensures var after := Replay(s, e);
            var committed := e[0] == Event(Commit, true);
            && (committed ==> after == Server(s.durable + s.pending, false, []) && loop == r == Returned(true))
            && (!committed ==> after == Server(s.durable, false, []) || (after == s && forall x :: x in e ==> !x.ok))
            && (r == Returned(true) ==> committed || !connThrows)
  {
    ReplayClosing(s, e);
    assert forall x :: x in e ==> x == e[0] || x == e[|e| - 1];
  }

  /** When the server refuses to start the transaction and the connection does not throw, the call
      goes on without one: the statements that work are in force at once, and the rollback takes none
      of them back. The call is all-or-nothing then exactly if no statement worked or all did. */
  lemma StartIgnored(s: Server, run: Run, r: Exit<bool>, verb: string, p: Policy, rows: seq<Row>, throws: bool)
    requires IsRun(run, r, verb, MakePlan(verb, p, [], rows), true, true, throws, false) && !run.start[0].ok
    requires !s.open && s.pending == []
    ensures var plan := MakePlan(verb, p, [], rows);
            var after := Replay(s, run.start + run.rows + run.closing);
            var texts := Texts(verb, plan.batches);
            && after == Server(s.durable + texts[..run.k], false, [])
            && (after.durable == s.durable || (after.durable == s.durable + texts && plan.complete)
                <==> run.k == 0 || run.loop == Returned(true))
  {
    hide Render, Sent, MakePlan, Texts;
    var plan := MakePlan(verb, p, [], rows);
    var texts := Texts(verb, plan.batches);
    ReplayRun(s, run);
    assert run.start == [run.start[0]];
    ReplayOne(s, run.start[0]);
    ReplayLoop(s, run.rows, verb, plan, run.k);
    ReplayClosing(Replay(s, run.rows), run.closing);
    var after := Replay(s, run.start + run.rows + run.closing);
    assert after == Server(s.durable + texts[..run.k], false, []);
    assert |after.durable| == |s.durable| + run.k;
    assert |s.durable + texts| == |s.durable| + |plan.batches|;
    assert run.k == 0 ==> s.durable + texts[..run.k] == s.durable;
    assert run.k == |plan.batches| ==> texts[..run.k] == texts;
  }

  // ----- exactly when a call is all-or-nothing -----

  /** Either nothing of the call is in force afterwards, or all rows of a complete plan are. */
  ghost predicate Atomic(s: Server, run: Run, verb: string, plan: Plan)
  {
    var durable := Replay(s, run.start + run.rows + run.closing).durable;
    durable == s.durable || (plan.complete && durable == s.durable + Texts(verb, plan.batches))
  }

  /** What a caller can check before the call: the connection throws, or the policy needs no more than
      one statement. */
  predicate Safe(plan: Plan, connThrows: bool)
  {
    connThrows || |plan.batches| == 0 || (|plan.batches| == 1 && plan.complete)
  }

  lemma EmptyRangeIsAtomic(s: Server, run: Run, verb: string, plan: Plan)
    requires run.start == [] && run.rows == [] && run.closing == []
    ensures Atomic(s, run, verb, plan)
  {
    assert run.start + run.rows + run.closing == [];
  }

  /** A refused START that throws: nothing else is sent and nothing changes. */
  lemma ThrownStartIsAtomic(s: Server, run: Run, verb: string, plan: Plan)
    requires |run.start| == 1 && !run.start[0].ok && run.rows == [] && run.closing == []
    ensures Replay(s, run.start + run.rows + run.closing) == s && Atomic(s, run, verb, plan)
  {
    assert run.start + run.rows + run.closing == [run.start[0]];
    ReplayOne(s, run.start[0]);
  }

  lemma StartedIsAtomic(s: Server, run: Run, r: Exit<bool>, verb: string, p: Policy, rows: seq<Row>,
                        throws: bool, connThrows: bool)
    requires !s.open && s.pending == [] && run.start != [] && run.start[0].ok
    requires IsRun(run, r, verb, MakePlan(verb, p, [], rows), true, true, throws, connThrows)
    ensures Atomic(s, run, verb, MakePlan(verb, p, [], rows))
  {
    hide MakePlan, IsClosing, LoopRun, Replay, Texts, Flatten;
    AllOrNothing(s, run, r, verb, p, rows, throws, connThrows);
    assert s.durable + s.pending == s.durable;
  }

  lemma IgnoredStartIsAtomic(s: Server, run: Run, r: Exit<bool>, verb: string, p: Policy, rows: seq<Row>, throws: bool)
    requires !s.open && s.pending == [] && run.start != [] && !run.start[0].ok
    requires IsRun(run, r, verb, MakePlan(verb, p, [], rows), true, true, throws, false)
    requires Safe(MakePlan(verb, p, [], rows), false)
    ensures Atomic(s, run, verb, MakePlan(verb, p, [], rows))
  {
    hide MakePlan, IsClosing, LoopLog, Replay, Sent, Render;
    var plan := MakePlan(verb, p, [], rows);
    var texts := Texts(verb, plan.batches);
    StartIgnored(s, run, r, verb, p, rows, throws);
    assert run.k <= |plan.batches| by { LoopCount(run, verb, plan, throws); }
    if run.k == 0 {
      assert s.durable + texts[..run.k] == s.durable;
    } else {
      assert texts[..run.k] == texts;
    }
  }

  lemma LoopCount(run: Run, verb: string, plan: Plan, throws: bool)
    requires LoopRun(run, verb, plan, throws)
    ensures run.k <= |plan.batches|
  {
  }

  lemma SafeIsAtomic(s: Server, run: Run, r: Exit<bool>, verb: string, p: Policy, rows: seq<Row>,
                     throws: bool, connThrows: bool)
    requires !s.open && s.pending == [] && Safe(MakePlan(verb, p, [], rows), connThrows)
    requires IsRun(run, r, verb, MakePlan(verb, p, [], rows), rows != [], true, throws, connThrows)
    ensures Atomic(s, run, verb, MakePlan(verb, p, [], rows))
  {
    hide MakePlan, IsClosing, LoopRun, Replay, Texts, Atomic, Safe;
    var plan := MakePlan(verb, p, [], rows);
    if rows == [] {
      EmptyRangeIsAtomic(s, run, verb, plan);
    } else if run.start[0].ok {
      StartedIsAtomic(s, run, r, verb, p, rows, throws, connThrows);
    } else if connThrows {
      ThrownStartIsAtomic(s, run, verb, plan);
    } else {
      IgnoredStartIsAtomic(s, run, r, verb, p, rows, throws);
    }
  }

  /** START is refused, the first statement works, the next one fails or the policy refuses the row
      after it, and the server agrees to a rollback of nothing. */
  function RefusedRun(verb: string, plan: Plan, throws: bool): Run
    requires plan.batches != []
  {
    var next := if |plan.batches| > 1 then [Event(Rows(Render(verb, plan.batches[1])), false)] else [];
    Run([Event(Start, false)], [Event(Rows(Render(verb, plan.batches[0])), true)] + next, [Event(Rollback, true)], 1,
        if throws then Threw else Returned(false))
  }

  lemma RefusedRunIsRun(verb: string, plan: Plan, throws: bool)
    requires plan.batches != [] && (|plan.batches| > 1 || !plan.complete)
    ensures var run := RefusedRun(verb, plan, throws); IsRun(run, run.loop, verb, plan, true, true, throws, false)
  {
    hide Render;
    var run := RefusedRun(verb, plan, throws);
    assert plan.batches[..1] == [plan.batches[0]];
    assert Sent(verb, plan.batches[..1]) == [Event(Rows(Render(verb, plan.batches[0])), true)] by {
      SentMore(verb, [], plan.batches[0]);
      SentNone(verb);
      assert [] + [plan.batches[0]] == plan.batches[..1];
    }
    assert LoopLog(run.rows, verb, plan, 1);
  }

  /** With exceptions off that run leaves the first statement alone in force. */
  lemma RefusedRunBreaks(verb: string, p: Policy, rows: seq<Row>, throws: bool)
    requires rows != [] && !Safe(MakePlan(verb, p, [], rows), false)
    ensures var plan := MakePlan(verb, p, [], rows);
            var run := RefusedRun(verb, plan, throws);
            && IsRun(run, run.loop, verb, plan, true, true, throws, false)
            && !Atomic(Server([], false, []), run, verb, plan)
  {
    hide MakePlan, IsRun, Replay, Sent, Render;
    var plan := MakePlan(verb, p, [], rows);
    var run, s := RefusedRun(verb, plan, throws), Server([], false, []);
    RefusedRunIsRun(verb, plan, throws);
    StartIgnored(s, run, run.loop, verb, p, rows, throws);
    var texts := Texts(verb, plan.batches);
    assert |s.durable + texts[..1]| == 1 && |s.durable + texts| == |plan.batches|;
  }

  lemma NoRowsNoBatches(verb: string, p: Policy)
    ensures |MakePlan(verb, p, [], []).batches| == 0
  {
  }

  /** A call made outside a transaction, to a server with these answers, and what it sent after
      `before`. */
  ghost predicate IsCall(s: Server, answer: (seq<Event>, Statement) -> bool, before: seq<Event>,
                         run: Run, r: Exit<bool>, verb: string, p: Policy, rows: seq<Row>,
                         throws: bool, connThrows: bool)
  {
    && !s.open && s.pending == []
    && IsRun(run, r, verb, MakePlan(verb, p, [], rows), rows != [], true, throws, connThrows)
    && Answered(answer, before, run.start + run.rows + run.closing)
  }

  /** A server that refuses START and every row statement but one right after it. */
  function Refusing(): (seq<Event>, Statement) -> bool
  {
    (log: seq<Event>, stmt: Statement) => if stmt.Rows? then |log| == 1 else !stmt.Start?
  }

  lemma RefusedRunIsAnswered(verb: string, plan: Plan, throws: bool)
    requires plan.batches != []
    ensures var run := RefusedRun(verb, plan, throws); Answered(Refusing(), [], run.start + run.rows + run.closing)
  {
    hide Render;
    var run := RefusedRun(verb, plan, throws);
    var e := run.start + run.rows + run.closing;
    assert e[0] == Event(Start, false) && e[1].ok && e[1].stmt.Rows?;
    forall i | 0 <= i < |e| ensures e[i].ok == Refusing()([] + e[..i], e[i].stmt) {
      assert |[] + e[..i]| == i;
    }
  }

  /** All-or-nothing, exactly: whatever the server holds and however it answers, every call is atomic
      if and only if the connection throws or one statement is enough. */
  lemma AtomicIff(verb: string, p: Policy, rows: seq<Row>, throws: bool, connThrows: bool)
    ensures var plan := MakePlan(verb, p, [], rows);
            (forall s: Server, answer: (seq<Event>, Statement) -> bool, before: seq<Event>, run: Run, r: Exit<bool> ::
               IsCall(s, answer, before, run, r, verb, p, rows, throws, connThrows) ==> Atomic(s, run, verb, plan))
            <==> Safe(plan, connThrows)
  {
    hide MakePlan, IsRun, Atomic, Answered, RefusedRun;
    var plan := MakePlan(verb, p, [], rows);
    if Safe(plan, connThrows) {
      forall s: Server, answer: (seq<Event>, Statement) -> bool, before: seq<Event>, run: Run, r: Exit<bool>
        | IsCall(s, answer, before, run, r, verb, p, rows, throws, connThrows)
        ensures Atomic(s, run, verb, plan)
      {
        SafeIsAtomic(s, run, r, verb, p, rows, throws, connThrows);
      }
    } else {
      NoRowsNoBatches(verb, p);
      RefusedRunBreaks(verb, p, rows, throws);
      RefusedRunIsAnswered(verb, plan, throws);
      var run := RefusedRun(verb, plan, throws);
      assert IsCall(Server([], false, []), Refusing(), [], run, run.loop, verb, p, rows, throws, connThrows);
    }
  }

  /** Against that server, exactly the first statement works. */
  lemma OneStatementWorks(run: Run, r: Exit<bool>, verb: string, plan: Plan, throws: bool)
    requires plan.batches != [] && IsRun(run, r, verb, plan, true, true, throws, false)
    requires Answered(Refusing(), [], run.start + run.rows + run.closing)
    ensures !run.start[0].ok && run.k == 1
  {
    hide Render, IsClosing;
    var e := run.start + run.rows + run.closing;
    assert e[0] == run.start[0] && |[] + e[..0]| == 0;
    assert e[0].ok == Refusing()([] + e[..0], e[0].stmt);
    LoopEvents(run, verb, plan, throws);
    assert e[1] == run.rows[0] && |[] + e[..1]| == 1;
    assert e[1].ok == Refusing()([] + e[..1], e[1].stmt);
    if |run.rows| > 1 {
      assert e[2] == run.rows[1] && |[] + e[..2]| == 2;
      assert e[2].ok == Refusing()([] + e[..2], e[2].stmt);
    }
  }

  /** The row statements of a run: as many that worked as `k` says, then at most one that did not. */
  lemma LoopEvents(run: Run, verb: string, plan: Plan, throws: bool)
    requires LoopRun(run, verb, plan, throws)
    ensures run.k <= |run.rows|
    ensures forall i :: 0 <= i < |run.rows| ==> run.rows[i].stmt.Rows? && run.rows[i].ok == (i < run.k)
    ensures plan.batches != [] ==> run.rows != []
  {
    hide Render;
    SentWorked(verb, plan.batches[..run.k]);
  }

  lemma {:induction false} SentWorked(verb: string, batches: seq<seq<Row>>)
    ensures forall i :: 0 <= i < |batches| ==> Sent(verb, batches)[i].stmt.Rows? && Sent(verb, batches)[i].ok
  {
    if batches != [] {
      SentWorked(verb, batches[..|batches| - 1]);
    }
  }

  /** The call that fails: with exceptions off, on a new connection to that server, rows that need more
      than one statement are inserted in part. */
  method InsertInPart(verb: string, p: Policy, rows: seq<Row>, throws: bool) returns (r: Exit<bool>, ghost run: Run)
    requires rows != [] && !Safe(MakePlan(verb, p, [], rows), false)
    ensures IsCall(Server([], false, []), Refusing(), [], run, r, verb, p, rows, throws, false)
    ensures !Atomic(Server([], false, []), run, verb, MakePlan(verb, p, [], rows))
  {
    hide MakePlan, IsRun, Replay, Sent, Render, Answered;
    ghost var plan, s := MakePlan(verb, p, [], rows), Server([], false, []);
    var driver := new Driver(Refusing());
    var conn := new Connection(driver, false);
    var query := new Query(conn, throws);
    var policy := new InsertPolicy(p);
    r, run := query.InsertFrom(verb, rows, policy, true);
    assert driver.log[0..] == driver.log == run.start + run.rows + run.closing;
    OneStatementWorks(run, r, verb, plan, throws);
    StartIgnored(s, run, r, verb, p, rows, throws);
    ghost var texts := Texts(verb, plan.batches);
    assert |s.durable + texts[..1]| == 1 && |s.durable + texts| == |plan.batches|;
  }
}
