/**
 The sync hub's batch interpreter over an abstract transactional engine.

 The engine is any choice of the functions in `Engine`; they take the step index, so one batch may
 meet an engine that answers differently each time it is asked.
 */
module Batch {
  import opened Wrappers

  datatype Sql<W> = Begin | Commit | Rollback | Write(write: W) | Missing

  datatype Cond =
    | Always
    | IfOk(step: nat)
    | IfError(step: nat)
    | Not(cond: Cond)
    | And(conds: seq<Cond>)
    | Or(conds: seq<Cond>)
    | IsAutocommit

  datatype Step<W> = Step(condition: Option<Cond>, sql: Sql<W>)

  /** A connection: the committed database and the open transaction's view, if any. */
  datatype Conn<DB> = Conn(committed: DB, tx: Option<DB>)

  datatype Engine<!DB, !W, !R> = Engine(
    effect: (nat, W, DB) -> Option<DB>,  // a write, None when it fails
    rows: (nat, Conn<DB>) -> R,          // what a successful step returns
    message: nat -> string,              // why a failing step failed
    beginRefused: nat -> bool,           // e.g. busy
    commitRefused: nat -> bool,
    failureAborts: nat -> bool)          // a failure that also ends the transaction

  /** The connection after a step that fails. */
  function Failed<DB, W, R>(engine: Engine<DB, W, R>, t: nat, conn: Conn<DB>): Conn<DB> {
    if engine.failureAborts(t) then conn.(tx := None) else conn
  }

  /** One statement: the connection afterwards and whether it succeeded.  A rollback of an open
      transaction succeeds; transaction control in the wrong state fails. */
  function Exec<DB, W, R>(engine: Engine<DB, W, R>, t: nat, sql: Sql<W>, conn: Conn<DB>): (Conn<DB>, bool) {
    match (sql, conn.tx)
    case (Begin, None) => if engine.beginRefused(t) then (conn, false) else (conn.(tx := Some(conn.committed)), true)
    case (Commit, Some(db)) =>
      if engine.commitRefused(t) then (Failed(engine, t, conn), false) else (Conn(db, None), true)
    case (Rollback, Some(_)) => (conn.(tx := None), true)
    case (Write(w), Some(db)) =>
      (match engine.effect(t, w, db)
       case Some(after) => (conn.(tx := Some(after)), true)
       case None => (Failed(engine, t, conn), false))
    case (Write(w), None) =>
      (match engine.effect(t, w, conn.committed)
       case Some(after) => (Conn(after, None), true)
       case None => (conn, false))
    case _ => (conn, false)
  }

  predicate Evaluate<R>(cond: Cond, results: seq<Option<R>>, errors: seq<Option<string>>, autocommit: bool) {
    match cond
    case Always => true
    case IfOk(step) => step < |results| && results[step].Some?
    case IfError(step) => step < |errors| && errors[step].Some?
    case Not(c) => !Evaluate(c, results, errors, autocommit)
    case And(conds) => forall c | c in conds :: Evaluate(c, results, errors, autocommit)
    case Or(conds) => exists c | c in conds :: Evaluate(c, results, errors, autocommit)
    case IsAutocommit => autocommit
  }

  /** The two lists a batch has built so far, and its connection. */
  datatype Progress<DB, R> = Progress(results: seq<Option<R>>, errors: seq<Option<string>>, conn: Conn<DB>)

  predicate ShouldRun<DB, W, R>(step: Step<W>, p: Progress<DB, R>) {
    step.condition.Some? ==> Evaluate(step.condition.value, p.results, p.errors, p.conn.tx.None?)
  }

  function Advance<DB, W, R>(engine: Engine<DB, W, R>, step: Step<W>, p: Progress<DB, R>): Progress<DB, R> {
    var t := |p.results|;
    if ShouldRun(step, p) then
      var (conn, ok) := Exec(engine, t, step.sql, p.conn);
      if ok then Progress(p.results + [Some(engine.rows(t, conn))], p.errors + [None], conn)
      else Progress(p.results + [None], p.errors + [Some(engine.message(t))], conn)
    else Progress(p.results + [None], p.errors + [None], p.conn)
  }

  /** The batch after its first `k` steps. */
  function RunTo<DB, W, R>(engine: Engine<DB, W, R>, steps: seq<Step<W>>, conn: Conn<DB>, k: nat): (p: Progress<DB, R>)
    requires k <= |steps|
    ensures |p.results| == k && |p.errors| == k
  {
    if k == 0 then Progress([], [], conn)
    else Advance(engine, steps[k - 1], RunTo(engine, steps, conn, k - 1))
  }

  /** The hub's connection object, shared by the requests it serves. */
  class Connection<DB, W, R> {
    const engine: Engine<DB, W, R>
    var state: Conn<DB>

    constructor (engine: Engine<DB, W, R>, db: DB)
      ensures this.engine == engine && state == Conn(db, None)
    {
      this.engine := engine;
      state := Conn(db, None);
    }

    method ExecuteStep(t: nat, sql: Sql<W>) returns (ok: bool)
      modifies this
      ensures (state, ok) == Exec(engine, t, sql, old(state))
    {
      var (after, succeeded) := Exec(engine, t, sql, state);
      state := after;
      ok := succeeded;
    }

    method ExecuteBatch(steps: seq<Step<W>>) returns (results: seq<Option<R>>, errors: seq<Option<string>>)
      modifies this
      ensures Progress(results, errors, state) == RunTo(engine, steps, old(state), |steps|)
    {
      results, errors := [], [];
      for k := 0 to |steps|
        invariant Progress(results, errors, state) == RunTo(engine, steps, old(state), k)
      {
        var step := steps[k];
        var shouldExecute := true;
        if step.condition.Some? {
          shouldExecute := Evaluate(step.condition.value, results, errors, state.tx.None?);
        }
        if shouldExecute {
          var ok := ExecuteStep(k, step.sql);
          if ok {
            results := results + [Some(engine.rows(k, state))];
            errors := errors + [None];
          } else {
            results := results + [None];
            errors := errors + [Some(engine.message(k))];
          }
        } else {
          results := results + [None];
          errors := errors + [None];
        }
      }
    }
  }

  /** The database changes only by a COMMIT of the open transaction or by a write outside one, and
      only when the statement succeeds. */
  lemma {:induction false} OnlyCommitsChange<DB, W, R>(engine: Engine<DB, W, R>, t: nat, sql: Sql<W>, conn: Conn<DB>)
    ensures
      var (after, ok) := Exec(engine, t, sql, conn);
      after.committed == conn.committed ||
      (ok && after.tx.None? &&
       match (sql, conn.tx)
       case (Commit, Some(db)) => after.committed == db
       case (Write(w), None) => engine.effect(t, w, conn.committed) == Some(after.committed)
       case _ => false)
  {
  }

  // ----- every batch -----

  lemma AdvanceExtends<DB, W, R>(engine: Engine<DB, W, R>, step: Step<W>, p: Progress<DB, R>)
    requires |p.results| == |p.errors|
    ensures
      var q, n := Advance(engine, step, p), |p.results|;
      && |q.results| == |q.errors| == n + 1 && q.results[..n] == p.results && q.errors[..n] == p.errors
      && (q.results[n].None? || q.errors[n].None?)
  {
  }

  /** Nothing written to the lists is changed later, and no slot is both a result and an error. */
  lemma {:induction false} ListsOnlyGrow<DB, W, R>(
    engine: Engine<DB, W, R>, steps: seq<Step<W>>, conn: Conn<DB>, k: nat, n: nat)
    requires k <= n <= |steps|
    ensures
      var early, late := RunTo(engine, steps, conn, k), RunTo(engine, steps, conn, n);
      && early.results == late.results[..k] && early.errors == late.errors[..k]
      && (forall i :: 0 <= i < n ==> late.results[i].None? || late.errors[i].None?)
  {
    hide Advance;
    if 0 < n {
      ListsOnlyGrow(engine, steps, conn, if k < n then k else n - 1, n - 1);
      AdvanceExtends(engine, steps[n - 1], RunTo(engine, steps, conn, n - 1));
      if k < n {
        assert RunTo(engine, steps, conn, n).results[..n - 1][..k] == RunTo(engine, steps, conn, n).results[..k];
        assert RunTo(engine, steps, conn, n).errors[..n - 1][..k] == RunTo(engine, steps, conn, n).errors[..k];
      }
    }
  }

  /** `cond` asks only about steps before `k`, and not about the connection. */
  predicate AsksBefore(cond: Cond, k: nat) {
    match cond
    case Always => true
    case IfOk(step) => step < k
    case IfError(step) => step < k
    case Not(c) => AsksBefore(c, k)
    case And(conds) => forall c | c in conds :: AsksBefore(c, k)
    case Or(conds) => forall c | c in conds :: AsksBefore(c, k)
    case IsAutocommit => false
  }

  lemma {:induction false} ConditionOnPrefix<R>(
    cond: Cond, results: seq<Option<R>>, errors: seq<Option<string>>, k: nat, now: bool, later: bool)
    requires k <= |results| && k <= |errors| && AsksBefore(cond, k)
    ensures Evaluate(cond, results[..k], errors[..k], now) == Evaluate(cond, results, errors, later)
  {
    match cond
    case Not(c) => ConditionOnPrefix(c, results, errors, k, now, later);
    case And(conds) =>
      forall c | c in conds
        ensures Evaluate(c, results[..k], errors[..k], now) == Evaluate(c, results, errors, later)
      {
        ConditionOnPrefix(c, results, errors, k, now, later);
      }
    case Or(conds) =>
      forall c | c in conds
        ensures Evaluate(c, results[..k], errors[..k], now) == Evaluate(c, results, errors, later)
      {
        ConditionOnPrefix(c, results, errors, k, now, later);
      }
    case _ =>
  }

  /** The response explains the run: a step left a result or an error exactly when its condition,
      read over the final lists, holds.  A condition on the step itself or a later one was false
      when it was read. */
  lemma {:induction false} FinalListsExplainRun<DB, W, R>(
    engine: Engine<DB, W, R>, steps: seq<Step<W>>, conn: Conn<DB>, k: nat, later: bool)
    requires k < |steps| && (steps[k].condition.Some? ==> AsksBefore(steps[k].condition.value, k))
    ensures
      var final := RunTo(engine, steps, conn, |steps|);
      (final.results[k].Some? || final.errors[k].Some?) <==>
      (steps[k].condition.Some? ==> Evaluate(steps[k].condition.value, final.results, final.errors, later))
    ensures
      var asked := RunTo(engine, steps, conn, k);
      forall j :: k <= j ==>
        && !Evaluate(IfOk(j), asked.results, asked.errors, later)
        && !Evaluate(IfError(j), asked.results, asked.errors, later)
  {
    var final := RunTo(engine, steps, conn, |steps|);
    var before := RunTo(engine, steps, conn, k);
    ListsOnlyGrow(engine, steps, conn, k, |steps|);
    ListsOnlyGrow(engine, steps, conn, k + 1, |steps|);
    assert final.results[..k + 1][k] == final.results[k] && final.errors[..k + 1][k] == final.errors[k];
    if steps[k].condition.Some? {
      ConditionOnPrefix(steps[k].condition.value, final.results, final.errors, k, before.conn.tx.None?, later);
    }
  }

  /** Step `k` ran: it left a result or an error. */
  predicate Ran<DB, R>(p: Progress<DB, R>, k: nat)
    requires k < |p.results| && k < |p.errors|
  {
    p.results[k].Some? || p.errors[k].Some?
  }

  /** `c` asks whether one step succeeded or failed, and its slot says so. */
  predicate SlotSays<DB, R>(p: Progress<DB, R>, c: Cond) {
    match c
    case IfOk(j) => j < |p.results| && p.results[j].Some?
    case IfError(j) => j < |p.errors| && p.errors[j].Some?
    case _ => false
  }

  predicate AsksSlots(conds: seq<Cond>, k: nat) {
    forall c | c in conds :: (c.IfOk? || c.IfError?) && c.step < k
  }

  lemma {:induction false} RanWhenRead<DB, W, R>(
    engine: Engine<DB, W, R>, steps: seq<Step<W>>, conn: Conn<DB>, k: nat)
    requires k < |steps|
    ensures Ran(RunTo(engine, steps, conn, |steps|), k) <==> ShouldRun(steps[k], RunTo(engine, steps, conn, k))
  {
    hide Evaluate;
    ListsOnlyGrow(engine, steps, conn, k + 1, |steps|);
    var final := RunTo(engine, steps, conn, |steps|);
    assert final.results[..k + 1][k] == final.results[k] && final.errors[..k + 1][k] == final.errors[k];
  }

  lemma {:induction false} SlotsAreFinal<DB, W, R>(
    engine: Engine<DB, W, R>, steps: seq<Step<W>>, conn: Conn<DB>, k: nat, c: Cond)
    requires k <= |steps| && (c.IfOk? || c.IfError?) && c.step < k
    ensures
      var asked := RunTo(engine, steps, conn, k);
      Evaluate(c, asked.results, asked.errors, asked.conn.tx.None?) == SlotSays(RunTo(engine, steps, conn, |steps|), c)
  {
    ListsOnlyGrow(engine, steps, conn, k, |steps|);
  }

  /** A step under a list of conditions on earlier steps, told from the final slots alone: under `And`
      it ran exactly when every slot named is filled so, under `Or` exactly when some is. */
  lemma {:induction false} ListConditions<DB, W, R>(
    engine: Engine<DB, W, R>, steps: seq<Step<W>>, conn: Conn<DB>, k: nat, conds: seq<Cond>)
    requires k < |steps| && AsksSlots(conds, k)
    ensures
      var final := RunTo(engine, steps, conn, |steps|);
      && (steps[k].condition == Some(And(conds)) ==> (Ran(final, k) <==> forall c | c in conds :: SlotSays(final, c)))
      && (steps[k].condition == Some(Or(conds)) ==> (Ran(final, k) <==> exists c | c in conds :: SlotSays(final, c)))
  {
    hide SlotSays;
    RanWhenRead(engine, steps, conn, k);
    forall c | c in conds
      ensures
        var asked := RunTo(engine, steps, conn, k);
        Evaluate(c, asked.results, asked.errors, asked.conn.tx.None?)
        == SlotSays(RunTo(engine, steps, conn, |steps|), c)
    {
      SlotsAreFinal(engine, steps, conn, k, c);
    }
  }

  /** The conditions without a list: none and `Always` always run; one slot, or its negation; and the
      state of the connection at that moment, or its negation. */
  lemma {:induction false} PlainConditions<DB, W, R>(
    engine: Engine<DB, W, R>, steps: seq<Step<W>>, conn: Conn<DB>, k: nat, c: Cond)
    requires k < |steps| && (c.IfOk? || c.IfError?) && c.step < k
    ensures
      var final, open := RunTo(engine, steps, conn, |steps|), RunTo(engine, steps, conn, k).conn.tx.Some?;
      && (steps[k].condition in [None, Some(Always)] ==> Ran(final, k))
      && (steps[k].condition == Some(c) ==> (Ran(final, k) <==> SlotSays(final, c)))
      && (steps[k].condition == Some(Not(c)) ==> (Ran(final, k) <==> !SlotSays(final, c)))
      && (steps[k].condition == Some(IsAutocommit) ==> (Ran(final, k) <==> !open))
      && (steps[k].condition == Some(Not(IsAutocommit)) ==> (Ran(final, k) <==> open))
  {
    hide SlotSays, Advance;
    var asked := RunTo(engine, steps, conn, k);
    RanWhenRead(engine, steps, conn, k);
    SlotsAreFinal(engine, steps, conn, k, c);
    NotMeans(c, asked.results, asked.errors, asked.conn.tx.None?);
    NotMeans(IsAutocommit, asked.results, asked.errors, asked.conn.tx.None?);
  }

  lemma {:induction false} NotMeans<R>(
    c: Cond, results: seq<Option<R>>, errors: seq<Option<string>>, autocommit: bool)
    ensures Evaluate(Not(c), results, errors, autocommit) == !Evaluate(c, results, errors, autocommit)
  {
  }

  /** What the slot of a step that ran holds: the rows read on the connection as the step left it, or
      the engine's message. */
  lemma {:induction false} SlotContents<DB, W, R>(
    engine: Engine<DB, W, R>, steps: seq<Step<W>>, conn: Conn<DB>, k: nat)
    requires k < |steps|
    ensures
      var final := RunTo(engine, steps, conn, |steps|);
      && (final.results[k].Some? ==> final.results[k].value == engine.rows(k, RunTo(engine, steps, conn, k + 1).conn))
      && (final.errors[k].Some? ==> final.errors[k].value == engine.message(k))
  {
    hide Evaluate, Exec;
    ListsOnlyGrow(engine, steps, conn, k + 1, |steps|);
    var final := RunTo(engine, steps, conn, |steps|);
    assert final.results[..k + 1][k] == final.results[k] && final.errors[..k + 1][k] == final.errors[k];
  }

  /** Over a whole batch: a database that has changed was changed by a step that succeeded, and that
      step is a COMMIT or a write outside a transaction. */
  lemma {:induction false} ChangeHasStep<DB, W, R>(
    engine: Engine<DB, W, R>, steps: seq<Step<W>>, conn: Conn<DB>, n: nat)
    requires n <= |steps| && RunTo(engine, steps, conn, n).conn.committed != conn.committed
    ensures
      exists k ::
        && 0 <= k < n && RunTo(engine, steps, conn, n).results[k].Some?
        && (steps[k].sql.Commit? || (steps[k].sql.Write? && RunTo(engine, steps, conn, k).conn.tx.None?))
  {
    var before := RunTo(engine, steps, conn, n - 1);
    AdvanceExtends(engine, steps[n - 1], before);
    if before.conn.committed != conn.committed {
      ChangeHasStep(engine, steps, conn, n - 1);
      var k :|
        && 0 <= k < n - 1 && before.results[k].Some?
        && (steps[k].sql.Commit? || (steps[k].sql.Write? && RunTo(engine, steps, conn, k).conn.tx.None?));
      assert RunTo(engine, steps, conn, n).results[..n - 1][k].Some?;
    } else {
      OnlyCommitsChange(engine, n - 1, steps[n - 1].sql, before.conn);
      assert RunTo(engine, steps, conn, n).results[n - 1].Some?;
    }
  }

  // ----- the transaction batch -----

  /** BEGIN; each write if the step before it succeeded; COMMIT if the last did; ROLLBACK unless
      the COMMIT did. */
  function TransactionBatch<W>(writes: seq<W>): (steps: seq<Step<W>>)
    ensures |steps| == |writes| + 3
  {
    var n := |writes|;
    [Step(None, Begin)]
    + seq(n, i requires 0 <= i < n => Step(Some(IfOk(i)), Write(writes[i])))
    + [Step(Some(IfOk(n)), Commit), Step(Some(Not(IfOk(n + 1))), Rollback)]
  }

  /** The database after the first `i` writes, one after the other; None once BEGIN or one of them
      fails. */
  function Applied<DB, W, R>(engine: Engine<DB, W, R>, writes: seq<W>, db: DB, i: nat): Option<DB>
    requires i <= |writes|
  {
    if i == 0 then (if engine.beginRefused(0) then None else Some(db))
    else
      match Applied(engine, writes, db, i - 1)
      case None => None
      case Some(before) => engine.effect(i, writes[i - 1], before)
  }

  /** Step `i` ran and succeeded, ran and failed, or was skipped, as `Applied` says. */
  ghost predicate ChainSlot<DB, W, R>(
    engine: Engine<DB, W, R>, writes: seq<W>, db: DB, p: Progress<DB, R>, i: nat)
    requires i <= |writes| && i < |p.results| && i < |p.errors|
  {
    && (p.results[i].Some? <==> Applied(engine, writes, db, i).Some?)
    && (p.errors[i].Some? <==>
          Applied(engine, writes, db, i).None? && (i == 0 || Applied(engine, writes, db, i - 1).Some?))
  }

  lemma {:induction false} ChainRuns<DB, W, R>(engine: Engine<DB, W, R>, writes: seq<W>, db: DB, i: nat)
    requires i <= |writes|
    ensures
      var p := RunTo(engine, TransactionBatch(writes), Conn(db, None), i + 1);
      && p.conn.committed == db
      && (Applied(engine, writes, db, i).Some? ==> p.conn.tx == Applied(engine, writes, db, i))
      && forall j :: 0 <= j <= i ==> ChainSlot(engine, writes, db, p, j)
  {
    var steps := TransactionBatch(writes);
    var before := RunTo(engine, steps, Conn(db, None), i);
    var p := RunTo(engine, steps, Conn(db, None), i + 1);
    assert p == Advance(engine, steps[i], before);
    AdvanceKeepsSlots(engine, steps[i], before);
    if 0 < i {
      ChainRuns(engine, writes, db, i - 1);
      assert steps[i] == Step(Some(IfOk(i - 1)), Write(writes[i - 1]));
      assert ChainSlot(engine, writes, db, before, i - 1);
      ChainStep(engine, writes[i - 1], before);
      forall j | 0 <= j < i
        ensures ChainSlot(engine, writes, db, p, j)
      {
        assert ChainSlot(engine, writes, db, before, j);
      }
    }
  }

  lemma AdvanceKeepsSlots<DB, W, R>(engine: Engine<DB, W, R>, step: Step<W>, p: Progress<DB, R>)
    requires |p.results| == |p.errors|
    ensures
      var q := Advance(engine, step, p);
      forall j :: 0 <= j < |p.results| ==> q.results[j] == p.results[j] && q.errors[j] == p.errors[j]
  {
  }

  /** A write conditioned on the step before it, inside an open transaction. */
  lemma ChainStep<DB, W, R>(engine: Engine<DB, W, R>, write: W, p: Progress<DB, R>)
    requires 0 < |p.results| == |p.errors|
    requires p.results[|p.results| - 1].Some? ==> p.conn.tx.Some?
    ensures
      var i := |p.results|;
      var q := Advance(engine, Step(Some(IfOk(i - 1)), Write(write)), p);
      var after := if p.results[i - 1].Some? then engine.effect(i, write, p.conn.tx.value) else None;
      && q.conn.committed == p.conn.committed
      && (after.Some? ==> q.conn.tx == after)
      && (q.results[i].Some? <==> after.Some?)
      && (q.errors[i].Some? <==> after.None? && p.results[i - 1].Some?)
  {
    assert Evaluate(IfOk(|p.results| - 1), p.results, p.errors, p.conn.tx.None?) == p.results[|p.results| - 1].Some?;
  }

  /** Whether the batch gets as far as a successful COMMIT. */
  predicate Commits<DB, W, R>(engine: Engine<DB, W, R>, writes: seq<W>, db: DB) {
    Applied(engine, writes, db, |writes|).Some? && !engine.commitRefused(|writes| + 1)
  }

  lemma {:induction false} CommitTried<DB, W, R>(engine: Engine<DB, W, R>, writes: seq<W>, db: DB)
    ensures
      var n := |writes|;
      var p := RunTo(engine, TransactionBatch(writes), Conn(db, None), n + 2);
      && (if Commits(engine, writes, db) then p.conn == Conn(Applied(engine, writes, db, n).value, None)
          else p.conn.committed == db)
      && (p.results[n + 1].Some? <==> Commits(engine, writes, db))
      && (p.errors[n + 1].Some? <==> Applied(engine, writes, db, n).Some? && engine.commitRefused(n + 1))
      && forall j :: 0 <= j <= n ==> ChainSlot(engine, writes, db, p, j)
  {
    var n := |writes|;
    var steps := TransactionBatch(writes);
    ChainRuns(engine, writes, db, n);
    var chain := RunTo(engine, steps, Conn(db, None), n + 1);
    var p := RunTo(engine, steps, Conn(db, None), n + 2);
    assert p == Advance(engine, steps[n + 1], chain);
    assert steps[n + 1] == Step(Some(IfOk(n)), Commit);
    AdvanceKeepsSlots(engine, steps[n + 1], chain);
    forall j | 0 <= j <= n
      ensures ChainSlot(engine, writes, db, p, j)
    {
      assert ChainSlot(engine, writes, db, chain, j);
    }
    assert ChainSlot(engine, writes, db, chain, n);
  }

  lemma RollbackUnlessOk<DB, W, R>(engine: Engine<DB, W, R>, i: nat, p: Progress<DB, R>)
    requires i < |p.results|
    ensures Advance(engine, Step(Some(Not(IfOk(i))), Rollback), p).conn
            == if p.results[i].Some? then p.conn else Conn(p.conn.committed, None)
  {
    assert Evaluate(IfOk(i), p.results, p.errors, p.conn.tx.None?) == p.results[i].Some?;
  }

  /** All or nothing, on any engine: the transaction is closed, the database has every write or
      none, and the steps that ran are BEGIN and the longest succeeding run of writes, plus at most
      the one that failed. */
  lemma {:induction false} TransactionBatchIsAtomic<DB, W, R>(engine: Engine<DB, W, R>, writes: seq<W>, db: DB)
    ensures
      var n := |writes|;
      var p := RunTo(engine, TransactionBatch(writes), Conn(db, None), n + 3);
      && p.conn == Conn(if Commits(engine, writes, db) then Applied(engine, writes, db, n).value else db, None)
      && (p.results[n + 1].Some? <==> Commits(engine, writes, db))
      && (p.errors[n + 1].Some? <==> Applied(engine, writes, db, n).Some? && engine.commitRefused(n + 1))
      && forall j :: 0 <= j <= n ==> ChainSlot(engine, writes, db, p, j)
  {
    var n := |writes|;
    var steps := TransactionBatch(writes);
    CommitTried(engine, writes, db);
    var tried := RunTo(engine, steps, Conn(db, None), n + 2);
    var p := RunTo(engine, steps, Conn(db, None), n + 3);
    assert p == Advance(engine, steps[n + 2], tried);
    assert steps[n + 2] == Step(Some(Not(IfOk(n + 1))), Rollback);
    AdvanceKeepsSlots(engine, steps[n + 2], tried);
    RollbackUnlessOk(engine, n + 1, tried);
    forall j | 0 <= j <= n
      ensures ChainSlot(engine, writes, db, p, j)
    {
      assert ChainSlot(engine, writes, db, tried, j);
    }
  }

  // ----- writes outside a transaction -----

  function AutocommitBatch<W>(writes: seq<W>): (steps: seq<Step<W>>)
    ensures |steps| == |writes|
  {
    seq(|writes|, i requires 0 <= i < |writes| => Step(None, Write(writes[i])))
  }

  /** The database after the first `k` writes, those that fail left out. */
  function Kept<DB, W, R>(engine: Engine<DB, W, R>, writes: seq<W>, db: DB, k: nat): DB
    requires k <= |writes|
  {
    if k == 0 then db
    else
      var before := Kept(engine, writes, db, k - 1);
      match engine.effect(k - 1, writes[k - 1], before)
      case Some(after) => after
      case None => before
  }

  lemma PlainWrite<DB, W, R>(engine: Engine<DB, W, R>, write: W, p: Progress<DB, R>)
    requires p.conn.tx.None? && |p.results| == |p.errors|
    ensures
      var t, q := |p.results|, Advance(engine, Step(None, Write(write)), p);
      var after := engine.effect(t, write, p.conn.committed);
      && q.conn == Conn(if after.Some? then after.value else p.conn.committed, None)
      && (q.results[t].Some? <==> after.Some?) && (q.errors[t].Some? <==> after.None?)
  {
  }

  /** The slot of write `j` tells whether it succeeded. */
  ghost predicate SlotTells<DB, W, R>(engine: Engine<DB, W, R>, writes: seq<W>, db: DB, p: Progress<DB, R>, j: nat)
    requires j < |writes| && j < |p.results| && j < |p.errors|
  {
    var after := engine.effect(j, writes[j], Kept(engine, writes, db, j));
    (p.results[j].Some? <==> after.Some?) && (p.errors[j].Some? <==> after.None?)
  }

  lemma {:induction false} AutocommitStep<DB, W, R>(
    engine: Engine<DB, W, R>, writes: seq<W>, db: DB, k: nat, p: Progress<DB, R>)
    requires k < |writes| && |p.results| == |p.errors| == k
    requires p.conn == Conn(Kept(engine, writes, db, k), None)
    ensures
      var q := Advance(engine, Step(None, Write(writes[k])), p);
      q.conn == Conn(Kept(engine, writes, db, k + 1), None) && SlotTells(engine, writes, db, q, k)
  {
    PlainWrite(engine, writes[k], p);
  }

  /** Without a transaction each write stands alone: those that succeed stay and have a result, those
      that fail change nothing and have an error, and the rest run all the same. */
  lemma {:induction false} AutocommitRuns<DB, W, R>(engine: Engine<DB, W, R>, writes: seq<W>, db: DB, k: nat)
    requires k <= |writes|
    ensures
      var p := RunTo(engine, AutocommitBatch(writes), Conn(db, None), k);
      && p.conn == Conn(Kept(engine, writes, db, k), None)
      && forall j :: 0 <= j < k ==> SlotTells(engine, writes, db, p, j)
  {
    if 0 < k {
      var steps := AutocommitBatch(writes);
      assert steps[k - 1] == Step(None, Write(writes[k - 1]));
      hide Advance, Kept, AutocommitBatch;
      AutocommitRuns(engine, writes, db, k - 1);
      var before, p := RunTo(engine, steps, Conn(db, None), k - 1), RunTo(engine, steps, Conn(db, None), k);
      AutocommitStep(engine, writes, db, k - 1, before);
      AdvanceKeepsSlots(engine, steps[k - 1], before);
      forall j | 0 <= j < k - 1
        ensures SlotTells(engine, writes, db, p, j)
      {
        assert SlotTells(engine, writes, db, before, j);
      }
    }
  }

  // ----- the same batch inside somebody else's transaction -----

  /** BEGIN fails, so nothing up to the COMMIT runs. */
  lemma {:induction false} NothingRuns<DB, W, R>(
    engine: Engine<DB, W, R>, writes: seq<W>, committed: DB, open: DB, k: nat)
    requires 0 < k <= |writes| + 2
    ensures
      var p := RunTo(engine, TransactionBatch(writes), Conn(committed, Some(open)), k);
      && p.conn == Conn(committed, Some(open)) && (forall j :: 0 <= j < k ==> p.results[j].None?)
      && (forall j :: 0 <= j < k ==> (p.errors[j].Some? <==> j == 0))
  {
    var steps := TransactionBatch(writes);
    if k == 1 {
      assert steps[0] == Step(None, Begin);
      assert RunTo(engine, steps, Conn(committed, Some(open)), 0) == Progress([], [], Conn(committed, Some(open)));
    } else {
      NothingRuns(engine, writes, committed, open, k - 1);
      var before := RunTo(engine, steps, Conn(committed, Some(open)), k - 1);
      assert steps[k - 1].condition == Some(IfOk(k - 2));
      AdvanceExtends(engine, steps[k - 1], before);
    }
  }

  /** Run on the shared connection while a transaction is open, the batch writes nothing, and its
      closing ROLLBACK ends that transaction: what it had written is lost. */
  lemma {:induction false} OpenTransactionIsLost<DB, W, R>(
    engine: Engine<DB, W, R>, writes: seq<W>, committed: DB, open: DB)
    ensures
      var n := |writes|;
      var p := RunTo(engine, TransactionBatch(writes), Conn(committed, Some(open)), n + 3);
      && p.conn == Conn(committed, None) && p.errors[0].Some? && p.results[n + 2].Some?
      && forall j :: 0 <= j < n + 2 ==> p.results[j].None?
  {
    var n, steps := |writes|, TransactionBatch(writes);
    NothingRuns(engine, writes, committed, open, n + 2);
    var tried := RunTo(engine, steps, Conn(committed, Some(open)), n + 2);
    assert steps[n + 2] == Step(Some(Not(IfOk(n + 1))), Rollback);
    AdvanceKeepsSlots(engine, steps[n + 2], tried);
    assert !Evaluate(IfOk(n + 1), tried.results, tried.errors, false);
  }

  // ----- the transaction batch with one condition for all -----

  function AllOk(n: nat): (conds: seq<Cond>)
    ensures |conds| == n
  {
    seq(n, i requires 0 <= i < n => IfOk(i))
  }

  /** A write of such a batch runs if BEGIN succeeded and, when guarded, the transaction is still open. */
  function GroupCond(guarded: bool): Cond {
    if guarded then And([IfOk(0), Not(IsAutocommit)]) else IfOk(0)
  }

  /** BEGIN; the writes, one after the other whether they succeed or not; COMMIT if all did; ROLLBACK if
      a transaction is still open. */
  function GroupBatch<W>(writes: seq<W>, guarded: bool): (steps: seq<Step<W>>)
    ensures |steps| == |writes| + 3
  {
    var n := |writes|;
    [Step(None, Begin)]
    + seq(n, i requires 0 <= i < n => Step(Some(GroupCond(guarded)), Write(writes[i])))
    + [Step(Some(And(AllOk(n + 1))), Commit), Step(Some(Not(IsAutocommit)), Rollback)]
  }

  /** After BEGIN and the first `i` writes. */
  ghost predicate GroupAt<DB, W, R>(
    engine: Engine<DB, W, R>, writes: seq<W>, guarded: bool, db: DB, i: nat, p: Progress<DB, R>)
    requires i <= |writes| && |p.results| == |p.errors| == i + 1
  {
    && p.conn.committed == db
    && ((forall j :: 0 <= j <= i ==> p.results[j].Some?) <==> Applied(engine, writes, db, i).Some?)
    && (Applied(engine, writes, db, i).Some? ==> p.conn.tx == Applied(engine, writes, db, i))
    && (p.results[0].None? ==> p.conn.tx.None?)
    && (!guarded && p.results[0].Some? && (i == 0 || i < |writes|) ==> p.conn.tx.Some?)
  }

  lemma {:induction false} GroupStep<DB, W, R>(
    engine: Engine<DB, W, R>, writes: seq<W>, guarded: bool, db: DB, i: nat, p: Progress<DB, R>)
    requires i < |writes| && |p.results| == |p.errors| == i + 1
    requires GroupAt(engine, writes, guarded, db, i, p)
    requires guarded || forall t :: 1 <= t < |writes| ==> !engine.failureAborts(t)
    ensures
      GroupAt(engine, writes, guarded, db, i + 1, Advance(engine, Step(Some(GroupCond(guarded)), Write(writes[i])), p))
  {
    var q := Advance(engine, Step(Some(GroupCond(guarded)), Write(writes[i])), p);
    AdvanceExtends(engine, Step(Some(GroupCond(guarded)), Write(writes[i])), p);
    assert forall j :: 0 <= j <= i ==> q.results[..i + 1][j] == q.results[j];
    GroupCondMeans(guarded, p.results, p.errors, p.conn.tx.None?);
    if Applied(engine, writes, db, i).Some? {
      assert p.results[0].Some?;
    }
  }

  lemma {:induction false} GroupCondMeans<R>(
    guarded: bool, results: seq<Option<R>>, errors: seq<Option<string>>, autocommit: bool)
    requires 0 < |results|
    ensures Evaluate(GroupCond(guarded), results, errors, autocommit)
            <==> results[0].Some? && (guarded ==> !autocommit)
  {
    if guarded {
      var conds := [IfOk(0), Not(IsAutocommit)];
      assert conds[0] in conds && conds[1] in conds;
      assert forall c :: c in conds ==> c == conds[0] || c == conds[1];
      NotMeans(IsAutocommit, results, errors, autocommit);
      assert Evaluate(And(conds), results, errors, autocommit)
        == forall c | c in conds :: Evaluate(c, results, errors, autocommit);
    }
  }

  lemma {:induction false} AllOkMeans<R>(results: seq<Option<R>>, errors: seq<Option<string>>, autocommit: bool, n: nat)
    requires n <= |results|
    ensures Evaluate(And(AllOk(n)), results, errors, autocommit) <==> forall j :: 0 <= j < n ==> results[j].Some?
  {
    var conds := AllOk(n);
    if Evaluate(And(conds), results, errors, autocommit) {
      forall j | 0 <= j < n
        ensures results[j].Some?
      {
        assert conds[j] in conds && Evaluate(conds[j], results, errors, autocommit);
      }
    }
    if forall j :: 0 <= j < n ==> results[j].Some? {
      forall c | c in conds
        ensures Evaluate(c, results, errors, autocommit)
      {
        var j :| 0 <= j < n && conds[j] == c;
      }
    }
  }

  lemma {:induction false} GroupRuns<DB, W, R>(
    engine: Engine<DB, W, R>, writes: seq<W>, guarded: bool, db: DB, i: nat)
    requires i <= |writes|
    requires guarded || forall t :: 1 <= t < |writes| ==> !engine.failureAborts(t)
    ensures GroupAt(engine, writes, guarded, db, i, RunTo(engine, GroupBatch(writes, guarded), Conn(db, None), i + 1))
  {
    var steps := GroupBatch(writes, guarded);
    if i == 0 {
      var first := RunTo(engine, steps, Conn(db, None), 1);
      assert steps[0] == Step(None, Begin);
      assert RunTo(engine, steps, Conn(db, None), 0) == Progress([], [], Conn(db, None));
      assert first == Advance(engine, Step(None, Begin), Progress([], [], Conn(db, None)));
      assert first.results[0].Some? <==> !engine.beginRefused(0);
    } else {
      hide Advance, GroupAt;
      GroupRuns(engine, writes, guarded, db, i - 1);
      assert steps[i] == Step(Some(GroupCond(guarded)), Write(writes[i - 1]));
      var before := RunTo(engine, steps, Conn(db, None), i);
      GroupStep(engine, writes, guarded, db, i - 1, before);
      assert RunTo(engine, steps, Conn(db, None), i + 1) == Advance(engine, steps[i], before);
    }
  }

  /** All or nothing: the database ends with every write or none, and no transaction stays open, on any
      engine when each write also asks for the open transaction, and otherwise on any engine on which
      no failure but that of the last write ends the transaction. */
  lemma {:induction false} GroupIsAtomic<DB, W, R>(
    engine: Engine<DB, W, R>, writes: seq<W>, guarded: bool, db: DB)
    requires guarded || forall t :: 1 <= t < |writes| ==> !engine.failureAborts(t)
    ensures
      var n := |writes|;
      var p := RunTo(engine, GroupBatch(writes, guarded), Conn(db, None), n + 3);
      && p.conn == Conn(if Commits(engine, writes, db) then Applied(engine, writes, db, n).value else db, None)
      && (p.results[n + 1].Some? <==> Commits(engine, writes, db))
  {
    hide GroupCond, Evaluate;
    var n, steps := |writes|, GroupBatch(writes, guarded);
    GroupRuns(engine, writes, guarded, db, n);
    var wrote := RunTo(engine, steps, Conn(db, None), n + 1);
    AllOkMeans(wrote.results, wrote.errors, wrote.conn.tx.None?, n + 1);
    assert steps[n + 1] == Step(Some(And(AllOk(n + 1))), Commit);
    var tried := RunTo(engine, steps, Conn(db, None), n + 2);
    assert tried == Advance(engine, steps[n + 1], wrote);
    assert steps[n + 2] == Step(Some(Not(IsAutocommit)), Rollback);
    RollbackIfOpen(engine, tried);
    AdvanceKeepsSlots(engine, steps[n + 2], tried);
  }

  lemma RollbackIfOpen<DB, W, R>(engine: Engine<DB, W, R>, p: Progress<DB, R>)
    ensures Advance(engine, Step(Some(Not(IsAutocommit)), Rollback), p).conn == Conn(p.conn.committed, None)
  {
    NotMeans(IsAutocommit, p.results, p.errors, p.conn.tx.None?);
  }

  /** The batch ends with every write or with none. */
  ghost predicate AllOrNothing(engine: Engine<int, int, int>, writes: seq<int>, db: int) {
    var n := |writes|;
    var all := Applied(engine, writes, db, n);
    var conn := RunTo(engine, GroupBatch(writes, false), Conn(db, None), n + 3).conn;
    conn == Conn(db, None) || (all.Some? && conn == Conn(all.value, None))
  }

  /** An engine whose write `t` fails and whose other writes add one. */
  function FailsAt(aborts: nat -> bool, t: nat): Engine<int, int, int> {
    Engine((k: nat, _: int, x: int) => if k == t then None else Some(x + 1), (_: nat, _: Conn<int>) => 0,
           (_: nat) => "", (_: nat) => false, (_: nat) => false, aborts)
  }

  /** After a failure that ends the transaction, the later writes run outside it and stay. */
  lemma {:induction false} LaterWritesEscape(aborts: nat -> bool, t: nat, writes: seq<int>, k: nat)
    requires 1 <= t && aborts(t) && k <= |writes|
    ensures
      var p := RunTo(FailsAt(aborts, t), GroupBatch(writes, false), Conn(0, None), k + 1);
      p.results[0].Some? && (t <= k ==> p.results[t].None?)
    ensures
      RunTo(FailsAt(aborts, t), GroupBatch(writes, false), Conn(0, None), k + 1).conn
      == if k < t then Conn(0, Some(k)) else Conn(k - t, None)
  {
    var engine, steps := FailsAt(aborts, t), GroupBatch(writes, false);
    if k == 0 {
      assert steps[0] == Step(None, Begin);
      assert RunTo(engine, steps, Conn(0, None), 0) == Progress([], [], Conn(0, None));
      assert RunTo(engine, steps, Conn(0, None), 1)
        == Advance(engine, Step(None, Begin), Progress([], [], Conn(0, None)));
      assert Exec(engine, 0, Begin, Conn(0, None)) == (Conn(0, Some(0)), true);
    } else {
      hide Advance;
      LaterWritesEscape(aborts, t, writes, k - 1);
      var before := RunTo(engine, steps, Conn(0, None), k);
      assert steps[k] == Step(Some(GroupCond(false)), Write(writes[k - 1]));
      assert RunTo(engine, steps, Conn(0, None), k + 1) == Advance(engine, steps[k], before);
      WriteAfterBegin(engine, writes[k - 1], before);
      AdvanceKeepsSlots(engine, steps[k], before);
    }
  }

  lemma WriteAfterBegin<DB, W, R>(engine: Engine<DB, W, R>, write: W, p: Progress<DB, R>)
    requires 0 < |p.results| == |p.errors| && p.results[0].Some?
    ensures
      var t := |p.results|;
      var q := Advance(engine, Step(Some(IfOk(0)), Write(write)), p);
      && q.conn == Exec(engine, t, Write(write), p.conn).0
      && (q.results[t].Some? <==> Exec(engine, t, Write(write), p.conn).1)
  {
    assert Evaluate(IfOk(0), p.results, p.errors, p.conn.tx.None?);
  }

  /** So the unguarded batch is all or nothing on every engine with given aborting failures exactly
      when none of them can be followed by another write. */
  lemma {:induction false} UnguardedExact(aborts: nat -> bool, n: nat)
    ensures
      (forall engine: Engine<int, int, int>, writes: seq<int>, db: int ::
         engine.failureAborts == aborts && |writes| == n ==> AllOrNothing(engine, writes, db))
      <==> forall t :: 1 <= t < n ==> !aborts(t)
  {
    if forall t :: 1 <= t < n ==> !aborts(t) {
      forall engine: Engine<int, int, int>, writes: seq<int>, db: int | engine.failureAborts == aborts && |writes| == n
        ensures AllOrNothing(engine, writes, db)
      {
        GroupIsAtomic(engine, writes, false, db);
      }
    } else {
      var t :| 1 <= t < n && aborts(t);
      var writes := seq(n, i => 0);
      NotAtomic(aborts, t, writes);
      assert !AllOrNothing(FailsAt(aborts, t), writes, 0);
    }
  }

  lemma {:induction false} AppliedStops<DB, W, R>(engine: Engine<DB, W, R>, writes: seq<W>, db: DB, t: nat, n: nat)
    requires t <= n <= |writes| && Applied(engine, writes, db, t).None?
    ensures Applied(engine, writes, db, n).None?
  {
    if t < n {
      AppliedStops(engine, writes, db, t, n - 1);
    }
  }

  lemma {:induction false} NotAtomic(aborts: nat -> bool, t: nat, writes: seq<int>)
    requires 1 <= t < |writes| && aborts(t)
    ensures FailsAt(aborts, t).failureAborts == aborts && !AllOrNothing(FailsAt(aborts, t), writes, 0)
  {
    hide GroupCond, Evaluate;
    var engine, steps, n := FailsAt(aborts, t), GroupBatch(writes, false), |writes|;
    LaterWritesEscape(aborts, t, writes, n);
    var wrote := RunTo(engine, steps, Conn(0, None), n + 1);
    AllOkMeans(wrote.results, wrote.errors, wrote.conn.tx.None?, n + 1);
    assert steps[n + 1] == Step(Some(And(AllOk(n + 1))), Commit);
    var tried := RunTo(engine, steps, Conn(0, None), n + 2);
    assert tried == Advance(engine, steps[n + 1], wrote) && tried.conn == wrote.conn;
    assert steps[n + 2] == Step(Some(Not(IsAutocommit)), Rollback);
    RollbackIfOpen(engine, tried);
    assert Applied(engine, writes, 0, t).None?;
    AppliedStops(engine, writes, 0, t, n);
  }
}
