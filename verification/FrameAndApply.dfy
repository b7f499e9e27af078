/**
 Framed write batches: every write is snapshotted, tried with RETURNING and run plainly when that
 fails, inside one transaction.  The engine is any choice of the functions in `Engine`.
 */
module FrameAndApply {
  import opened Wrappers
  import opened SqlText
  import TopLevel
  import Comments
  import SplitSql

  const FRAME_CAP_ROWS := 100

  datatype Op = Insert | Update | Delete | Ddl | Unclassified

  datatype Control = Begin | Commit | Rollback

  /** A query that started: its rows, and whether asking for the one after them fails. */
  datatype Cursor<R> = Cursor(rows: seq<R>, fails: bool)

  datatype Engine<!DB, !R> = Engine(
    control: string -> Option<Control>,                 // what the engine takes as transaction control
    op: string -> Op,                                   // the classification of a write
    write: (string, DB) -> Option<(DB, nat)>,           // run plainly; None fails without effect
    writeAborts: (string, DB) -> bool,                  // a failing write that also ends the transaction
    returning: (string, DB) -> (Option<DB>, Option<Cursor<R>>), // the RETURNING variant; None ends the transaction
    snapshot: (string, DB) -> Option<Option<Cursor<R>>>,// None when there is no table or WHERE to read
    beginRefused: bool,
    commitRefused: bool)

  /** The database and the open transaction's view of it. */
  datatype Conn<DB> = Conn(committed: DB, tx: Option<DB>) {
    function Visible(): DB {
      if tx.Some? then tx.value else committed
    }

    /** The connection after a write has changed what it sees. */
    function With(db: DB): Conn<DB> {
      if tx.Some? then Conn(committed, Some(db)) else Conn(db, None)
    }

    /** The connection without its transaction. */
    function Ended(): Conn<DB> {
      Conn(committed, None)
    }
  }

  /** `None` fails. */
  function ExecControl<DB, R>(engine: Engine<DB, R>, control: Control, conn: Conn<DB>): Option<Conn<DB>> {
    match (control, conn.tx)
    case (Begin, None) => if engine.beginRefused then None else Some(Conn(conn.committed, Some(conn.committed)))
    case (Commit, Some(db)) => if engine.commitRefused then None else Some(Conn(db, None))
    case (Rollback, Some(_)) => Some(Conn(conn.committed, None))
    case _ => None
  }

  /** The statement itself: the connection afterwards, and the count unless it failed. */
  function ExecPlain<DB, R>(engine: Engine<DB, R>, sql: string, conn: Conn<DB>): (Conn<DB>, Option<nat>) {
    match engine.control(sql)
    case Some(control) =>
      (match ExecControl(engine, control, conn)
       case None => (conn, None)
       case Some(after) => (after, Some(0)))
    case None =>
      match engine.write(sql, conn.Visible())
      case None => (if engine.writeAborts(sql, conn.Visible()) then conn.Ended() else conn, None)
      case Some((db, count)) => (conn.With(db), Some(count))
  }

  // ----- frames -----

  /** The rows of a frame, None when the query matched nothing; an error past the cap is not seen. */
  function FrameOf<R>(query: Option<Cursor<R>>): Result<Option<seq<R>>, ()> {
    if query.None? || (query.value.fails && |query.value.rows| < FRAME_CAP_ROWS) then Err(())
    else if query.value.rows == [] then Ok(None)
    else Ok(Some(Capped(query.value.rows)))
  }

  function Capped<R>(rows: seq<R>): seq<R> {
    if |rows| <= FRAME_CAP_ROWS then rows else rows[..FRAME_CAP_ROWS]
  }

  method ReadFrame<R>(query: Option<Cursor<R>>) returns (r: Result<Option<seq<R>>, ()>)
    ensures r == FrameOf(query)
    ensures r.Ok? && r.value.Some? ==> 0 < |r.value.value| <= FRAME_CAP_ROWS && r.value.value <= query.value.rows
  {
    if query.None? {
      return Err(());
    }
    var cursor := query.value;
    var out: seq<R> := [];
    var i := 0;
    while i < |cursor.rows|
      invariant i <= |cursor.rows| && i < FRAME_CAP_ROWS && out == cursor.rows[..i]
    {
      out := out + [cursor.rows[i]];
      i := i + 1;
      if |out| >= FRAME_CAP_ROWS {
        assert i == FRAME_CAP_ROWS && out == cursor.rows[..i];
        assert i == |cursor.rows| ==> cursor.rows[..i] == cursor.rows;
        assert out == Capped(cursor.rows);
        return Ok(Some(out));
      }
    }
    if cursor.fails {
      return Err(());
    }
    assert cursor.rows[..i] == cursor.rows;
    r := if out == [] then Ok(None) else Ok(Some(out));
  }

  datatype StatementFrame<R> = StatementFrame(op: Op, before: Option<seq<R>>, after: Option<seq<R>>)

  /** The rows a statement will touch, read in the state `db`; a failed snapshot is no snapshot. */
  function BeforeOf<DB, R>(engine: Engine<DB, R>, sql: string, db: DB): Option<seq<R>> {
    if engine.op(sql) == Update || engine.op(sql) == Delete then
      match engine.snapshot(sql, db)
      case None => None
      case Some(query) => (match FrameOf(query) case Ok(frame) => frame case Err(_) => None)
    else None
  }

  predicate TriesReturning(op: Op) {
    op == Insert || op == Update || op == Delete
  }

  function RowCount<R>(frame: Option<seq<R>>): nat {
    if frame.Some? then |frame.value| else 0
  }

  datatype Framed<DB, R> = Framed(conn: Conn<DB>, count: nat, frame: StatementFrame<R>)

  /** The connection after the RETURNING attempt, if there is one. */
  function Tried<DB, R>(engine: Engine<DB, R>, sql: string, conn: Conn<DB>): Conn<DB> {
    if !TriesReturning(engine.op(sql)) then conn
    else
      match engine.returning(sql, conn.Visible()).0
      case None => conn.Ended()
      case Some(db) => conn.With(db)
  }

  /** The rows the RETURNING variant gives in state `db`, when it is tried and succeeds. */
  function Returned<DB, R>(engine: Engine<DB, R>, sql: string, db: DB): Result<Option<seq<R>>, ()> {
    if TriesReturning(engine.op(sql)) then FrameOf(engine.returning(sql, db).1) else Err(())
  }

  /** One statement: its snapshot, then the RETURNING variant, then the plain one if that failed.
      The connection is the one it leaves; with None the statement has failed. */
  function FrameStatement<DB, R>(
    engine: Engine<DB, R>, sql: string, conn: Conn<DB>): (Conn<DB>, Option<Framed<DB, R>>) {
    var op, tried := engine.op(sql), Tried(engine, sql, conn);
    var frame := StatementFrame(op, BeforeOf(engine, sql, conn.Visible()), None);
    match Returned(engine, sql, conn.Visible())
    case Ok(rows) =>
      (tried, Some(Framed(tried, RowCount(rows), if op == Delete then frame else frame.(after := rows))))
    case Err(_) =>
      match ExecPlain(engine, sql, tried)
      case (after, None) => (after, None)
      case (after, Some(count)) => (after, Some(Framed(after, count, frame)))
  }

  /** A batch after its first statements: `failed` once one of them has failed. */
  datatype Progress<DB, R> = Progress(conn: Conn<DB>, total: nat, frames: seq<StatementFrame<R>>, failed: bool)

  function FrameTo<DB, R>(engine: Engine<DB, R>, statements: seq<string>, conn: Conn<DB>, k: nat): Progress<DB, R>
    requires k <= |statements|
  {
    if k == 0 then Progress(conn, 0, [], false)
    else
      var p := FrameTo(engine, statements, conn, k - 1);
      if p.failed then p
      else
        match FrameStatement(engine, statements[k - 1], p.conn)
        case (after, None) => p.(conn := after, failed := true)
        case (_, Some(f)) => Progress(f.conn, p.total + f.count, p.frames + [f.frame], false)
  }

  // ----- the batch -----

  function Lowered(s: string): string {
    seq(|s|, i requires 0 <= i < |s| => TopLevel.Lower(s[i]))
  }

  predicate IsControlStatement(sql: string) {
    var head := Lowered(TrimStart(sql));
    || "begin" <= head || "commit" <= head || "rollback" <= head
    || "end" <= head || "savepoint" <= head || "release" <= head
  }

  predicate Wraps(statements: seq<string>) {
    forall s | s in statements :: !IsControlStatement(s)
  }

  datatype Report<R> = Report(total: nat, frames: seq<StatementFrame<R>>)

  /** The batch: the connection afterwards and the report, None when it failed. */
  function Apply<DB, R>(engine: Engine<DB, R>, statements: seq<string>, conn: Conn<DB>): (Conn<DB>, Option<Report<R>>) {
    var begun := if Wraps(statements) then ExecControl(engine, Begin, conn) else Some(conn);
    if begun.None? then (conn, None)
    else
      var p := FrameTo(engine, statements, begun.value, |statements|);
      var report := Report(p.total, p.frames);
      if !Wraps(statements) then (p.conn, if p.failed then None else Some(report))
      else if p.failed then
        match ExecControl(engine, Rollback, p.conn)
        case None => (p.conn, None)
        case Some(after) => (after, None)
      else
        match ExecControl(engine, Commit, p.conn)
        case None => (p.conn, None)
        case Some(after) => (after, Some(report))
  }

  class Connection<DB, R> {
    const engine: Engine<DB, R>
    var state: Conn<DB>

    constructor (engine: Engine<DB, R>, state: Conn<DB>)
      ensures this.engine == engine && this.state == state
    {
      this.engine := engine;
      this.state := state;
    }

    method Control(control: Control) returns (ok: bool)
      modifies this
      ensures ok <==> ExecControl(engine, control, old(state)).Some?
      ensures state == if ok then ExecControl(engine, control, old(state)).value else old(state)
    {
      var after := ExecControl(engine, control, state);
      ok := after.Some?;
      if ok {
        state := after.value;
      }
    }

    method FrameOne(sql: string) returns (r: Option<Framed<DB, R>>)
      modifies this
      ensures (state, r) == FrameStatement(engine, sql, old(state))
    {
      var op := engine.op(sql);
      var frame: StatementFrame<R> := StatementFrame(op, None, None);
      if op == Update || op == Delete {
        var query := engine.snapshot(sql, state.Visible());
        if query.Some? {
          var snapshot := ReadFrame(query.value);
          if snapshot.Ok? {
            frame := frame.(before := snapshot.value);
          }
        }
      }
      if TriesReturning(op) {
        var (after, query) := engine.returning(sql, state.Visible());
        state := if after.Some? then state.With(after.value) else state.Ended();
        var returned := ReadFrame(query);
        if returned.Ok? {
          if op != Delete {
            frame := frame.(after := returned.value);
          }
          return Some(Framed(state, RowCount(returned.value), frame));
        }
      }
      var (after, count) := ExecPlain(engine, sql, state);
      state := after;
      r := if count.Some? then Some(Framed(state, count.value, frame)) else None;
    }

    method FrameAndApply(statements: seq<string>) returns (r: Option<Report<R>>)
      modifies this
      ensures (state, r) == Apply(engine, statements, old(state))
    {
      hide FrameStatement, IsControlStatement;
      var wrap := Wraps(statements);
      if wrap {
        var begun := Control(Begin);
        if !begun {
          return None;
        }
      }
      ghost var begun := state;
      var total: nat := 0;
      var frames: seq<StatementFrame<R>> := [];
      var failed := false;
      for k := 0 to |statements|
        invariant Progress(state, total, frames, failed) == FrameTo(engine, statements, begun, k)
        invariant !failed
      {
        var framed := FrameOne(statements[k]);
        if framed.None? {
          failed := true;
          FailureStops(engine, statements, begun, k + 1, |statements|);
          break;
        }
        FramedConn(engine, statements[k], FrameTo(engine, statements, begun, k).conn);
        total := total + framed.value.count;
        frames := frames + [framed.value.frame];
      }
      if !wrap {
        return if failed then None else Some(Report(total, frames));
      }
      if failed {
        var _ := Control(Rollback);
        return None;
      }
      var committed := Control(Commit);
      r := if committed then Some(Report(total, frames)) else None;
    }
  }

  lemma {:induction false} FramedConn<DB, R>(engine: Engine<DB, R>, sql: string, conn: Conn<DB>)
    ensures
      var (after, framed) := FrameStatement(engine, sql, conn);
      framed.Some? ==> framed.value.conn == after
  {
  }

  lemma {:induction false} FailureStops<DB, R>(
    engine: Engine<DB, R>, statements: seq<string>, conn: Conn<DB>, k: nat, n: nat)
    requires k <= n <= |statements| && FrameTo(engine, statements, conn, k).failed
    ensures FrameTo(engine, statements, conn, n) == FrameTo(engine, statements, conn, k)
  {
    if k < n {
      FailureStops(engine, statements, conn, k, n - 1);
    }
  }

  // ----- framing is invisible -----

  /** The statement run plainly: the database after it, None when it fails. */
  function PlainOf<DB, R>(engine: Engine<DB, R>, sql: string, db: DB): Option<DB> {
    match engine.write(sql, db)
    case None => None
    case Some((after, _)) => Some(after)
  }

  /** The batch without framing: the database after the first `k` statements, None once one fails. */
  function PlainTo<DB, R>(engine: Engine<DB, R>, statements: seq<string>, db: DB, k: nat): Option<DB>
    requires k <= |statements|
  {
    if k == 0 then Some(db)
    else
      match PlainTo(engine, statements, db, k - 1)
      case None => None
      case Some(before) => PlainOf(engine, statements[k - 1], before)
  }

  /** A RETURNING variant that succeeds has acted as the plain statement.  One that fails has left a
      transaction in which the plain statement does what it would have done before, or, if it ended
      the transaction, the plain statement fails with and without it. */
  ghost predicate Harmless<DB, R>(engine: Engine<DB, R>, sql: string, committed: DB, db: DB) {
    var tried, plain := Tried(engine, sql, Conn(committed, Some(db))), PlainOf(engine, sql, db);
    if Returned(engine, sql, db).Ok? then plain.Some? && tried == Conn(committed, plain)
    else if tried.tx.Some? then PlainOf(engine, sql, tried.tx.value) == plain
    else PlainOf(engine, sql, committed).None? && plain.None?
  }

  /** In particular a variant that fails without effect, or acts as the plain statement. */
  lemma {:induction false} TrustedIsHarmless<DB, R>(engine: Engine<DB, R>, sql: string, committed: DB, db: DB)
    requires
      var tried, plain := Tried(engine, sql, Conn(committed, Some(db))), PlainOf(engine, sql, db);
      if Returned(engine, sql, db).Ok? then plain.Some? && tried == Conn(committed, plain)
      else tried == Conn(committed, Some(db))
    ensures Harmless(engine, sql, committed, db)
  {
  }

  /** The framed statement ends as the plain one does. */
  ghost predicate SameOutcome<DB, R>(engine: Engine<DB, R>, sql: string, committed: DB, db: DB) {
    match (FrameStatement(engine, sql, Conn(committed, Some(db))).1, PlainOf(engine, sql, db))
    case (None, None) => true
    case (Some(f), Some(after)) => f.conn == Conn(committed, Some(after))
    case _ => false
  }

  /** Inside a transaction, one framed write ends as the plain one exactly when it is harmless there. */
  lemma {:induction false} HarmlessExact<DB, R>(engine: Engine<DB, R>, sql: string, committed: DB, db: DB)
    requires engine.control(sql).None?
    ensures SameOutcome(engine, sql, committed, db) <==> Harmless(engine, sql, committed, db)
  {
    hide FrameOf;
  }

  /** No statement is transaction control, in fact or by its text. */
  predicate ControlFree<DB, R>(engine: Engine<DB, R>, statements: seq<string>) {
    Wraps(statements) && forall s | s in statements :: engine.control(s).None?
  }

  /** Statement `i`, if the plain batch reaches it, is harmless where it is reached. */
  ghost predicate HarmlessAt<DB, R>(engine: Engine<DB, R>, statements: seq<string>, db: DB, i: nat)
    requires i < |statements|
  {
    var before := PlainTo(engine, statements, db, i);
    before.Some? ==> Harmless(engine, statements[i], db, before.value)
  }

  ghost predicate HarmlessTo<DB, R>(engine: Engine<DB, R>, statements: seq<string>, db: DB, k: nat)
    requires k <= |statements|
  {
    forall i :: 0 <= i < k ==> HarmlessAt(engine, statements, db, i)
  }

  /** After `k` statements the framed batch, in its transaction, stands where the plain one does. */
  ghost predicate Agrees<DB, R>(engine: Engine<DB, R>, statements: seq<string>, db: DB, k: nat)
    requires k <= |statements|
  {
    var p := FrameTo(engine, statements, Conn(db, Some(db)), k);
    if PlainTo(engine, statements, db, k).None? then p.failed
    else !p.failed && p.conn == Conn(db, PlainTo(engine, statements, db, k))
  }

  ghost predicate AgreesTo<DB, R>(engine: Engine<DB, R>, statements: seq<string>, db: DB, n: nat)
    requires n <= |statements|
  {
    forall k :: 0 <= k <= n ==> Agrees(engine, statements, db, k)
  }

  lemma {:induction false} AgreesNext<DB, R>(engine: Engine<DB, R>, statements: seq<string>, db: DB, k: nat)
    requires k < |statements| && ControlFree(engine, statements) && Agrees(engine, statements, db, k)
    ensures Agrees(engine, statements, db, k + 1) <==> HarmlessAt(engine, statements, db, k)
  {
    hide FrameStatement, PlainOf, Harmless;
    var sql, before := statements[k], PlainTo(engine, statements, db, k);
    assert sql in statements;
    if before.Some? {
      HarmlessExact(engine, sql, db, before.value);
    }
  }

  /** Framing is invisible after every prefix of a batch exactly when every statement the plain batch
      reaches is harmless in the database in which it is reached. */
  lemma {:induction false} AgreesExact<DB, R>(engine: Engine<DB, R>, statements: seq<string>, db: DB, n: nat)
    requires n <= |statements| && ControlFree(engine, statements)
    ensures AgreesTo(engine, statements, db, n) <==> HarmlessTo(engine, statements, db, n)
  {
    if n == 0 {
      assert Agrees(engine, statements, db, 0);
    } else {
      hide Agrees, HarmlessAt;
      AgreesExact(engine, statements, db, n - 1);
      assert AgreesTo(engine, statements, db, n)
        <==> AgreesTo(engine, statements, db, n - 1) && Agrees(engine, statements, db, n);
      assert HarmlessTo(engine, statements, db, n)
        <==> HarmlessTo(engine, statements, db, n - 1) && HarmlessAt(engine, statements, db, n - 1);
      if AgreesTo(engine, statements, db, n - 1) {
        AgreesNext(engine, statements, db, n - 1);
      }
    }
  }

  /** A frame is that of its own statement, read in the state just before it, and is capped. */
  ghost predicate FrameFits<DB, R>(engine: Engine<DB, R>, sql: string, before: DB, frame: StatementFrame<R>) {
    && frame.op == engine.op(sql)
    && frame.before == BeforeOf(engine, sql, before)
    && frame.after == (if engine.op(sql) == Delete || Returned(engine, sql, before).Err? then None
                       else Returned(engine, sql, before).value)
    && RowCount(frame.before) <= FRAME_CAP_ROWS && RowCount(frame.after) <= FRAME_CAP_ROWS
  }

  /** Which frames carry a snapshot: those of an UPDATE or DELETE whose query could be built, started,
      matched a row and did not fail within the cap.  It holds the first rows of that query. */
  lemma {:induction false} BeforeExact<DB, R>(engine: Engine<DB, R>, sql: string, db: DB)
    ensures
      var op, query := engine.op(sql), engine.snapshot(sql, db);
      BeforeOf(engine, sql, db).Some? <==>
        && (op == Update || op == Delete) && query.Some? && query.value.Some?
        && query.value.value.rows != []
        && (!query.value.value.fails || FRAME_CAP_ROWS <= |query.value.value.rows|)
    ensures
      BeforeOf(engine, sql, db).Some? ==>
        var before, rows := BeforeOf(engine, sql, db).value, engine.snapshot(sql, db).value.value.rows;
        before <= rows && |before| == (if |rows| < FRAME_CAP_ROWS then |rows| else FRAME_CAP_ROWS)
  {
  }

  /** Statement `i` is reached, and `frame` is its frame. */
  ghost predicate FitsAt<DB, R>(
    engine: Engine<DB, R>, statements: seq<string>, db: DB, i: nat, frame: StatementFrame<R>)
    requires i < |statements|
  {
    var before := PlainTo(engine, statements, db, i);
    before.Some? && FrameFits(engine, statements[i], before.value, frame)
  }

  /** Frame by frame, one for each of the first statements. */
  ghost predicate FramesFit<DB, R>(
    engine: Engine<DB, R>, statements: seq<string>, db: DB, frames: seq<StatementFrame<R>>) {
    |frames| <= |statements| && forall i :: 0 <= i < |frames| ==> FitsAt(engine, statements, db, i, frames[i])
  }

  /** The rows counted for one statement: the captured ones, or the engine's own count. */
  function CountOf<DB, R>(engine: Engine<DB, R>, sql: string, committed: DB, db: DB): nat {
    if Returned(engine, sql, db).Ok? then RowCount(Returned(engine, sql, db).value)
    else
      match engine.write(sql, Tried(engine, sql, Conn(committed, Some(db))).Visible())
      case None => 0
      case Some((_, count)) => count
  }

  /** The row count reported for the first `k` statements. */
  function CountTo<DB, R>(engine: Engine<DB, R>, statements: seq<string>, db: DB, k: nat): nat
    requires k <= |statements|
  {
    if k == 0 || PlainTo(engine, statements, db, k).None? then 0
    else
      CountTo(engine, statements, db, k - 1)
      + CountOf(engine, statements[k - 1], db, PlainTo(engine, statements, db, k - 1).value)
  }

  lemma {:induction false} FrameOneAgrees<DB, R>(engine: Engine<DB, R>, sql: string, committed: DB, db: DB)
    requires engine.control(sql).None? && Harmless(engine, sql, committed, db)
    ensures
      match FrameStatement(engine, sql, Conn(committed, Some(db)))
      case (_, Some(f)) =>
        && PlainOf(engine, sql, db).Some? && f.conn == Conn(committed, PlainOf(engine, sql, db))
        && FrameFits(engine, sql, db, f.frame) && f.count == CountOf(engine, sql, committed, db)
      case (after, None) => PlainOf(engine, sql, db).None? && after.committed == committed
  {
    HarmlessExact(engine, sql, committed, db);
  }

  lemma FramesFitSnoc<DB, R>(
    engine: Engine<DB, R>, statements: seq<string>, db: DB, frames: seq<StatementFrame<R>>, last: StatementFrame<R>)
    requires FramesFit(engine, statements, db, frames) && |frames| < |statements|
    requires FitsAt(engine, statements, db, |frames|, last)
    ensures FramesFit(engine, statements, db, frames + [last])
  {
    hide FrameFits, PlainTo;
    forall i | 0 <= i < |frames| + 1
      ensures FitsAt(engine, statements, db, i, (frames + [last])[i])
    {
      if i < |frames| {
        assert FitsAt(engine, statements, db, i, frames[i]);
      }
    }
  }

  /** The framed batch and the plain one after `k` statements that succeed in both. */
  ghost predicate InStep<DB, R>(engine: Engine<DB, R>, statements: seq<string>, db: DB, k: nat, p: Progress<DB, R>)
    requires k <= |statements|
  {
    && PlainTo(engine, statements, db, k).Some? && p.conn == Conn(db, PlainTo(engine, statements, db, k)) && !p.failed
    && |p.frames| == k && FramesFit(engine, statements, db, p.frames)
    && p.total == CountTo(engine, statements, db, k)
  }

  lemma {:induction false} FramesFollowPlain<DB, R>(engine: Engine<DB, R>, statements: seq<string>, db: DB, k: nat)
    requires k <= |statements| && ControlFree(engine, statements) && HarmlessTo(engine, statements, db, k)
    ensures
      var p := FrameTo(engine, statements, Conn(db, Some(db)), k);
      if PlainTo(engine, statements, db, k).Some? then InStep(engine, statements, db, k, p)
      else p.failed && p.conn.committed == db
  {
    hide FrameStatement, PlainOf, HarmlessAt, CountOf, FitsAt;
    if 0 < k {
      FramesFollowPlain(engine, statements, db, k - 1);
      if PlainTo(engine, statements, db, k - 1).Some? {
        FrameStep(engine, statements, db, k);
      } else {
        StaysFailed(engine, statements, db, k);
      }
    }
  }

  lemma {:induction false} StaysFailed<DB, R>(engine: Engine<DB, R>, statements: seq<string>, db: DB, k: nat)
    requires 0 < k <= |statements| && PlainTo(engine, statements, db, k - 1).None?
    ensures PlainTo(engine, statements, db, k).None?
    ensures
      var before := FrameTo(engine, statements, Conn(db, Some(db)), k - 1);
      before.failed ==> FrameTo(engine, statements, Conn(db, Some(db)), k) == before
  {
    hide FrameStatement, PlainOf;
  }

  lemma {:induction false} FrameStep<DB, R>(engine: Engine<DB, R>, statements: seq<string>, db: DB, k: nat)
    requires 0 < k <= |statements| && ControlFree(engine, statements) && HarmlessTo(engine, statements, db, k)
    requires InStep(engine, statements, db, k - 1, FrameTo(engine, statements, Conn(db, Some(db)), k - 1))
    ensures
      var p := FrameTo(engine, statements, Conn(db, Some(db)), k);
      if PlainTo(engine, statements, db, k).Some? then InStep(engine, statements, db, k, p)
      else p.failed && p.conn.committed == db
  {
    hide FrameStatement, FrameFits, Harmless, PlainOf, CountOf, FramesFit;
    assert HarmlessAt(engine, statements, db, k - 1);
    var sql, p := statements[k - 1], FrameTo(engine, statements, Conn(db, Some(db)), k - 1);
    assert sql in statements;
    FrameOneAgrees(engine, sql, db, p.conn.tx.value);
    var framed := FrameStatement(engine, sql, p.conn).1;
    if framed.Some? {
      FramesFitSnoc(engine, statements, db, p.frames, framed.value.frame);
    }
  }

  /** A framed batch does to the database what the plain statements do one after the other, all of
      them or none; its frames are one per statement.  A refused COMMIT is reported as a failure and
      leaves the transaction open. */
  lemma {:induction false} FramingIsInvisible<DB, R>(engine: Engine<DB, R>, statements: seq<string>, db: DB)
    requires ControlFree(engine, statements) && HarmlessTo(engine, statements, db, |statements|)
    requires !engine.beginRefused
    ensures
      var (conn, report) := Apply(engine, statements, Conn(db, None));
      match PlainTo(engine, statements, db, |statements|)
      case None => conn == Conn(db, None) && report.None?
      case Some(all) =>
        if engine.commitRefused then conn == Conn(db, Some(all)) && report.None?
        else
          && conn == Conn(all, None) && report.Some? && |report.value.frames| == |statements|
          && FramesFit(engine, statements, db, report.value.frames)
          && report.value.total == CountTo(engine, statements, db, |statements|)
  {
    FramesFollowPlain(engine, statements, db, |statements|);
  }

  /** The trust in RETURNING is needed: a variant that takes effect and then fails while its rows
      are read is followed by the plain statement, and the write happens twice. */
  lemma FailedReturningRunsTwice()
    ensures
      var engine: Engine<int, int> := Engine(
        _ => None, _ => Insert, (_, n) => Some((n + 1, 1)), (_, _) => false,
        (_, n) => (Some(n + 1), Some(Cursor([], true))), (_, _) => None, false, false);
      Apply(engine, ["INSERT"], Conn(0, None)).0 == Conn(2, None) && PlainTo(engine, ["INSERT"], 0, 1) == Some(1)
  {
    var engine: Engine<int, int> := Engine(
      _ => None, _ => Insert, (_, n) => Some((n + 1, 1)), (_, _) => false,
      (_, n) => (Some(n + 1), Some(Cursor([], true))), (_, _) => None, false, false);
    assert Lowered(TrimStart("INSERT"))[0] == 'i';
    assert Wraps(["INSERT"]);
    assert FrameTo(engine, ["INSERT"], Conn(0, Some(0)), 0) == Progress(Conn(0, Some(0)), 0, [], false);
    assert FrameStatement(engine, "INSERT", Conn(0, Some(0))).0 == Conn(0, Some(2));
    assert FrameTo(engine, ["INSERT"], Conn(0, Some(0)), 1).conn == Conn(0, Some(2));
    assert PlainTo(engine, ["INSERT"], 0, 0) == Some(0);
  }

  // ----- recognizing transaction control -----

  /** Whitespace, the word in any letter case, and anything after it. */
  ghost predicate Leads(sql: string, word: string) {
    exists pad, head, rest :: sql == pad + (head + rest) && AllSpace(pad) && TopLevel.SameIgnoringCase(head, word)
  }

  /** The six words that keep a batch from being wrapped. */
  ghost predicate LeadsWithControl(sql: string) {
    || Leads(sql, "begin") || Leads(sql, "commit") || Leads(sql, "rollback")
    || Leads(sql, "end") || Leads(sql, "savepoint") || Leads(sql, "release")
  }

  lemma {:induction false} PrefixIsHead(t: string, word: string)
    requires forall c | c in word :: 'a' <= c <= 'z'
    ensures word <= Lowered(t) ==> |word| <= |t| && TopLevel.SameIgnoringCase(t[..|word|], word)
  {
    if word <= Lowered(t) {
      forall i | 0 <= i < |word|
        ensures TopLevel.Lower(t[..|word|][i]) == TopLevel.Lower(word[i])
      {
        assert Lowered(t)[i] == word[i] && word[i] in word;
      }
    }
  }

  lemma {:induction false} HeadIsPrefix(head: string, rest: string, word: string)
    requires TopLevel.SameIgnoringCase(head, word) && forall c | c in word :: 'a' <= c <= 'z'
    ensures word <= Lowered(head + rest)
    ensures head != [] ==> !IsSpace(head[0])
  {
    forall i | 0 <= i < |word|
      ensures Lowered(head + rest)[i] == word[i]
    {
      assert word[i] in word && (head + rest)[i] == head[i];
    }
    if head != [] {
      assert word[0] in word && TopLevel.Lower(head[0]) == word[0];
    }
  }

  lemma {:induction false} LeadsMeans(sql: string, word: string)
    requires word != [] && forall c | c in word :: 'a' <= c <= 'z'
    ensures word <= Lowered(TrimStart(sql)) <==> Leads(sql, word)
  {
    hide Lowered, TopLevel.SameIgnoringCase, TrimStart, IsSpace;
    var t := TrimStart(sql);
    PrefixIsHead(t, word);
    if word <= Lowered(t) {
      var pad := TrimStartSplits(sql);
      assert sql == pad + (t[..|word|] + t[|word|..]);
    }
    if Leads(sql, word) {
      var pad, head, rest :|
        sql == pad + (head + rest) && AllSpace(pad) && TopLevel.SameIgnoringCase(head, word);
      SameLength(head, word);
      HeadIsPrefix(head, rest, word);
      TrimStartOfPadded(pad, head + rest);
    }
  }

  lemma SameLength(a: string, b: string)
    requires TopLevel.SameIgnoringCase(a, b)
    ensures |a| == |b|
  {
  }

  lemma {:induction false} ControlTestMeaning(sql: string)
    ensures IsControlStatement(sql) <==> LeadsWithControl(sql)
  {
    hide Leads, Lowered;
    LeadsMeans(sql, "begin");
    LeadsMeans(sql, "commit");
    LeadsMeans(sql, "rollback");
    LeadsMeans(sql, "end");
    LeadsMeans(sql, "savepoint");
    LeadsMeans(sql, "release");
  }

  /** A batch none of whose statements starts with one of the six words is wrapped: it begins, and
      ends in a COMMIT or a ROLLBACK, inside a transaction of its own.  Any other batch runs statement
      by statement on the connection as it is, and is reported without a COMMIT. */
  lemma {:induction false} WrapExact<DB, R>(engine: Engine<DB, R>, statements: seq<string>, conn: Conn<DB>)
    ensures Wraps(statements) <==> forall s | s in statements :: !LeadsWithControl(s)
    ensures
      (exists s | s in statements :: LeadsWithControl(s)) ==>
        var p := FrameTo(engine, statements, conn, |statements|);
        Apply(engine, statements, conn) == (p.conn, if p.failed then None else Some(Report(p.total, p.frames)))
    ensures
      (forall s | s in statements :: !LeadsWithControl(s)) ==>
        && (conn.tx.Some? || engine.beginRefused ==> Apply(engine, statements, conn) == (conn, None))
        && (conn.tx.None? && !engine.beginRefused ==>
              var p := FrameTo(engine, statements, Conn(conn.committed, Some(conn.committed)), |statements|);
              Apply(engine, statements, conn) ==
                if p.failed then (p.conn.Ended(), None)
                else if p.conn.tx.None? || engine.commitRefused then (p.conn, None)
                else (Conn(p.conn.tx.value, None), Some(Report(p.total, p.frames))))
  {
    hide IsControlStatement, LeadsWithControl, FrameTo;
    forall s | s in statements
      ensures IsControlStatement(s) <==> LeadsWithControl(s)
    {
      ControlTestMeaning(s);
    }
  }

  predicate LeadsWithComment(sql: string) {
    "--" <= TrimStart(sql) || "/*" <= TrimStart(sql)
  }

  /** The test does not look behind a leading comment, which the splitter keeps: it finds the statements
      that start with a control word once comments are stripped, exactly when there is no such comment
      or no such word behind it. */
  lemma {:induction false} ControlTestExact(sql: string)
    ensures (IsControlStatement(sql) <==> LeadsWithControl(Comments.Strip(sql)))
            <==> !LeadsWithComment(sql) || !LeadsWithControl(Comments.Strip(sql))
  {
    hide LeadsWithControl;
    var t := TrimStart(sql);
    ControlTestMeaning(Comments.Strip(sql));
    Comments.TrimStartTwice(sql);
    if LeadsWithComment(sql) {
      assert Lowered(t)[0] == t[0];
    } else {
      assert Comments.Strip(sql) == t;
    }
  }

  /** The rest of a batch is the batch of the rest. */
  lemma {:induction false} FrameSplits<DB, R>(
    engine: Engine<DB, R>, statements: seq<string>, conn: Conn<DB>, k: nat, j: nat)
    requires k + j <= |statements| && !FrameTo(engine, statements, conn, k).failed
    ensures
      var all, rest := FrameTo(engine, statements, conn, k + j),
                       FrameTo(engine, statements[k..], FrameTo(engine, statements, conn, k).conn, j);
      var first := FrameTo(engine, statements, conn, k);
      && all.conn == rest.conn && all.failed == rest.failed
      && all.total == first.total + rest.total && all.frames == first.frames + rest.frames
  {
    hide FrameStatement;
    if 0 < j {
      FrameSplits(engine, statements, conn, k, j - 1);
      assert statements[k..][j - 1] == statements[k + j - 1];
    }
  }

  /** Outside a transaction statements that are not control stay outside. */
  lemma {:induction false} StaysOutside<DB, R>(engine: Engine<DB, R>, statements: seq<string>, db: DB, j: nat)
    requires j <= |statements| && forall s | s in statements :: engine.control(s).None?
    ensures FrameTo(engine, statements, Conn(db, None), j).conn.tx.None?
  {
    if 0 < j {
      StaysOutside(engine, statements, db, j - 1);
      assert statements[j - 1] in statements;
    }
  }

  /** A wrapped batch whose transaction is over after `k + 1` statements: what has happened so far
      stays, the statements after it run one by one outside any transaction, and the batch is reported
      as failed whatever they do. */
  lemma {:induction false} RestEscapes<DB, R>(engine: Engine<DB, R>, statements: seq<string>, db: DB, k: nat)
    requires Wraps(statements) && k < |statements| && !engine.beginRefused
    requires
      var next := FrameTo(engine, statements, Conn(db, Some(db)), k + 1);
      !next.failed && next.conn.tx.None?
    requires forall s | s in statements[k + 1..] :: engine.control(s).None?
    ensures
      var next := FrameTo(engine, statements, Conn(db, Some(db)), k + 1);
      var rest := FrameTo(engine, statements[k + 1..], next.conn, |statements| - k - 1);
      Apply(engine, statements, Conn(db, None)) == (rest.conn, None) && rest.conn.tx.None?
  {
    hide FrameTo, FrameStatement, IsControlStatement;
    var next := FrameTo(engine, statements, Conn(db, Some(db)), k + 1);
    FrameSplits(engine, statements, Conn(db, Some(db)), k + 1, |statements| - k - 1);
    StaysOutside(engine, statements[k + 1..], next.conn.committed, |statements| - k - 1);
  }

  /** Statement `k` is reached, inside the transaction. */
  predicate Reached<DB, R>(engine: Engine<DB, R>, statements: seq<string>, db: DB, k: nat)
    requires k < |statements|
  {
    var p := FrameTo(engine, statements, Conn(db, Some(db)), k);
    !p.failed && p.conn.tx.Some?
  }

  /** The engine takes the statement as this control statement, and it is not tried with RETURNING. */
  predicate TakesAs<DB, R>(engine: Engine<DB, R>, sql: string, control: Control) {
    engine.control(sql) == Some(control) && !TriesReturning(engine.op(sql))
  }

  lemma {:induction false} ControlNext<DB, R>(
    engine: Engine<DB, R>, statements: seq<string>, db: DB, k: nat, control: Control)
    requires k < |statements| && Reached(engine, statements, db, k) && TakesAs(engine, statements[k], control)
    requires ExecControl(engine, control, FrameTo(engine, statements, Conn(db, Some(db)), k).conn).Some?
    ensures
      var next := FrameTo(engine, statements, Conn(db, Some(db)), k + 1);
      !next.failed
      && Some(next.conn) == ExecControl(engine, control, FrameTo(engine, statements, Conn(db, Some(db)), k).conn)
  {
    hide FrameOf, BeforeOf, ExecControl;
  }

  /** What the test for control statements misses: in a wrapped batch, a COMMIT it does not see ends the
      transaction where it is reached.  What came before it stays although the batch is reported as
      failed. */
  lemma {:induction false} CommitEscapes<DB, R>(engine: Engine<DB, R>, statements: seq<string>, db: DB, k: nat)
    requires Wraps(statements) && k < |statements| && !engine.beginRefused && !engine.commitRefused
    requires Reached(engine, statements, db, k) && TakesAs(engine, statements[k], Commit)
    requires forall s | s in statements[k + 1..] :: engine.control(s).None?
    ensures
      var kept := FrameTo(engine, statements, Conn(db, Some(db)), k).conn.tx.value;
      var rest := FrameTo(engine, statements[k + 1..], Conn(kept, None), |statements| - k - 1);
      Apply(engine, statements, Conn(db, None)) == (rest.conn, None) && rest.conn.tx.None?
  {
    hide FrameTo, FrameStatement, IsControlStatement, Apply;
    ControlNext(engine, statements, db, k, Commit);
    RestEscapes(engine, statements, db, k);
  }

  /** And a ROLLBACK it does not see loses what came before, while the statements after it stay. */
  lemma {:induction false} RollbackEscapes<DB, R>(engine: Engine<DB, R>, statements: seq<string>, db: DB, k: nat)
    requires Wraps(statements) && k < |statements| && !engine.beginRefused
    requires Reached(engine, statements, db, k) && TakesAs(engine, statements[k], Rollback)
    requires forall s | s in statements[k + 1..] :: engine.control(s).None?
    ensures
      var lost := FrameTo(engine, statements, Conn(db, Some(db)), k).conn.committed;
      var rest := FrameTo(engine, statements[k + 1..], Conn(lost, None), |statements| - k - 1);
      Apply(engine, statements, Conn(db, None)) == (rest.conn, None) && rest.conn.tx.None?
  {
    hide FrameTo, FrameStatement, IsControlStatement, Apply;
    ControlNext(engine, statements, db, k, Rollback);
    RestEscapes(engine, statements, db, k);
  }

  /** Until a statement ends the transaction, the committed database is the one it began from. */
  lemma {:induction false} StaysInside<DB, R>(engine: Engine<DB, R>, statements: seq<string>, db: DB, k: nat)
    requires k <= |statements| && forall s | s in statements[..k] :: engine.control(s).None?
    requires forall j :: 0 <= j <= k ==> FrameTo(engine, statements, Conn(db, Some(db)), j).conn.tx.Some?
    ensures FrameTo(engine, statements, Conn(db, Some(db)), k).conn.committed == db
  {
    hide FrameOf, BeforeOf;
    if 0 < k {
      StaysInside(engine, statements, db, k - 1);
      assert statements[..k][k - 1] == statements[k - 1];
      assert FrameTo(engine, statements, Conn(db, Some(db)), k - 1).conn.tx.Some?;
    }
  }

  lemma {:induction false} AbortNext<DB, R>(engine: Engine<DB, R>, statements: seq<string>, db: DB, k: nat)
    requires k < |statements| && Reached(engine, statements, db, k) && engine.control(statements[k]).None?
    requires
      var sql, open := statements[k], FrameTo(engine, statements, Conn(db, Some(db)), k).conn;
      && TriesReturning(engine.op(sql)) && Returned(engine, sql, open.Visible()).Err?
      && engine.returning(sql, open.Visible()).0.None? && PlainOf(engine, sql, open.committed).Some?
    ensures
      var open := FrameTo(engine, statements, Conn(db, Some(db)), k).conn;
      var next := FrameTo(engine, statements, Conn(db, Some(db)), k + 1);
      !next.failed && next.conn == Conn(PlainOf(engine, statements[k], open.committed).value, None)
  {
    hide FrameOf, BeforeOf;
  }

  /** Framing shows, too, when a failing RETURNING attempt ends the transaction: the statement is then
      run plainly outside it.  The writes before it are lost, its own stays, and the batch is reported
      as failed. */
  lemma {:induction false} AbortEscapes<DB, R>(engine: Engine<DB, R>, statements: seq<string>, db: DB, k: nat)
    requires ControlFree(engine, statements) && k < |statements| && !engine.beginRefused
    requires forall j :: 0 <= j <= k ==> Reached(engine, statements, db, j)
    requires
      var sql, open := statements[k], FrameTo(engine, statements, Conn(db, Some(db)), k).conn;
      && TriesReturning(engine.op(sql)) && Returned(engine, sql, open.Visible()).Err?
      && engine.returning(sql, open.Visible()).0.None? && PlainOf(engine, sql, db).Some?
    ensures
      var alone := PlainOf(engine, statements[k], db).value;
      var rest := FrameTo(engine, statements[k + 1..], Conn(alone, None), |statements| - k - 1);
      Apply(engine, statements, Conn(db, None)) == (rest.conn, None) && rest.conn.tx.None?
  {
    hide FrameOf, BeforeOf, IsControlStatement, Apply, FrameTo;
    forall j | 0 <= j <= k
      ensures FrameTo(engine, statements, Conn(db, Some(db)), j).conn.tx.Some?
    {
      assert Reached(engine, statements, db, j);
    }
    assert forall s | s in statements[..k] + statements[k + 1..] :: s in statements;
    StaysInside(engine, statements, db, k);
    AbortNext(engine, statements, db, k);
    RestEscapes(engine, statements, db, k);
  }

  /** For instance any write that is framed, followed by a commented COMMIT: reported as failed, but
      the write stays. */
  lemma {:induction false} CommentedCommitEscapes<DB, R>(engine: Engine<DB, R>, write: string, db: DB)
    requires engine.control("/**/COMMIT") == Some(Commit) && engine.op("/**/COMMIT") == Unclassified
    requires engine.control(write).None? && !IsControlStatement(write)
    requires
      var (open, framed) := FrameStatement(engine, write, Conn(db, Some(db)));
      framed.Some? && open.tx.Some?
    requires !engine.beginRefused && !engine.commitRefused
    ensures
      var after := FrameStatement(engine, write, Conn(db, Some(db))).0.tx.value;
      Apply(engine, [write, "/**/COMMIT"], Conn(db, None)) == (Conn(after, None), None)
  {
    var statements := [write, "/**/COMMIT"];
    assert Lowered(TrimStart("/**/COMMIT"))[0] == '/';
    assert Wraps(statements);
    assert FrameTo(engine, statements, Conn(db, Some(db)), 0) == Progress(Conn(db, Some(db)), 0, [], false);
    var framed := FrameStatement(engine, write, Conn(db, Some(db)));
    assert framed.0 == framed.1.value.conn && framed.0.tx.Some?;
    assert FrameTo(engine, statements, Conn(db, Some(db)), 1).conn == framed.0;
    assert statements[2..] == [];
    CommitEscapes(engine, statements, db, 1);
  }

  // ----- a batch with its own transaction -----

  /** The first statements of a batch run as they would alone. */
  lemma {:induction false} FrameOfPrefix<DB, R>(
    engine: Engine<DB, R>, statements: seq<string>, more: seq<string>, conn: Conn<DB>, k: nat)
    requires k <= |statements|
    ensures FrameTo(engine, statements + more, conn, k) == FrameTo(engine, statements, conn, k)
  {
    hide FrameStatement;
    if 0 < k {
      FrameOfPrefix(engine, statements, more, conn, k - 1);
      assert (statements + more)[k - 1] == statements[k - 1];
    }
  }

  lemma {:induction false} ControlFrames<DB, R>(engine: Engine<DB, R>, sql: string, control: Control, conn: Conn<DB>)
    requires TakesAs(engine, sql, control)
    ensures
      FrameStatement(engine, sql, conn) ==
        match ExecControl(engine, control, conn)
        case None => (conn, None)
        case Some(after) => (after, Some(Framed(after, 0, StatementFrame(engine.op(sql), None, None))))
  {
    hide FrameOf, ExecControl;
  }

  lemma {:induction false} OwnTransactionRuns<DB, R>(
    engine: Engine<DB, R>, begin: string, writes: seq<string>, end: string, control: Control, db: DB)
    requires TakesAs(engine, begin, Begin) && TakesAs(engine, end, control) && control != Begin
    requires !engine.beginRefused
    ensures
      var n, bare := |writes|, (sql: string) => StatementFrame(engine.op(sql), None, None);
      var p, q := FrameTo(engine, writes, Conn(db, Some(db)), n),
                  FrameTo(engine, [begin] + writes + [end], Conn(db, None), n + 2);
      if p.failed || p.conn.tx.None? || (control == Commit && engine.commitRefused) then
        q.failed && q.conn == p.conn
      else
        q == Progress(Conn(if control == Commit then p.conn.tx.value else p.conn.committed, None),
                      p.total, [bare(begin)] + p.frames + [bare(end)], false)
  {
    hide FrameStatement, TakesAs;
    var n, all := |writes|, [begin] + writes + [end];
    assert FrameTo(engine, all, Conn(db, None), 0) == Progress(Conn(db, None), 0, [], false);
    ControlFrames(engine, begin, Begin, Conn(db, None));
    var inside := FrameTo(engine, all, Conn(db, None), 1);
    assert inside == Progress(Conn(db, Some(db)), 0, [StatementFrame(engine.op(begin), None, None)], false);
    assert all[1..] == writes + [end];
    FrameOfPrefix(engine, writes, [end], Conn(db, Some(db)), n);
    FrameSplits(engine, all, Conn(db, None), 1, n);
    FrameSplits(engine, all, Conn(db, None), 1, n + 1);
    var p := FrameTo(engine, writes, Conn(db, Some(db)), n);
    ControlFrames(engine, end, control, p.conn);
    assert (writes + [end])[n] == end;
    assert FrameTo(engine, writes + [end], Conn(db, Some(db)), n) == p;
  }

  /** Statements bracketed by two that the engine takes as BEGIN and as COMMIT or ROLLBACK, the first of
      which starts with the word: nothing is wrapped around them.  If all succeed the last one ends the
      transaction and the report has one frame per statement; if one fails, the last included, the batch
      stops there, reports failure and leaves the connection as that statement left it. */
  lemma {:induction false} OwnTransaction<DB, R>(
    engine: Engine<DB, R>, begin: string, writes: seq<string>, end: string, control: Control, db: DB)
    requires Leads(begin, "begin") && TakesAs(engine, begin, Begin)
    requires TakesAs(engine, end, control) && control != Begin
    ensures
      var n, bare := |writes|, (sql: string) => StatementFrame(engine.op(sql), None, None);
      var p := FrameTo(engine, writes, Conn(db, Some(db)), n);
      Apply(engine, [begin] + writes + [end], Conn(db, None)) ==
        if engine.beginRefused then (Conn(db, None), None)
        else if p.failed || p.conn.tx.None? || (control == Commit && engine.commitRefused) then (p.conn, None)
        else
          (Conn(if control == Commit then p.conn.tx.value else p.conn.committed, None),
           Some(Report(p.total, [bare(begin)] + p.frames + [bare(end)])))
  {
    var n, all := |writes|, [begin] + writes + [end];
    assert begin in all && LeadsWithControl(begin);
    hide FrameStatement, LeadsWithControl, Leads, TakesAs, Apply;
    WrapExact(engine, all, Conn(db, None));
    ControlFrames(engine, begin, Begin, Conn(db, None));
    assert FrameTo(engine, all, Conn(db, None), 0) == Progress(Conn(db, None), 0, [], false);
    var first := FrameTo(engine, all, Conn(db, None), 1);
    if engine.beginRefused {
      assert first == Progress(Conn(db, None), 0, [], true);
      FailureStops(engine, all, Conn(db, None), 1, n + 2);
    } else {
      hide FrameTo;
      OwnTransactionRuns(engine, begin, writes, end, control, db);
    }
  }

  /** So a caller's own BEGIN and COMMIT around writes that are harmless to frame give the database, the
      row count and the frames that the wrapper would have given them; only a failing write is not
      rolled back. */
  lemma {:induction false} OwnTransactionIsPlain<DB, R>(
    engine: Engine<DB, R>, begin: string, writes: seq<string>, end: string, db: DB)
    requires Leads(begin, "begin") && TakesAs(engine, begin, Begin) && TakesAs(engine, end, Commit)
    requires ControlFree(engine, writes) && HarmlessTo(engine, writes, db, |writes|) && !engine.beginRefused
    ensures
      var n, (conn, report) := |writes|, Apply(engine, [begin] + writes + [end], Conn(db, None));
      match PlainTo(engine, writes, db, n)
      case None => conn.committed == db && report.None?
      case Some(all) =>
        if engine.commitRefused then conn == Conn(db, Some(all)) && report.None?
        else
          && conn == Conn(all, None) && report.Some? && |report.value.frames| == n + 2
          && FramesFit(engine, writes, db, report.value.frames[1..n + 1])
          && report.value.total == CountTo(engine, writes, db, n)
  {
    hide Apply, FrameTo, PlainTo, TakesAs, Leads, FramesFit, HarmlessTo, ControlFree;
    FramesFollowPlain(engine, writes, db, |writes|);
    OwnTransaction(engine, begin, writes, end, Commit, db);
    var p := FrameTo(engine, writes, Conn(db, Some(db)), |writes|);
    var first: StatementFrame<R>, last: StatementFrame<R> :=
      StatementFrame(engine.op(begin), None, None), StatementFrame(engine.op(end), None, None);
    assert |p.frames| == |writes| ==> ([first] + p.frames + [last])[1..|writes| + 1] == p.frames;
  }

  /** The connection a write that fails leaves behind: what its RETURNING attempt left, unless that or
      the failure itself ended the transaction. */
  lemma {:induction false} FailedWrite<DB, R>(engine: Engine<DB, R>, sql: string, committed: DB, db: DB)
    requires engine.control(sql).None? && FrameStatement(engine, sql, Conn(committed, Some(db))).1.None?
    ensures
      var tried := Tried(engine, sql, Conn(committed, Some(db)));
      FrameStatement(engine, sql, Conn(committed, Some(db))).0
      == if tried.tx.None? || engine.writeAborts(sql, tried.tx.value) then Conn(committed, None) else tried
  {
    hide FrameOf, BeforeOf;
  }

  /** A write that fails in a caller's own transaction leaves that transaction open, with the writes
      before it, unless the engine has ended it. */
  lemma {:induction false} OwnTransactionLeft<DB, R>(
    engine: Engine<DB, R>, begin: string, writes: seq<string>, end: string, db: DB, k: nat)
    requires Leads(begin, "begin") && TakesAs(engine, begin, Begin) && TakesAs(engine, end, Commit)
    requires ControlFree(engine, writes) && HarmlessTo(engine, writes, db, |writes|) && !engine.beginRefused
    requires k < |writes| && PlainTo(engine, writes, db, k).Some? && PlainTo(engine, writes, db, k + 1).None?
    ensures
      var tried := Tried(engine, writes[k], Conn(db, PlainTo(engine, writes, db, k)));
      Apply(engine, [begin] + writes + [end], Conn(db, None)) ==
        (if tried.tx.None? || engine.writeAborts(writes[k], tried.tx.value) then Conn(db, None) else tried, None)
  {
    hide Apply, PlainTo, TakesAs, Leads, FramesFit, Wraps, Tried, FrameStatement, CountTo;
    FramesFollowPlain(engine, writes, db, k);
    FramesFollowPlain(engine, writes, db, k + 1);
    assert writes[k] in writes;
    FailedWrite(engine, writes[k], db, PlainTo(engine, writes, db, k).value);
    FailureStops(engine, writes, Conn(db, Some(db)), k + 1, |writes|);
    OwnTransaction(engine, begin, writes, end, Commit, db);
  }

  // ----- a swallowed clause -----

  /** A RETURNING clause the scanner does not come to in Normal is no clause: what runs is the plain
      statement, and it gives no rows. */
  ghost predicate ReadsClauses<DB(!new), R>(engine: Engine<DB, R>) {
    forall sql, db :: SplitSql.Scan(SplitSql.Normal, sql) != Some(SplitSql.Normal) ==>
      engine.returning(sql, db) ==
        match engine.write(sql, db)
        case None => (Some(db), None)
        case Some((after, _)) => (Some(after), Some(Cursor([], false)))
  }

  /** A statement that swallows the clause takes effect and leaves no frame, and whatever the engine
      would count for it, no row is counted. */
  lemma {:induction false} SwallowedCountsNothing<DB(!new), R>(engine: Engine<DB, R>, sql: string, conn: Conn<DB>)
    requires ReadsClauses(engine) && SplitSql.Scan(SplitSql.Normal, sql) != Some(SplitSql.Normal)
    requires TriesReturning(engine.op(sql)) && PlainOf(engine, sql, conn.Visible()).Some?
    ensures
      var after := conn.With(PlainOf(engine, sql, conn.Visible()).value);
      match FrameStatement(engine, sql, conn)
      case (left, Some(framed)) => left == framed.conn == after && framed.count == 0 && framed.frame.after.None?
      case (_, None) => false
  {
    hide BeforeOf, SplitSql.Scan;
  }
}
