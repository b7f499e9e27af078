/**
 Every interleaving of the webhook service: dispatches, bursts that end in a queued file, retry
 passes working from what they read at their start, purges, failing disk writes and crashes.
 What is on disk and the registered hooks survive a restart; tasks and passes do not.
 */
module DeliveryRuns {
  import opened Wrappers
  import opened Webhooks

  /** A dispatched delivery whose burst has not ended yet, with a number of its own. */
  datatype Flight = Flight(id: nat, dbId: string, event: string, hook: Webhook)

  /** A queued delivery as a pass has read it. */
  datatype Copy = Copy(file: FileName, d: Pending)

  /** A pass visits its copies in turn; `outcome` tells how the tries for the first one ended when
      its file has not been updated yet. */
  datatype Pass = Idle | Running(limits: Limits, queue: seq<Copy>, outcome: Option<bool>)

  /** `used` are the file names ever given out, which are never given out again; `launched` is the
      number of deliveries ever dispatched. */
  datatype State = State(hooks: map<string, seq<Webhook>>, files: map<FileName, Pending>, used: set<FileName>,
                         flying: seq<Flight>, launched: nat, pass: Pass)

  const Start := State(map[], map[], {}, [], 0, Idle)

  datatype Event =
    | AddHook(dbId: string, hook: Webhook)
    | Dispatch(dbId: string, event: string)
    | Landed(flight: nat, tries: nat, delivered: bool, file: FileName, now: int, diskOk: bool)
    | PassStart(limits: Limits, listing: seq<FileName>)
    | Visit(now: int, tries: nat, delivered: bool, diskOk: bool)
    | Finish(diskOk: bool)
    | RemoveHook(dbId: string, hookId: string)
    | RemoveAll(dbId: string)
    | Restart

  /** A burst of a hook ends after `tries` tries. */
  predicate BurstEnds(hook: Webhook, tries: nat, delivered: bool) {
    1 <= tries <= hook.BurstAttempts() && (!delivered ==> tries == hook.BurstAttempts())
  }

  predicate Visiting(st: State) {
    st.pass.Running? && st.pass.queue != []
  }

  predicate Drops(st: State, now: int)
    requires Visiting(st)
  {
    ShouldDrop(st.pass.queue[0].d, st.pass.limits, now)
  }

  predicate Enabled(st: State, e: Event) {
    match e
    case Landed(flight, tries, delivered, file, _, _) =>
      flight < |st.flying| && BurstEnds(st.flying[flight].hook, tries, delivered) && file !in st.used
    case PassStart(_, listing) =>
      && !Visiting(st) && (forall f | f in listing :: f in st.files)
      && forall i, j :: 0 <= i < j < |listing| ==> listing[i] != listing[j]
    case Visit(now, tries, delivered, _) =>
      Visiting(st) && st.pass.outcome.None? && (Drops(st, now) || BurstEnds(st.pass.queue[0].d.hook, tries, delivered))
    case Finish(_) => Visiting(st) && st.pass.outcome.Some?
    case _ => true
  }

  /** One delivery for each of the hooks that the event is for, numbered from `id`. */
  function Receivers(hooks: seq<Webhook>, dbId: string, event: string, id: nat): seq<Flight> {
    if hooks == [] then []
    else if hooks[0].Matches(event) then
      [Flight(id, dbId, event, hooks[0])] + Receivers(hooks[1..], dbId, event, id + 1)
    else Receivers(hooks[1..], dbId, event, id)
  }

  function Copies(files: map<FileName, Pending>, listing: seq<FileName>): seq<Copy>
    requires forall f | f in listing :: f in files
  {
    seq(|listing|, i requires 0 <= i < |listing| => Copy(listing[i], files[listing[i]]))
  }

  function Retained(hooks: seq<Webhook>, hookId: string): seq<Webhook> {
    if hooks == [] then []
    else (if hooks[0].id != hookId then [hooks[0]] else []) + Retained(hooks[1..], hookId)
  }

  function HooksOf(st: State, dbId: string): seq<Webhook> {
    if dbId in st.hooks then st.hooks[dbId] else []
  }

  /** The first copy of the pass is dealt with. */
  function NextCopy(st: State): State
    requires Visiting(st)
  {
    st.(pass := Running(st.pass.limits, st.pass.queue[1..], None))
  }

  function Do(st: State, e: Event): State
    requires Enabled(st, e)
  {
    match e
    case AddHook(dbId, hook) => st.(hooks := st.hooks[dbId := HooksOf(st, dbId) + [hook]])
    case Dispatch(dbId, event) =>
      var receivers := Receivers(HooksOf(st, dbId), dbId, event, st.launched);
      st.(flying := st.flying + receivers, launched := st.launched + |receivers|)
    case Landed(flight, _, delivered, file, now, diskOk) =>
      var f := st.flying[flight];
      var landed := st.(flying := st.flying[..flight] + st.flying[flight + 1..]);
      if delivered || !diskOk then landed
      else landed.(files := st.files[file := NewPending(f.dbId, f.event, f.hook, now)], used := st.used + {file})
    case PassStart(limits, listing) => st.(pass := Running(limits, Copies(st.files, listing), None))
    case Visit(now, _, delivered, diskOk) =>
      var file := st.pass.queue[0].file;
      if Drops(st, now) then NextCopy(if diskOk then st.(files := st.files - {file}) else st)
      else st.(pass := st.pass.(outcome := Some(delivered)))
    case Finish(diskOk) =>
      var copy := st.pass.queue[0];
      NextCopy(if !diskOk then st
               else if st.pass.outcome == Some(true) then st.(files := st.files - {copy.file})
               else st.(files := st.files[copy.file := copy.d.(attempts := copy.d.attempts + 1)]))
    case RemoveHook(dbId, hookId) =>
      var rest := Retained(HooksOf(st, dbId), hookId);
      if |rest| == |HooksOf(st, dbId)| then st
      else st.(hooks := st.hooks[dbId := rest], files := Purged(st.files, dbId, Some(hookId)))
    case RemoveAll(dbId) =>
      if dbId in st.hooks then st.(hooks := st.hooks - {dbId}, files := Purged(st.files, dbId, None)) else st
    case Restart => st.(flying := [], pass := Idle)
  }

  function Step(st: State, e: Event): State {
    if Enabled(st, e) then Do(st, e) else st
  }

  /** The state after the events; one that is not enabled when its turn comes does nothing. */
  function Run(events: seq<Event>): State {
    if events == [] then Start else Step(Run(events[..|events| - 1]), events[|events| - 1])
  }

  // ----- what every run keeps -----

  /** Copies are of different files, of names given out, and agree with the file while it exists. */
  ghost predicate Consistent(st: State) {
    && st.files.Keys <= st.used
    && (st.pass.Running? ==>
          && (forall i :: 0 <= i < |st.pass.queue| ==> st.pass.queue[i].file in st.used)
          && (forall i :: 0 <= i < |st.pass.queue| && st.pass.queue[i].file in st.files
                ==> st.files[st.pass.queue[i].file] == st.pass.queue[i].d)
          && (forall i, j :: 0 <= i < j < |st.pass.queue| ==> st.pass.queue[i].file != st.pass.queue[j].file))
  }

  lemma LandedConsistent(st: State, e: Event)
    requires Consistent(st) && e.Landed? && Enabled(st, e)
    ensures Consistent(Do(st, e))
  {
  }

  lemma StartConsistent(st: State, e: Event)
    requires Consistent(st) && e.PassStart? && Enabled(st, e)
    ensures Consistent(Do(st, e))
  {
    assert forall i :: 0 <= i < |e.listing| ==> e.listing[i] in st.files;
  }

  lemma VisitConsistent(st: State, e: Event)
    requires Consistent(st) && e.Visit? && Enabled(st, e)
    ensures Consistent(Do(st, e))
  {
  }

  lemma FinishConsistent(st: State, e: Event)
    requires Consistent(st) && e.Finish? && Enabled(st, e)
    ensures Consistent(Do(st, e))
  {
  }

  lemma OtherConsistent(st: State, e: Event)
    requires Consistent(st) && !e.Landed? && !e.PassStart? && !e.Visit? && !e.Finish?
    ensures Consistent(Step(st, e))
  {
  }

  lemma StepConsistent(st: State, e: Event)
    requires Consistent(st)
    ensures Consistent(Step(st, e))
  {
    hide Consistent, Do;
    if Enabled(st, e) {
      match e
      case Landed(_, _, _, _, _, _) => LandedConsistent(st, e);
      case PassStart(_, _) => StartConsistent(st, e);
      case Visit(_, _, _, _) => VisitConsistent(st, e);
      case Finish(_) => FinishConsistent(st, e);
      case _ => OtherConsistent(st, e);
    }
  }

  lemma {:induction false} RunConsistent(events: seq<Event>)
    ensures Consistent(Run(events))
  {
    if events != [] {
      RunConsistent(events[..|events| - 1]);
      StepConsistent(Run(events[..|events| - 1]), events[|events| - 1]);
    }
  }

  // ----- no silent loss -----

  /** The pass drops the file, which has passed its attempts or age limit. */
  predicate Expires(st: State, e: Event, f: FileName) {
    && e.Visit? && Visiting(st) && st.pass.queue[0].file == f
    && f in st.files && ShouldDrop(st.files[f], st.pass.limits, e.now)
  }

  /** A try for this delivery is accepted by its receiver. */
  predicate Accepts(st: State, e: Event, f: FileName) {
    e.Visit? && Enabled(st, e) && st.pass.queue[0].file == f && !Drops(st, e.now) && e.delivered
  }

  predicate DatabaseRemoved(st: State, e: Event, f: FileName) {
    e.RemoveAll? && f in st.files && st.files[f].dbId == e.dbId
  }

  /** Another webhook of the same database is removed. */
  predicate NeighbourRemoved(st: State, e: Event, f: FileName) {
    e.RemoveHook? && f in st.files && st.files[f].dbId == e.dbId && st.files[f].hook.id != e.hookId
  }

  ghost predicate AcceptedBefore(events: seq<Event>, n: nat, f: FileName)
    requires n <= |events|
  {
    exists k :: 0 <= k < n && Accepts(Run(events[..k]), events[k], f)
  }

  /** Why a file is gone after event `j`. */
  ghost predicate GoneFor(events: seq<Event>, j: nat, f: FileName)
    requires j < |events|
  {
    var st, e := Run(events[..j]), events[j];
    Expires(st, e, f) || AcceptedBefore(events, j, f) || DatabaseRemoved(st, e, f) || NeighbourRemoved(st, e, f)
  }

  /** Event `j` is the one that takes the file away. */
  predicate RemovedAt(events: seq<Event>, j: nat, f: FileName)
    requires j < |events|
  {
    f in Run(events[..j]).files && f !in Run(events[..j + 1]).files
  }

  lemma StepRemoves(st: State, e: Event, f: FileName)
    requires Consistent(st) && f in st.files && f !in Step(st, e).files
    ensures Expires(st, e, f) || DatabaseRemoved(st, e, f) || NeighbourRemoved(st, e, f)
            || (e.Finish? && Visiting(st) && st.pass.outcome == Some(true) && st.pass.queue[0].file == f)
  {
  }

  /** A pass that has recorded a delivery has had it accepted. */
  lemma {:induction false} OutcomeWasAccepted(events: seq<Event>)
    requires var st := Run(events); Visiting(st) && st.pass.outcome == Some(true)
    ensures AcceptedBefore(events, |events|, Run(events).pass.queue[0].file)
  {
    var n := |events| - 1;
    var earlier, e := events[..n], events[n];
    var before := Run(earlier);
    if Visiting(before) && before.pass.outcome == Some(true) && before.pass.queue == Run(events).pass.queue {
      OutcomeWasAccepted(earlier);
      AcceptedInPrefix(events, n, before.pass.queue[0].file);
    } else {
      assert Accepts(before, e, Run(events).pass.queue[0].file);
    }
  }

  lemma AcceptedInPrefix(events: seq<Event>, n: nat, f: FileName)
    requires n <= |events|
    ensures AcceptedBefore(events[..n], n, f) ==> AcceptedBefore(events, n, f)
  {
    if AcceptedBefore(events[..n], n, f) {
      var k :| 0 <= k < n && Accepts(Run(events[..n][..k]), events[..n][k], f);
      assert events[..n][..k] == events[..k];
    }
  }

  lemma {:induction false} GoneInPrefix(events: seq<Event>, n: nat, j: nat, f: FileName)
    requires j < n <= |events| && GoneFor(events[..n], j, f)
    ensures GoneFor(events, j, f) && RemovedAt(events[..n], j, f) == RemovedAt(events, j, f)
  {
    hide Run, Accepts, Expires, DatabaseRemoved, NeighbourRemoved;
    assert events[..n][..j] == events[..j] && events[..n][..j + 1] == events[..j + 1];
    if AcceptedBefore(events[..n], j, f) {
      var k :| 0 <= k < j && Accepts(Run(events[..n][..k]), events[..n][k], f);
      assert events[..n][..k] == events[..k];
    }
  }

  /** A delivery once on disk leaves it only because it passed a limit, its receiver had accepted it,
      its database was removed, or, as the purge is written, another webhook of that database was. */
  lemma {:induction false} NoSilentLoss(events: seq<Event>, i: nat, f: FileName)
    requires i <= |events| && f in Run(events[..i]).files && f !in Run(events).files
    ensures exists j :: i <= j < |events| && RemovedAt(events, j, f) && GoneFor(events, j, f)
  {
    hide Run, GoneFor;
    assert events[..|events|] == events;
    var n := |events| - 1;
    var earlier := events[..n];
    if f in Run(earlier).files {
      LastRemoval(events, f);
      assert events[..n + 1] == events && RemovedAt(events, n, f);
    } else {
      assert earlier[..i] == events[..i];
      NoSilentLoss(earlier, i, f);
      var j :| i <= j < n && RemovedAt(earlier, j, f) && GoneFor(earlier, j, f);
      GoneInPrefix(events, n, j, f);
    }
  }

  lemma {:induction false} LastRemoval(events: seq<Event>, f: FileName)
    requires events != [] && f in Run(events[..|events| - 1]).files && f !in Run(events).files
    ensures GoneFor(events, |events| - 1, f)
  {
    var n := |events| - 1;
    var st, e := Run(events[..n]), events[n];
    RunConsistent(events[..n]);
    StepRemoves(st, e, f);
    if Visiting(st) && st.pass.outcome == Some(true) {
      OutcomeWasAccepted(events[..n]);
      AcceptedInPrefix(events, n, st.pass.queue[0].file);
    }
  }

  // ----- from dispatch to disk -----

  /** The event is one of those the hook names, or the hook names them all. */
  predicate Wants(hook: Webhook, event: string) {
    "*" in hook.events || event in hook.events
  }

  function HooksIn(flights: seq<Flight>): seq<Webhook> {
    if flights == [] then [] else [flights[0].hook] + HooksIn(flights[1..])
  }

  lemma {:induction false} ReceiversAre(hooks: seq<Webhook>, dbId: string, event: string, id: nat, hook: Webhook)
    ensures
      var receivers := Receivers(hooks, dbId, event, id);
      && (forall i :: 0 <= i < |receivers| ==> receivers[i] == Flight(id + i, dbId, event, receivers[i].hook))
      && multiset(HooksIn(receivers))[hook] == if Wants(hook, event) then multiset(hooks)[hook] else 0
  {
    if hooks != [] {
      assert hooks == [hooks[0]] + hooks[1..];
      if hooks[0].Matches(event) {
        var later := Receivers(hooks[1..], dbId, event, id + 1);
        ReceiversAre(hooks[1..], dbId, event, id + 1, hook);
        assert ([Flight(id, dbId, event, hooks[0])] + later)[1..] == later;
      } else {
        ReceiversAre(hooks[1..], dbId, event, id, hook);
      }
    }
  }

  /** A dispatch launches deliveries numbered from `launched`, each for its database and its event, and
      every registered hook that wants the event gets one for each time it is registered; no other
      hook gets any. */
  lemma {:induction false} DispatchExact(st: State, dbId: string, event: string, hook: Webhook)
    ensures
      var after, n := Step(st, Dispatch(dbId, event)), |st.flying|;
      && after == st.(flying := after.flying, launched := after.launched)
      && n <= |after.flying| && after.flying[..n] == st.flying
      && after.launched == st.launched + (|after.flying| - n)
      && (forall i :: n <= i < |after.flying| ==>
            after.flying[i] == Flight(st.launched + (i - n), dbId, event, after.flying[i].hook))
      && multiset(HooksIn(after.flying[n..]))[hook]
         == if Wants(hook, event) then multiset(HooksOf(st, dbId))[hook] else 0
  {
    var receivers := Receivers(HooksOf(st, dbId), dbId, event, st.launched);
    ReceiversAre(HooksOf(st, dbId), dbId, event, st.launched, hook);
    assert (st.flying + receivers)[|st.flying|..] == receivers;
  }

  /** Deliveries under way have different numbers, all of them given out. */
  predicate Numbered(st: State) {
    DistinctIds(st.flying, st.launched)
  }

  predicate DistinctIds(flights: seq<Flight>, n: nat) {
    && (forall i :: 0 <= i < |flights| ==> flights[i].id < n)
    && forall i, j :: 0 <= i < j < |flights| ==> flights[i].id != flights[j].id
  }

  lemma DropOne(flights: seq<Flight>, k: nat, n: nat)
    requires DistinctIds(flights, n) && k < |flights|
    ensures DistinctIds(flights[..k] + flights[k + 1..], n)
  {
  }

  lemma {:induction false} DispatchNumbered(st: State, dbId: string, event: string)
    requires Numbered(st)
    ensures Numbered(Step(st, Dispatch(dbId, event)))
  {
    var after := Step(st, Dispatch(dbId, event));
    DispatchExact(st, dbId, event, Webhook("", [], None));
    hide Step;
    assert forall i :: 0 <= i < |st.flying| ==> after.flying[i] == after.flying[..|st.flying|][i];
  }

  lemma StepNumbered(st: State, e: Event)
    requires Numbered(st) && !e.Dispatch?
    ensures Numbered(Step(st, e))
  {
    hide DistinctIds, NewPending, Copies, Purged, Retained, ShouldDrop;
    if e.Landed? && Enabled(st, e) {
      DropOne(st.flying, e.flight, st.launched);
    } else if e.Restart? {
      NoneNumbered(st.launched);
    }
  }

  lemma {:induction false} RunNumbered(events: seq<Event>)
    ensures Numbered(Run(events))
  {
    if events != [] {
      hide Step, DistinctIds;
      var st, e := Run(events[..|events| - 1]), events[|events| - 1];
      RunNumbered(events[..|events| - 1]);
      if e.Dispatch? {
        DispatchNumbered(st, e.dbId, e.event);
      } else {
        StepNumbered(st, e);
      }
    } else {
      NoneNumbered(0);
    }
  }

  lemma NoneNumbered(n: nat)
    ensures DistinctIds([], n)
  {
  }

  lemma {:induction false} BurstCanEnd(hook: Webhook, accepts: nat -> bool)
    ensures
      var n := hook.BurstAttempts();
      BurstEnds(hook, TriesTaken(accepts, n), Accepted(accepts, n))
  {
    var n := hook.BurstAttempts();
    var tries := TriesTaken(accepts, n);
    hide TriesTaken;
    assert BurstTaken(accepts, n, tries);
    if tries < n {
      assert accepts(tries - 1);
    }
  }

  lemma {:induction false} LandingLeaves(
    st: State, i: nat, tries: nat, delivered: bool, file: FileName, now: int, diskOk: bool)
    requires Enabled(st, Landed(i, tries, delivered, file, now, diskOk))
    ensures
      var after := Step(st, Landed(i, tries, delivered, file, now, diskOk));
      && after == st.(flying := after.flying, files := after.files, used := after.used)
      && st.flying == after.flying[..i] + [st.flying[i]] + after.flying[i..]
  {
    var after := Step(st, Landed(i, tries, delivered, file, now, diskOk));
    assert after.flying == st.flying[..i] + st.flying[i + 1..];
  }

  /** Any receiver's behaviour ends a burst: the delivery leaves the air, and, if no try was accepted and
      the disk works, exactly it is added to the files; nothing else changes. */
  lemma {:induction false} BurstLands(
    st: State, i: nat, accepts: nat -> bool, file: FileName, now: int, diskOk: bool)
    requires i < |st.flying| && file !in st.used
    ensures
      var flight := st.flying[i];
      var n := flight.hook.BurstAttempts();
      var after := Step(st, Landed(i, TriesTaken(accepts, n), Accepted(accepts, n), file, now, diskOk));
      && after == st.(flying := after.flying, files := after.files, used := after.used)
      && st.flying == after.flying[..i] + [flight] + after.flying[i..]
      && (after.files, after.used) ==
         if Accepted(accepts, n) || !diskOk then (st.files, st.used)
         else (st.files[file := Pending(flight.dbId, flight.event, flight.hook, n, Some(now))], st.used + {file})
  {
    hide TriesTaken, Accepted, BurstTaken, BurstEnds;
    var n := st.flying[i].hook.BurstAttempts();
    BurstCanEnd(st.flying[i].hook, accepts);
    LandingLeaves(st, i, TriesTaken(accepts, n), Accepted(accepts, n), file, now, diskOk);
  }

  /** The burst of the delivery ends with this event. */
  predicate Ends(st: State, e: Event, flight: Flight) {
    e.Landed? && Enabled(st, e) && st.flying[e.flight] == flight
  }

  /** Nothing keeps the delivery: a crash before its burst ends, or a failed write after it failed. */
  predicate Lost(st: State, e: Event, flight: Flight) {
    flight in st.flying && (e.Restart? || (Ends(st, e, flight) && !e.delivered && !e.diskOk))
  }

  /** Its failed burst leaves it in a file of its own, with the tries made. */
  predicate QueuedIn(st: State, e: Event, flight: Flight, file: FileName) {
    && Ends(st, e, flight) && !e.delivered && file == e.file && file !in st.used
    && e.tries == flight.hook.BurstAttempts()
    && Step(st, e).files
       == st.files[file := Pending(flight.dbId, flight.event, flight.hook, e.tries, Some(e.now))]
  }

  lemma {:induction false} LandingExact(st: State, e: Event, flight: Flight)
    requires Consistent(st) && Numbered(st) && flight in st.flying && flight !in Step(st, e).flying
    ensures Lost(st, e, flight) || (Ends(st, e, flight) && (e.delivered || QueuedIn(st, e, flight, e.file)))
  {
  }

  /** A queued delivery is still the one dispatched, with at least the tries of its burst counted. */
  predicate IsFor(d: Pending, flight: Flight) {
    && d.dbId == flight.dbId && d.event == flight.event && d.hook == flight.hook
    && flight.hook.BurstAttempts() <= d.attempts
  }

  /** Wherever the file is, on disk or in a running pass, it holds that delivery. */
  ghost predicate Carries(st: State, file: FileName, flight: Flight) {
    && file in st.used && (file in st.files ==> IsFor(st.files[file], flight))
    && (st.pass.Running? ==>
          forall i :: 0 <= i < |st.pass.queue| && st.pass.queue[i].file == file ==> IsFor(st.pass.queue[i].d, flight))
  }

  lemma StepCarries(st: State, e: Event, file: FileName, flight: Flight)
    requires Consistent(st) && Carries(st, file, flight)
    ensures Carries(Step(st, e), file, flight)
  {
    hide IsFor;
    if e.Finish? && Enabled(st, e) && st.pass.queue[0].file == file {
      AnotherAttempt(st.pass.queue[0].d, flight);
    }
  }

  lemma AnotherAttempt(d: Pending, flight: Flight)
    requires IsFor(d, flight)
    ensures IsFor(d.(attempts := d.attempts + 1), flight)
  {
  }

  lemma QueuedCarries(st: State, e: Event, flight: Flight, file: FileName)
    requires Consistent(st) && QueuedIn(st, e, flight, file)
    ensures Carries(Step(st, e), file, flight) && file in Step(st, e).files
  {
  }

  lemma {:induction false} RunCarries(events: seq<Event>, j: nat, flight: Flight, file: FileName)
    requires j < |events| && QueuedIn(Run(events[..j]), events[j], flight, file)
    ensures Carries(Run(events), file, flight)
  {
    hide Carries, QueuedIn, Consistent, Step;
    var n := |events| - 1;
    RunConsistent(events[..n]);
    if j == n {
      QueuedCarries(Run(events[..n]), events[n], flight, file);
    } else {
      assert events[..n][..j] == events[..j];
      RunCarries(events[..n], j, flight, file);
      StepCarries(Run(events[..n]), events[n], file, flight);
    }
  }

  /** What has become of a delivery that was under way after `i` events. */
  ghost predicate Followed(events: seq<Event>, i: nat, flight: Flight) {
    || flight in Run(events).flying
    || (exists j :: i <= j < |events| && Lost(Run(events[..j]), events[j], flight))
    || (exists j :: i <= j < |events| && Ends(Run(events[..j]), events[j], flight) && events[j].delivered)
    || (exists j, file :: i <= j < |events| && QueuedFrom(events, j, flight, file))
  }

  /** Queued by event `j`, and since then on disk, or gone for one of the known reasons. */
  ghost predicate QueuedFrom(events: seq<Event>, j: nat, flight: Flight, file: FileName)
    requires j < |events|
  {
    && QueuedIn(Run(events[..j]), events[j], flight, file)
    && (if file in Run(events).files then IsFor(Run(events).files[file], flight)
        else exists k :: j < k < |events| && RemovedAt(events, k, file) && GoneFor(events, k, file))
  }

  /** Event `j` takes the delivery out of the air. */
  predicate Leaves(events: seq<Event>, j: nat, flight: Flight)
    requires j < |events|
  {
    flight in Run(events[..j]).flying && flight !in Run(events[..j + 1]).flying
  }

  lemma {:induction false} FlightLeaves(events: seq<Event>, i: nat, flight: Flight) returns (j: nat)
    requires i <= |events| && flight in Run(events[..i]).flying && flight !in Run(events).flying
    ensures i <= j < |events| && Leaves(events, j, flight)
  {
    hide Run;
    assert events[..|events|] == events;
    var n := |events| - 1;
    var earlier := events[..n];
    if flight in Run(earlier).flying {
      j := n;
      assert events[..n + 1] == events;
    } else {
      assert earlier[..i] == events[..i];
      j := FlightLeaves(earlier, i, flight);
      assert earlier[..j] == events[..j] && earlier[..j + 1] == events[..j + 1];
    }
  }

  lemma {:induction false} QueuedIsFollowed(events: seq<Event>, j: nat, flight: Flight, file: FileName)
    requires j < |events| && QueuedIn(Run(events[..j]), events[j], flight, file)
    ensures QueuedFrom(events, j, flight, file)
  {
    hide QueuedIn, GoneFor, RemovedAt, Run, IsFor;
    RunCarries(events, j, flight, file);
    if file !in Run(events).files {
      NextRun(events, j);
      RunConsistent(events[..j]);
      QueuedCarries(Run(events[..j]), events[j], flight, file);
      NoSilentLoss(events, j + 1, file);
      var k :| j + 1 <= k < |events| && RemovedAt(events, k, file) && GoneFor(events, k, file);
    }
  }

  lemma {:induction false} NextRun(events: seq<Event>, j: nat)
    requires j < |events|
    ensures Run(events[..j + 1]) == Step(Run(events[..j]), events[j])
  {
    assert events[..j + 1][..j] == events[..j] && events[..j + 1][j] == events[j];
  }

  /** No delivery disappears: one that has been launched is still under way, was lost to a crash or a
      failed write, was accepted by its receiver, or is in a file of its own, from which only the known
      reasons take it. */
  lemma {:induction false} FlightIsFollowed(events: seq<Event>, i: nat, flight: Flight)
    requires i <= |events| && flight in Run(events[..i]).flying
    ensures Followed(events, i, flight)
  {
    hide Run, Step, QueuedIn, QueuedFrom, Lost;
    if flight !in Run(events).flying {
      var j := FlightLeaves(events, i, flight);
      RunConsistent(events[..j]);
      RunNumbered(events[..j]);
      NextRun(events, j);
      var st, e := Run(events[..j]), events[j];
      LandingExact(st, e, flight);
      if Ends(st, e, flight) && QueuedIn(st, e, flight, e.file) {
        QueuedIsFollowed(events, j, flight, e.file);
      }
    }
  }

  lemma {:induction false} ReceiverHasFlight(flights: seq<Flight>, hook: Webhook) returns (i: nat)
    requires 0 < multiset(HooksIn(flights))[hook]
    ensures i < |flights| && flights[i].hook == hook
  {
    if flights[0].hook == hook {
      i := 0;
    } else {
      i := ReceiverHasFlight(flights[1..], hook);
      i := i + 1;
    }
  }

  /** So for every hook registered when its event is dispatched, in any run whatever happens next. */
  lemma {:induction false} ReceiverIsFollowed(events: seq<Event>, i: nat, hook: Webhook) returns (flight: Flight)
    requires i < |events| && events[i].Dispatch? && Wants(hook, events[i].event)
    requires hook in HooksOf(Run(events[..i]), events[i].dbId)
    ensures flight.dbId == events[i].dbId && flight.event == events[i].event && flight.hook == hook
    ensures Run(events[..i]).launched <= flight.id
    ensures flight in Run(events[..i + 1]).flying && Followed(events, i + 1, flight)
  {
    hide Run, Step, Followed;
    var st, e := Run(events[..i]), events[i];
    DispatchExact(st, e.dbId, e.event, hook);
    NextRun(events, i);
    var after, n := Run(events[..i + 1]), |st.flying|;
    assert hook in multiset(HooksOf(st, e.dbId));
    var k := ReceiverHasFlight(after.flying[n..], hook);
    flight := after.flying[n + k];
    FlightIsFollowed(events, i + 1, flight);
  }

  /** Added, and neither removed nor its database cleared since. */
  ghost predicate Registered(events: seq<Event>, dbId: string, hook: Webhook) {
    exists j ::
      && 0 <= j < |events| && events[j] == AddHook(dbId, hook)
      && forall k :: j < k < |events| ==> events[k] != RemoveHook(dbId, hook.id) && events[k] != RemoveAll(dbId)
  }

  lemma {:induction false} RetainedAre(hooks: seq<Webhook>, hookId: string, hook: Webhook)
    ensures hook in Retained(hooks, hookId) <==> hook in hooks && hook.id != hookId
    ensures |Retained(hooks, hookId)| == |hooks| ==> Retained(hooks, hookId) == hooks
    ensures |Retained(hooks, hookId)| <= |hooks|
  {
    if hooks != [] {
      RetainedAre(hooks[1..], hookId, hook);
      assert hooks == [hooks[0]] + hooks[1..];
    }
  }

  lemma {:induction false} HooksStep(st: State, e: Event, dbId: string, hook: Webhook)
    ensures
      hook in HooksOf(Step(st, e), dbId) <==>
        || e == AddHook(dbId, hook)
        || (hook in HooksOf(st, dbId) && e != RemoveHook(dbId, hook.id) && e != RemoveAll(dbId))
  {
    if e.RemoveHook? {
      RetainedAre(HooksOf(st, e.dbId), e.hookId, hook);
    }
  }

  /** The hooks an event can reach are those added and not removed since. */
  lemma {:induction false} HooksOfRun(events: seq<Event>, dbId: string, hook: Webhook)
    ensures hook in HooksOf(Run(events), dbId) <==> Registered(events, dbId, hook)
  {
    if events != [] {
      hide Step, HooksOf;
      var n := |events| - 1;
      HooksOfRun(events[..n], dbId, hook);
      HooksStep(Run(events[..n]), events[n], dbId, hook);
      RegisteredStep(events, dbId, hook);
    }
  }

  lemma {:induction false} RegisteredStep(events: seq<Event>, dbId: string, hook: Webhook)
    requires events != []
    ensures
      var n := |events| - 1;
      Registered(events, dbId, hook) <==>
        || events[n] == AddHook(dbId, hook)
        || (Registered(events[..n], dbId, hook)
            && events[n] != RemoveHook(dbId, hook.id) && events[n] != RemoveAll(dbId))
  {
    var n := |events| - 1;
    if Registered(events, dbId, hook) && events[n] != AddHook(dbId, hook) {
      var j :|
        && 0 <= j < |events| && events[j] == AddHook(dbId, hook)
        && forall k :: j < k < |events| ==> events[k] != RemoveHook(dbId, hook.id) && events[k] != RemoveAll(dbId);
      assert events[..n][j] == AddHook(dbId, hook);
    }
    if Registered(events[..n], dbId, hook) && events[n] != RemoveHook(dbId, hook.id) && events[n] != RemoveAll(dbId) {
      var j :|
        && 0 <= j < n && events[..n][j] == AddHook(dbId, hook)
        && forall k :: j < k < n ==> events[..n][k] != RemoveHook(dbId, hook.id) && events[..n][k] != RemoveAll(dbId);
      assert forall k :: j < k < n ==> events[k] == events[..n][k];
      assert events[j] == AddHook(dbId, hook);
    }
  }

  // ----- removals -----

  predicate HasHook(st: State, dbId: string, hookId: string) {
    exists h | h in HooksOf(st, dbId) :: h.id == hookId
  }

  lemma {:induction false} RetainedWithout(hooks: seq<Webhook>, hookId: string)
    ensures |Retained(hooks, hookId)| <= |hooks|
    ensures |Retained(hooks, hookId)| == |hooks| <==> forall h | h in hooks :: h.id != hookId
  {
    if hooks != [] {
      RetainedWithout(hooks[1..], hookId);
      assert hooks == [hooks[0]] + hooks[1..];
    }
  }

  /** What a removal that finds something to remove takes off the disk: with a database every delivery
      of it, and with one webhook those of its neighbours. */
  lemma {:induction false} RemovalExact(st: State, dbId: string, hookId: string, f: FileName)
    ensures
      var files := Step(st, RemoveAll(dbId)).files;
      && (f in files <==> f in st.files && (dbId !in st.hooks || st.files[f].dbId != dbId))
      && (f in files ==> files[f] == st.files[f])
    ensures
      var files := Step(st, RemoveHook(dbId, hookId)).files;
      && (f in files <==>
            f in st.files && (!HasHook(st, dbId, hookId) || st.files[f].dbId != dbId || st.files[f].hook.id == hookId))
      && (f in files ==> files[f] == st.files[f])
  {
    RetainedWithout(HooksOf(st, dbId), hookId);
  }

  /** No delivery of the database is in its burst or read by a pass. */
  ghost predicate NothingUnderWay(st: State, dbId: string) {
    && (forall flight :: flight in st.flying ==> flight.dbId != dbId)
    && (st.pass.Running? ==> forall i :: 0 <= i < |st.pass.queue| ==> st.pass.queue[i].d.dbId != dbId)
  }

  /** No trace of the database: no hook, nothing on disk, nothing under way. */
  ghost predicate Forgotten(st: State, dbId: string) {
    HooksOf(st, dbId) == [] && NothingUnderWay(st, dbId) && forall f :: f in st.files ==> st.files[f].dbId != dbId
  }

  lemma RemoveAllForgets(st: State, dbId: string)
    requires dbId in st.hooks && NothingUnderWay(st, dbId)
    ensures Forgotten(Step(st, RemoveAll(dbId)), dbId)
  {
  }

  lemma {:induction false} DispatchForgets(st: State, dbId: string, other: string, event: string)
    requires Forgotten(st, dbId)
    ensures Forgotten(Step(st, Dispatch(other, event)), dbId)
  {
    var receivers := Receivers(HooksOf(st, other), other, event, st.launched);
    forall flight | flight in receivers
      ensures flight.dbId != dbId
    {
      ReceiversAre(HooksOf(st, other), other, event, st.launched, flight.hook);
      var i :| 0 <= i < |receivers| && receivers[i] == flight;
    }
  }

  lemma StepForgets(st: State, e: Event, dbId: string)
    requires Forgotten(st, dbId) && !e.AddHook? && !e.Dispatch?
    ensures Forgotten(Step(st, e), dbId)
  {
    if e.RemoveHook? {
      RetainedWithout(HooksOf(st, e.dbId), e.hookId);
    }
  }

  lemma AddForgets(st: State, other: string, hook: Webhook, dbId: string)
    requires Forgotten(st, dbId) && other != dbId
    ensures Forgotten(Step(st, AddHook(other, hook)), dbId)
  {
  }

  lemma StaysForgotten(st: State, e: Event, dbId: string)
    requires Forgotten(st, dbId) && (e.AddHook? ==> e.dbId != dbId)
    ensures Forgotten(Step(st, e), dbId)
  {
    hide Step, Forgotten;
    match e
    case AddHook(other, hook) => AddForgets(st, other, hook, dbId);
    case Dispatch(other, event) => DispatchForgets(st, dbId, other, event);
    case _ => StepForgets(st, e, dbId);
  }

  /** Removing a database with nothing of it under way stops its deliveries for good: until a hook is
      added to it again, none is launched, retried or on disk. */
  lemma {:induction false} RemovalIsFinal(events: seq<Event>, i: nat, dbId: string)
    requires i < |events| && events[i] == RemoveAll(dbId) && dbId in Run(events[..i]).hooks
    requires NothingUnderWay(Run(events[..i]), dbId)
    requires forall j :: i < j < |events| && events[j].AddHook? ==> events[j].dbId != dbId
    ensures Forgotten(Run(events), dbId)
  {
    hide Step, Forgotten, NothingUnderWay;
    var n := |events| - 1;
    if n == i {
      RemoveAllForgets(Run(events[..n]), dbId);
    } else {
      assert events[..n][..i] == events[..i];
      RemovalIsFinal(events[..n], i, dbId);
      StaysForgotten(Run(events[..n]), events[n], dbId);
    }
  }

  // ----- bounded effort -----

  /** Tries made for the delivery in file `f` by this event: the burst that queued it, or a visit. */
  function TriesOf(st: State, e: Event, f: FileName): nat {
    if !Enabled(st, e) then 0
    else if e.Landed? then (if e.file == f && !e.delivered && e.diskOk then e.tries else 0)
    else if e.Visit? && st.pass.queue[0].file == f && !Drops(st, e.now) then e.tries
    else 0
  }

  function Tries(events: seq<Event>, f: FileName): nat {
    if events == [] then 0
    else
      var earlier, e := events[..|events| - 1], events[|events| - 1];
      Tries(earlier, f) + TriesOf(Run(earlier), e, f)
  }

  /** The event queues a failed burst in file `f`. */
  predicate Queues(st: State, e: Event, f: FileName) {
    Enabled(st, e) && e.Landed? && e.file == f && !e.delivered && e.diskOk
  }

  /** The length of a burst for the delivery in file `f`; 0 before it is queued. */
  function BurstOf(events: seq<Event>, f: FileName): nat {
    if events == [] then 0
    else
      var earlier, e := events[..|events| - 1], events[|events| - 1];
      if Queues(Run(earlier), e, f) then Run(earlier).flying[e.flight].hook.BurstAttempts() else BurstOf(earlier, f)
  }

  /** Disk operations succeed, no crash falls between the tries of a visit and its file update, and
      the attempts limit is `m`. */
  predicate Smooth(st: State, e: Event, m: nat) {
    match e
    case Landed(_, _, _, _, _, diskOk) => diskOk
    case PassStart(limits, _) => limits.maxAttempts == m
    case Visit(_, _, _, diskOk) => diskOk
    case Finish(diskOk) => diskOk
    case Restart => !(Visiting(st) && st.pass.outcome.Some?)
    case _ => true
  }

  ghost predicate Orderly(events: seq<Event>, m: nat) {
    forall k :: 0 <= k < |events| ==> Smooth(Run(events[..k]), events[k], m)
  }

  function Budget(b: nat, rounds: nat): nat {
    b * rounds
  }

  lemma BudgetGrows(b: nat, n: nat, m: nat)
    requires n <= m
    ensures Budget(b, n) <= Budget(b, m) && Budget(b, n + 1) == Budget(b, n) + b
  {
    assert b * (n + 1) == b * n + b;
    assert b * m == b * n + b * (m - n);
  }

  /** `max(0, m - b)`. */
  function Extra(b: nat, m: nat): nat {
    if b < m then m - b else 0
  }

  /** The first copy of the pass is one of `f`, tried but not written back. */
  predicate Owes(st: State, f: FileName) {
    Visiting(st) && st.pass.queue[0].file == f && st.pass.outcome.Some?
  }

  /** A copy with `a` attempts accounts for the tries made so far. */
  ghost predicate Accounts(d: Pending, b: nat, t: nat, owes: bool) {
    && d.hook.BurstAttempts() == b && b <= d.attempts
    && t <= Budget(b, 1 + d.attempts - b + if owes then 1 else 0)
  }

  ghost predicate Accounted(st: State, f: FileName, b: nat, t: nat, m: nat) {
    && t <= Budget(b, 1 + Extra(b, m))
    && (f !in st.used ==> t == 0)
    && (f in st.files ==> Accounts(st.files[f], b, t, Owes(st, f)))
    && (Visiting(st) ==> forall i :: 0 <= i < |st.pass.queue| && st.pass.queue[i].file == f ==>
          Accounts(st.pass.queue[i].d, b, t, Owes(st, f)))
    && (Owes(st, f) ==> st.pass.queue[0].d.attempts < m)
    && (Visiting(st) ==> st.pass.limits.maxAttempts == m)
  }

  lemma VisitAccounted(st: State, e: Event, f: FileName, b: nat, t: nat, m: nat)
    requires Consistent(st) && Accounted(st, f, b, t, m) && e.Visit? && Enabled(st, e) && e.diskOk
    ensures Accounted(Step(st, e), f, b, t + TriesOf(st, e, f), m)
  {
    hide Budget;
    if st.pass.queue[0].file == f && !Drops(st, e.now) {
      var a := st.pass.queue[0].d.attempts;
      BudgetGrows(b, 1 + a - b, 1 + a - b);
      BudgetGrows(b, 1 + a - b + 1, 1 + Extra(b, m));
    }
  }

  lemma LandedAccounted(st: State, e: Event, f: FileName, t: nat, m: nat, b: nat)
    requires Consistent(st) && Accounted(st, f, b, t, m) && e.Landed? && Enabled(st, e) && e.diskOk
    ensures
      var now := if Queues(st, e, f) then st.flying[e.flight].hook.BurstAttempts() else b;
      Accounted(Step(st, e), f, now, t + TriesOf(st, e, f), m)
  {
    if e.file == f && !e.delivered {
      var burst := st.flying[e.flight].hook.BurstAttempts();
      BudgetGrows(burst, 1, 1 + Extra(burst, m));
      assert Budget(burst, 1) == burst;
    }
  }

  lemma StartAccounted(st: State, e: Event, f: FileName, b: nat, t: nat, m: nat)
    requires Consistent(st) && Accounted(st, f, b, t, m) && Smooth(st, e, m) && e.PassStart? && Enabled(st, e)
    ensures Accounted(Do(st, e), f, b, t, m)
  {
    hide Accounts;
  }

  lemma FinishAccounted(st: State, e: Event, f: FileName, b: nat, t: nat, m: nat)
    requires Consistent(st) && Accounted(st, f, b, t, m) && Smooth(st, e, m) && e.Finish? && Enabled(st, e)
    ensures Accounted(Do(st, e), f, b, t, m)
  {
  }

  lemma OtherAccounted(st: State, e: Event, f: FileName, b: nat, t: nat, m: nat)
    requires Consistent(st) && Accounted(st, f, b, t, m) && Smooth(st, e, m) && !e.Visit? && !e.Landed?
    requires !e.PassStart? && !e.Finish?
    ensures Accounted(Step(st, e), f, b, t, m)
  {
  }

  lemma StepAccounted(st: State, e: Event, f: FileName, b: nat, t: nat, m: nat, after: State, b': nat, t': nat)
    requires Consistent(st) && Accounted(st, f, b, t, m) && Smooth(st, e, m)
    requires after == Step(st, e) && t' == t + TriesOf(st, e, f)
    requires b' == if Queues(st, e, f) then st.flying[e.flight].hook.BurstAttempts() else b
    ensures Accounted(after, f, b', t', m)
  {
    hide Consistent, Accounted, Do;
    if !Enabled(st, e) {
      assert Step(st, e) == st;
    } else if e.Visit? {
      VisitAccounted(st, e, f, b, t, m);
    } else if e.Landed? {
      LandedAccounted(st, e, f, t, m, b);
    } else if e.PassStart? {
      StartAccounted(st, e, f, b, t, m);
    } else if e.Finish? {
      FinishAccounted(st, e, f, b, t, m);
    } else {
      OtherAccounted(st, e, f, b, t, m);
    }
  }

  lemma OrderlyPrefix(events: seq<Event>, m: nat)
    requires events != [] && Orderly(events, m)
    ensures Orderly(events[..|events| - 1], m)
    ensures Smooth(Run(events[..|events| - 1]), events[|events| - 1], m)
  {
    var earlier := events[..|events| - 1];
    forall k | 0 <= k < |earlier|
      ensures Smooth(Run(earlier[..k]), earlier[k], m)
    {
      assert earlier[..k] == events[..k];
    }
  }

  /** Every copy of the delivery, on disk or in a running pass, carries a count that accounts for
      the tries made so far. */
  lemma {:induction false} EffortAccounted(events: seq<Event>, f: FileName, m: nat) returns (st: State, b: nat, t: nat)
    requires Orderly(events, m)
    ensures st == Run(events) && b == BurstOf(events, f) && t == Tries(events, f)
    ensures Accounted(st, f, b, t, m)
  {
    st, b, t := Start, 0, 0;
    if events != [] {
      var e := events[|events| - 1];
      OrderlyPrefix(events, m);
      var st0, b0, t0 := EffortAccounted(events[..|events| - 1], f, m);
      RunConsistent(events[..|events| - 1]);
      st, t := Step(st0, e), t0 + TriesOf(st0, e, f);
      b := if Queues(st0, e, f) then st0.flying[e.flight].hook.BurstAttempts() else b0;
      StepAccounted(st0, e, f, b0, t0, m, st, b, t);
    }
  }

  /** Over the whole life of a queued delivery at most `b * (1 + max(0, m - b))` tries are made,
      with `b` the length of its burst and `m` the attempts limit. */
  lemma {:induction false} BoundedEffort(events: seq<Event>, f: FileName, m: nat)
    requires Orderly(events, m)
    ensures Tries(events, f) <= Budget(BurstOf(events, f), 1 + Extra(BurstOf(events, f), m))
  {
    var st, b, t := EffortAccounted(events, f, m);
    assert t <= Budget(b, 1 + Extra(b, m));
  }

  // ----- a pass nobody interrupts -----

  /** The tries of a burst that stops at the first accepted one. */
  function TriesTaken(accepts: nat -> bool, n: nat): (tries: nat)
    requires 0 < n
    ensures BurstTaken(accepts, n, tries)
  {
    if n == 1 || Accepted(accepts, n - 1) then (if n == 1 then 1 else TriesTaken(accepts, n - 1)) else n
  }

  predicate BurstTaken(accepts: nat -> bool, n: nat, tries: nat) {
    1 <= tries <= n && !Accepted(accepts, tries - 1) && (tries < n ==> accepts(tries - 1))
  }

  /** The first copy visited, and its file updated, with nothing in between. */
  function Served(st: State, world: World): State
    requires Visiting(st) && st.pass.outcome.None?
  {
    var copy := st.pass.queue[0];
    var n, accepts := copy.d.hook.BurstAttempts(), world.accepts(copy.file);
    var visited := Step(st, Visit(world.now(copy.file), TriesTaken(accepts, n), Accepted(accepts, n), true));
    if Drops(st, world.now(copy.file)) then visited else Step(visited, Finish(true))
  }

  lemma ServedIsRetried(st: State, world: World)
    requires Visiting(st) && st.pass.outcome.None?
    ensures
      var copy, after := st.pass.queue[0], Served(st, world);
      && after.pass == Running(st.pass.limits, st.pass.queue[1..], None)
      && after.files == (match Retried(copy.d, st.pass.limits, world.now(copy.file), world.accepts(copy.file))
                         case None => st.files - {copy.file}
                         case Some(kept) => st.files[copy.file := kept])
  {
  }

  function ServeAll(st: State, world: World): State
    requires st.pass.Running? && st.pass.outcome.None?
    decreases |st.pass.queue|
  {
    if st.pass.queue == [] then st
    else
      ServedIsRetried(st, world);
      ServeAll(Served(st, world), world)
  }

  /** The files the pass has still to visit, as it read them. */
  function Unvisited(queue: seq<Copy>): map<FileName, Pending> {
    if queue == [] then map[] else Unvisited(queue[1..])[queue[0].file := queue[0].d]
  }

  predicate DistinctFiles(queue: seq<Copy>) {
    forall i, j :: 0 <= i < j < |queue| ==> queue[i].file != queue[j].file
  }

  lemma {:induction false} UnvisitedCopies(queue: seq<Copy>)
    ensures forall i :: 0 <= i < |queue| ==> queue[i].file in Unvisited(queue)
    ensures forall f :: f in Unvisited(queue) ==> Copy(f, Unvisited(queue)[f]) in queue
  {
    if queue != [] {
      UnvisitedCopies(queue[1..]);
    }
  }

  lemma {:induction false} NotUnvisited(queue: seq<Copy>, f: FileName)
    requires forall i :: 0 <= i < |queue| ==> queue[i].file != f
    ensures f !in Unvisited(queue)
  {
    if queue != [] {
      NotUnvisited(queue[1..], f);
    }
  }

  lemma {:induction false} UnvisitedTail(queue: seq<Copy>)
    requires queue != [] && DistinctFiles(queue)
    ensures Unvisited(queue[1..]) == Unvisited(queue) - {queue[0].file}
  {
    NotUnvisited(queue[1..], queue[0].file);
  }

  lemma {:induction false} ServeAllIsPass(st: State, world: World, before: map<FileName, Pending>)
    requires st.pass.Running? && st.pass.outcome.None? && DistinctFiles(st.pass.queue)
    requires HalfPass(before, Unvisited(st.pass.queue), st.files, st.pass.limits, world)
    ensures ServeAll(st, world).files == RetriedAll(before, st.pass.limits, world)
    decreases |st.pass.queue|
  {
    if st.pass.queue == [] {
      PassDone(before, Unvisited([]), st.files, st.pass.limits, world);
    } else {
      ServedIsRetried(st, world);
      UnvisitedTail(st.pass.queue);
      PassStep(before, Unvisited(st.pass.queue), st.files, st.pass.limits, world, st.pass.queue[0].file);
      ServeAllIsPass(Served(st, world), world, before);
    }
  }

  /** A pass over all the files can start whenever none is running. */
  lemma {:induction false} PassCanStart(st: State, limits: Limits, left: set<FileName>) returns (listing: seq<FileName>)
    requires !Visiting(st) && left <= st.files.Keys
    ensures Enabled(st, PassStart(limits, listing)) && forall f :: f in left <==> f in listing
    decreases left
  {
    listing := [];
    if left != {} {
      var f :| f in left;
      var others := PassCanStart(st, limits, left - {f});
      listing := [f] + others;
    }
  }

  /** Run without interruption over a full listing, the steps of a pass come to the queue's own
      `RetryPendingOnce`. */
  lemma {:induction false} UninterruptedPass(st: State, limits: Limits, listing: seq<FileName>, world: World)
    requires Enabled(st, PassStart(limits, listing)) && forall f :: f in st.files ==> f in listing
    ensures ServeAll(Step(st, PassStart(limits, listing)), world).files == RetriedAll(st.files, limits, world)
  {
    hide Retried, ServeAll;
    var started := Step(st, PassStart(limits, listing));
    UnvisitedCopies(started.pass.queue);
    forall f | f in st.files
      ensures f in Unvisited(started.pass.queue)
    {
      var i :| 0 <= i < |listing| && listing[i] == f;
      assert started.pass.queue[i].file == f;
    }
    ServeAllIsPass(started, world, st.files);
  }
}
