/**
 Webhook deliveries: the retry policy, one burst of tries, and the queue of deliveries on disk.
 A file system is a map from file names to contents, each write atomic.
 */
module Webhooks {
  import opened Wrappers

  type FileName = nat

  datatype RetryPolicy = RetryPolicy(maxAttempts: nat, backoffMs: seq<nat>)

  const DEFAULT_RETRY := RetryPolicy(5, [1000, 2000, 4000, 8000])

  datatype Webhook = Webhook(id: string, events: seq<string>, retry: Option<RetryPolicy>) {
    predicate Matches(event: string) {
      exists e | e in events :: e == "*" || e == event
    }

    function Policy(): RetryPolicy {
      if retry.Some? then retry.value else DEFAULT_RETRY
    }

    /** The delays between the tries of one burst. */
    function Delays(): seq<nat> {
      var extra := if Policy().maxAttempts == 0 then 0 else Policy().maxAttempts - 1;
      if |Policy().backoffMs| <= extra then Policy().backoffMs else Policy().backoffMs[..extra]
    }

    function BurstAttempts(): nat {
      1 + |Delays()|
    }
  }

  const MAX_BACKOFF_MS := 600_000

  predicate ValidRetry(retry: Option<RetryPolicy>) {
    retry.Some? ==>
      && 1 <= retry.value.maxAttempts <= 100 && |retry.value.backoffMs| <= 20
      && forall ms | ms in retry.value.backoffMs :: 0 < ms <= MAX_BACKOFF_MS
  }

  method ValidateRetry(retry: Option<RetryPolicy>) returns (ok: bool)
    ensures ok <==> ValidRetry(retry)
  {
    if retry.None? {
      return true;
    }
    var p := retry.value;
    if p.maxAttempts == 0 || p.maxAttempts > 100 {
      return false;
    }
    if |p.backoffMs| > 20 {
      return false;
    }
    for i := 0 to |p.backoffMs|
      invariant forall j :: 0 <= j < i ==> 0 < p.backoffMs[j] <= MAX_BACKOFF_MS
    {
      if p.backoffMs[i] == 0 || p.backoffMs[i] > MAX_BACKOFF_MS {
        assert p.backoffMs[i] in p.backoffMs;
        return false;
      }
    }
    ok := true;
  }

  /** A validated policy gives at most 21 tries a burst, and the bound is met; a hook without one makes
      5. */
  lemma BurstBound(hook: Webhook)
    requires ValidRetry(hook.retry)
    ensures 1 <= hook.BurstAttempts() <= 21 && hook.BurstAttempts() <= hook.Policy().maxAttempts
    ensures hook.retry.None? ==> hook.BurstAttempts() == 5
    ensures
      var slow := RetryPolicy(100, seq(20, i => 1));
      ValidRetry(Some(slow)) && Webhook("", [], Some(slow)).BurstAttempts() == 21
  {
  }

  /** The limits of a policy, on lists of one repeated delay. */
  lemma RetryLimits(n: nat, k: nat, delay: nat)
    ensures ValidRetry(Some(RetryPolicy(n, seq(k, i => delay))))
        <==> 1 <= n <= 100 && k <= 20 && (k == 0 || 1 <= delay <= 10 * 60 * 1000)
    ensures ValidRetry(None) && ValidRetry(Some(DEFAULT_RETRY))
  {
    var delays := seq(k, i => delay);
    assert 0 < k ==> delays[0] in delays;
  }

  /** The burst makes the documented number of tries exactly when enough delays are listed; with fewer
      it is one more than the delays, and the remaining attempts are not made.  There is always one. */
  lemma BurstIsMaxAttempts(hook: Webhook)
    ensures 1 <= hook.Policy().maxAttempts ==>
              (hook.BurstAttempts() == hook.Policy().maxAttempts
               <==> hook.Policy().maxAttempts - 1 <= |hook.Policy().backoffMs|)
    ensures |hook.Policy().backoffMs| < hook.Policy().maxAttempts - 1
        ==> hook.BurstAttempts() == 1 + |hook.Policy().backoffMs|
    ensures hook.Policy().maxAttempts <= 1 ==> hook.BurstAttempts() == 1
  {
  }

  // ----- one burst -----

  /** `accepts(t)`: the receiver accepts try number `t`. */
  predicate Accepted(accepts: nat -> bool, n: nat) {
    exists t | 0 <= t < n :: accepts(t)
  }

  method DeliverWithBackoff(accepts: nat -> bool, delays: seq<nat>) returns (delivered: bool, tries: nat)
    ensures delivered <==> Accepted(accepts, 1 + |delays|)
    ensures 1 <= tries <= 1 + |delays| && (!delivered ==> tries == 1 + |delays|)
    ensures !Accepted(accepts, tries - 1) && (delivered ==> accepts(tries - 1))
  {
    tries := 1;
    if accepts(0) {
      return true, tries;
    }
    for k := 0 to |delays|
      invariant tries == k + 1 && !Accepted(accepts, tries)
    {
      tries := tries + 1;
      if accepts(tries - 1) {
        return true, tries;
      }
    }
    delivered := false;
  }

  // ----- the queue -----

  /** A queued delivery.  `createdAt` is None when the stored timestamp cannot be read. */
  datatype Pending = Pending(dbId: string, event: string, hook: Webhook, attempts: nat, createdAt: Option<int>)

  datatype Limits = Limits(maxAttempts: nat, ttlSecs: nat)

  predicate ShouldDrop(d: Pending, limits: Limits, now: int) {
    d.attempts >= limits.maxAttempts || (d.createdAt.Some? && now - d.createdAt.value > limits.ttlSecs)
  }

  function NewPending(dbId: string, event: string, hook: Webhook, now: int): Pending {
    Pending(dbId, event, hook, hook.BurstAttempts(), Some(now))
  }

  /** What a purge keeps, as the program decides it. */
  predicate PurgeKeeps(d: Pending, dbId: string, hookId: Option<string>) {
    d.dbId != dbId || (hookId.Some? && d.hook.id == hookId.value)
  }

  /** What its documentation says it should keep: all but the named webhook's deliveries. */
  predicate PurgeShouldKeep(d: Pending, dbId: string, hookId: Option<string>) {
    d.dbId != dbId || (hookId.Some? && d.hook.id != hookId.value)
  }

  /** The two agree on a delivery exactly when it is for another database or the whole database is
      purged; removing one webhook keeps its deliveries and drops those of its neighbours. */
  lemma PurgeKeepsExact(d: Pending, dbId: string, hookId: Option<string>)
    ensures PurgeKeeps(d, dbId, hookId) == PurgeShouldKeep(d, dbId, hookId) <==> d.dbId != dbId || hookId.None?
  {
  }

  function Purged(files: map<FileName, Pending>, dbId: string, hookId: Option<string>): map<FileName, Pending> {
    map f | f in files && PurgeKeeps(files[f], dbId, hookId) :: files[f]
  }

  /** The outside world of one retry pass: when each file is reached, and which tries succeed. */
  datatype World = World(now: FileName -> int, accepts: FileName -> nat -> bool)

  /** What one pass makes of one queued delivery: None removes the file. */
  function Retried(d: Pending, limits: Limits, now: int, accepts: nat -> bool): Option<Pending> {
    if ShouldDrop(d, limits, now) || Accepted(accepts, d.hook.BurstAttempts()) then None
    else Some(d.(attempts := d.attempts + 1))
  }

  function RetriedAll(files: map<FileName, Pending>, limits: Limits, world: World): map<FileName, Pending> {
    map f | f in files && Retried(files[f], limits, world.now(f), world.accepts(f)).Some?
      :: Retried(files[f], limits, world.now(f), world.accepts(f)).value
  }

  /** Part of the way through a pass: the files still `pending` are as they were, the others as the
      pass leaves them. */
  ghost predicate HalfPass(before: map<FileName, Pending>, pending: map<FileName, Pending>,
                           files: map<FileName, Pending>, limits: Limits, world: World)
  {
    && pending.Keys <= before.Keys && files.Keys <= before.Keys
    && forall f :: f in before ==> HalfDone(before, pending, files, limits, world, f)
  }

  ghost predicate HalfDone(before: map<FileName, Pending>, pending: map<FileName, Pending>,
                           files: map<FileName, Pending>, limits: Limits, world: World, f: FileName)
    requires f in before
  {
    var kept := if f in pending then Some(before[f]) else Retried(before[f], limits, world.now(f), world.accepts(f));
    && (f in pending ==> pending[f] == before[f])
    && (f in files <==> kept.Some?) && (f in files ==> files[f] == kept.value)
  }

  lemma PassStep(before: map<FileName, Pending>, pending: map<FileName, Pending>,
                 files: map<FileName, Pending>, limits: Limits, world: World, f: FileName)
    requires HalfPass(before, pending, files, limits, world) && f in pending
    ensures
      match Retried(pending[f], limits, world.now(f), world.accepts(f))
      case None => HalfPass(before, pending - {f}, files - {f}, limits, world)
      case Some(kept) => HalfPass(before, pending - {f}, files[f := kept], limits, world)
  {
    hide Retried;
    assert HalfDone(before, pending, files, limits, world, f);
    var kept := Retried(pending[f], limits, world.now(f), world.accepts(f));
    var after := if kept.Some? then files[f := kept.value] else files - {f};
    forall g | g in before
      ensures HalfDone(before, pending - {f}, after, limits, world, g)
    {
      assert HalfDone(before, pending, files, limits, world, g);
    }
  }

  lemma PassDone(before: map<FileName, Pending>, pending: map<FileName, Pending>,
                 files: map<FileName, Pending>, limits: Limits, world: World)
    requires HalfPass(before, pending, files, limits, world) && pending.Keys == {}
    ensures files == RetriedAll(before, limits, world)
  {
    hide Retried;
    var all := RetriedAll(before, limits, world);
    forall f
      ensures f in files <==> f in all
      ensures f in files ==> files[f] == all[f]
    {
      if f in before {
        assert f !in pending && HalfDone(before, pending, files, limits, world, f);
      }
    }
  }

  class PendingQueue {
    var files: map<FileName, Pending>

    constructor (files: map<FileName, Pending>)
      ensures this.files == files
    {
      this.files := files;
    }

    method PersistPending(name: FileName, dbId: string, event: string, hook: Webhook, now: int)
      modifies this
      ensures files == old(files)[name := NewPending(dbId, event, hook, now)]
    {
      files := files[name := Pending(dbId, event, hook, hook.BurstAttempts(), Some(now))];
    }

    method PurgePendingFor(dbId: string, hookId: Option<string>)
      modifies this
      ensures files == Purged(old(files), dbId, hookId)
    {
      var left := files.Keys;
      while left != {}
        invariant left <= files.Keys <= old(files).Keys
        invariant forall f :: f in files ==> files[f] == old(files)[f]
        invariant forall f :: f in old(files) && f !in left ==>
                    (f in files <==> PurgeKeeps(old(files)[f], dbId, hookId))
        invariant forall f :: f in left ==> f in files
        decreases |left|
      {
        var f :| f in left;
        left := left - {f};
        var keep := PurgeKeeps(files[f], dbId, hookId);
        if !keep {
          files := files - {f};
        }
      }
    }

    /** One delivery as the pass read it: dropped, delivered, or written back with one attempt more. */
    method RetryOne(f: FileName, read: Pending, limits: Limits, now: int, accepts: nat -> bool)
      modifies this
      ensures
        match Retried(read, limits, now, accepts)
        case None => files == old(files) - {f}
        case Some(kept) => files == old(files)[f := kept]
    {
      var d := read;
      if ShouldDrop(d, limits, now) {
        files := files - {f};
        return;
      }
      var delivered, _ := DeliverWithBackoff(accepts, d.hook.Delays());
      if delivered {
        files := files - {f};
        return;
      }
      d := d.(attempts := d.attempts + 1);
      files := files[f := d];
    }

    /** One pass over the queue, in whatever order the directory lists it. */
    method RetryPendingOnce(limits: Limits, world: World)
      modifies this
      ensures files == RetriedAll(old(files), limits, world)
    {
      ghost var before := files;
      var pending := files;
      while pending.Keys != {}
        invariant HalfPass(before, pending, files, limits, world)
        decreases |pending.Keys|
      {
        var f :| f in pending.Keys;
        assert HalfDone(before, pending, files, limits, world, f);
        PassStep(before, pending, files, limits, world, f);
        RetryOne(f, pending[f], limits, world.now(f), world.accepts(f));
        pending := pending - {f};
      }
      PassDone(before, pending, files, limits, world);
    }
  }

  /** The first pass over a newly queued delivery: it is kept exactly when its burst has not used up
      the attempts limit, it is young enough and no try is accepted; only then has it one attempt
      more.  All other deliveries fare as if it were not there. */
  lemma {:induction false} FirstPass(
    files: map<FileName, Pending>, name: FileName, dbId: string, event: string, hook: Webhook, queuedAt: int,
    limits: Limits, world: World)
    requires name !in files
    ensures
      var after := RetriedAll(files[name := NewPending(dbId, event, hook, queuedAt)], limits, world);
      && after - {name} == RetriedAll(files, limits, world)
      && (name in after <==>
            hook.BurstAttempts() < limits.maxAttempts && world.now(name) - queuedAt <= limits.ttlSecs
            && !Accepted(world.accepts(name), hook.BurstAttempts()))
      && (name in after ==> after[name].attempts == hook.BurstAttempts() + 1)
  {
  }

  /** The queue after one pass in each of the worlds. */
  function AfterPasses(files: map<FileName, Pending>, limits: Limits, worlds: seq<World>): map<FileName, Pending> {
    if worlds == [] then files
    else RetriedAll(AfterPasses(files, limits, worlds[..|worlds| - 1]), limits, worlds[|worlds| - 1])
  }

  /** Still queued after some passes: nothing about the delivery has changed but its count, and the
      count has stayed within the limit. */
  lemma {:induction false} StillQueued(files: map<FileName, Pending>, limits: Limits, worlds: seq<World>, f: FileName)
    requires f in AfterPasses(files, limits, worlds)
    ensures f in files && AfterPasses(files, limits, worlds)[f] == files[f].(attempts := files[f].attempts + |worlds|)
    ensures worlds != [] ==> files[f].attempts + |worlds| <= limits.maxAttempts
  {
    if worlds != [] {
      StillQueued(files, limits, worlds[..|worlds| - 1], f);
    }
  }

  /** A receiver that never accepts, seen before the delivery is too old. */
  ghost predicate Unhelpful(world: World, f: FileName, d: Pending, limits: Limits) {
    && !(d.createdAt.Some? && world.now(f) - d.createdAt.value > limits.ttlSecs)
    && !Accepted(world.accepts(f), d.hook.BurstAttempts())
  }

  /** The passes after which a delivery queued with `b` attempts is gone, whatever happens. */
  function PassesLeft(b: nat, m: nat): nat {
    (if b < m then m - b else 0) + 1
  }

  /** That number is the limit itself, as documented, only when the burst is a single try or the limit
      is 1. */
  lemma DocumentedPasses(hook: Webhook, m: nat)
    ensures PassesLeft(hook.BurstAttempts(), m) == m <==> 1 <= m && (hook.BurstAttempts() == 1 || m == 1)
  {
  }

  /** A delivery freshly queued after a failed burst of `b` tries is gone after `max(0, M - b) + 1`
      passes whatever the receiver does, and no sooner when the receiver never accepts: the burst
      counts against the limit `M`. */
  lemma {:induction false} QueueDrains(files: map<FileName, Pending>, limits: Limits, worlds: seq<World>, f: FileName)
    requires f in files && files[f].attempts == files[f].hook.BurstAttempts()
    ensures
      var b, m := files[f].hook.BurstAttempts(), limits.maxAttempts;
      && (PassesLeft(b, m) <= |worlds| ==> f !in AfterPasses(files, limits, worlds))
      && ((forall w | w in worlds :: Unhelpful(w, f, files[f], limits)) && (worlds == [] || b + |worlds| <= m)
          ==> f in AfterPasses(files, limits, worlds))
  {
    if f in AfterPasses(files, limits, worlds) {
      StillQueued(files, limits, worlds, f);
    }
    if worlds != [] {
      var earlier, last := worlds[..|worlds| - 1], worlds[|worlds| - 1];
      QueueDrains(files, limits, earlier, f);
      assert last in worlds && forall w :: w in earlier ==> w in worlds;
      if f in AfterPasses(files, limits, earlier) {
        StillQueued(files, limits, earlier, f);
      }
    }
  }
}
