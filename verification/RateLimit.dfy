/**
 The fixed-window rate limiter.  Instants are nanoseconds on a monotonic clock; elapsed times are
 truncated to whole seconds before they are compared with the window.
 */
module RateLimit {
  import opened Wrappers

  const NANOS := 1_000_000_000

  datatype Entry = Entry(count: nat, windowStart: nat, max: nat)

  datatype Snapshot = Snapshot(remaining: nat, limit: nat, resetInSecs: nat)

  function ElapsedSecs(e: Entry, now: nat): nat {
    if now < e.windowStart then 0 else (now - e.windowStart) / NANOS
  }

  predicate Stale(e: Entry, now: nat, window: nat) {
    ElapsedSecs(e, now) > window
  }

  function Monus(a: nat, b: nat): nat {
    if b < a then a - b else 0
  }

  /** One call: the entry it leaves, and what is left of the budget or the refusal. */
  function Checked(entry: Option<Entry>, max: nat, now: nat, window: nat): (Entry, Result<nat, nat>) {
    var e := if entry.Some? then entry.value else Entry(0, now, max);
    if Stale(e, now, window) then (Entry(1, now, max), Ok(Monus(max, 1)))
    else if e.count >= e.max then (e, Err(0))
    else (e.(count := e.count + 1), Ok(e.max - (e.count + 1)))
  }

  function Peeked(entry: Option<Entry>, max: nat, now: nat, window: nat): Snapshot {
    if entry.None? then Snapshot(max, max, window)
    else if Stale(entry.value, now, window) then Snapshot(max, max, 0)
    else Snapshot(Monus(max, entry.value.count), max, Monus(window, ElapsedSecs(entry.value, now)))
  }

  function Lookup(store: map<string, Entry>, key: string): Option<Entry> {
    if key in store then Some(store[key]) else None
  }

  class RateLimiter {
    var store: map<string, Entry>
    const defaultMax: nat
    const windowSecs: nat

    constructor (defaultMax: nat, windowSecs: nat)
      ensures store == map[] && this.defaultMax == defaultMax && this.windowSecs == windowSecs
    {
      this.store := map[];
      this.defaultMax := defaultMax;
      this.windowSecs := windowSecs;
    }

    method Check(key: string, now: nat) returns (r: Result<nat, nat>)
      modifies this
      ensures
        var (e, answer) := Checked(Lookup(old(store), key), defaultMax, now, windowSecs);
        store == old(store)[key := e] && r == answer
    {
      r := CheckWithLimit(key, defaultMax, now);
    }

    method CheckWithLimit(key: string, max: nat, now: nat) returns (r: Result<nat, nat>)
      modifies this
      ensures
        var (e, answer) := Checked(Lookup(old(store), key), max, now, windowSecs);
        store == old(store)[key := e] && r == answer
    {
      if key !in store {
        store := store[key := Entry(0, now, max)];
      }
      var e := store[key];
      var elapsed := ElapsedSecs(e, now);
      if elapsed > windowSecs {
        e := e.(count := 1);
        e := e.(windowStart := now);
        e := e.(max := max);
        store := store[key := e];
        r := Ok(Monus(max, 1));
      } else if e.count >= e.max {
        r := Err(0);
      } else {
        e := e.(count := e.count + 1);
        store := store[key := e];
        r := Ok(Monus(e.max, e.count));
      }
    }

    method Peek(key: string, max: nat, now: nat) returns (s: Snapshot)
      ensures s == Peeked(Lookup(store, key), max, now, windowSecs)
    {
      if key !in store {
        return Snapshot(max, max, windowSecs);
      }
      var e := store[key];
      var elapsed := ElapsedSecs(e, now);
      if elapsed > windowSecs {
        return Snapshot(max, max, 0);
      }
      s := Snapshot(Monus(max, e.count), max, Monus(windowSecs, elapsed));
    }
  }

  // ----- runs of calls for one key -----

  /** How many of the calls at these times are admitted. */
  function Admitted(entry: Option<Entry>, times: seq<nat>, max: nat, window: nat): nat
    decreases |times|
  {
    if times == [] then 0
    else
      var (e, r) := Checked(entry, max, times[0], window);
      (if r.Ok? then 1 else 0) + Admitted(Some(e), times[1..], max, window)
  }

  function After(entry: Option<Entry>, times: seq<nat>, max: nat, window: nat): Option<Entry>
    decreases |times|
  {
    if times == [] then entry
    else After(Some(Checked(entry, max, times[0], window).0), times[1..], max, window)
  }

  predicate Sorted(times: seq<nat>) {
    forall i, j :: 0 <= i < j < |times| ==> times[i] <= times[j]
  }

  /** An entry some calls with the limit `max` have left, none later than `now`. */
  predicate Reached(entry: Option<Entry>, max: nat, now: nat) {
    entry.Some? ==> entry.value.max == max && entry.value.count <= max && entry.value.windowStart <= now
  }

  /** The length of a window in nanoseconds: it ends when one second more than `window` has passed. */
  function Period(window: nat): nat {
    (window + 1) * NANOS
  }

  lemma StaleAfterPeriod(e: Entry, now: nat, window: nat)
    requires e.windowStart <= now
    ensures Stale(e, now, window) <==> e.windowStart + Period(window) <= now
  {
    var d := now - e.windowStart;
    if d / NANOS > window {
      assert d >= (d / NANOS) * NANOS >= (window + 1) * NANOS;
    } else {
      assert d < (d / NANOS + 1) * NANOS <= (window + 1) * NANOS;
    }
  }

  /** `n * p`, by addition. */
  function Times(n: nat, p: nat): nat {
    if n == 0 then 0 else Times(n - 1, p) + p
  }

  lemma {:induction false} TimesIsProduct(n: nat, p: nat)
    ensures Times(n, p) == n * p
  {
    if 0 < n {
      TimesIsProduct(n - 1, p);
      assert n * p == (n - 1) * p + p;
    }
  }

  /** From inside a window: what is left of it, and a full budget for each of the `q` further windows
      that can start by `last`. */
  lemma {:induction false} WindowBudget(e: Entry, times: seq<nat>, max: nat, window: nat, last: nat, q: nat)
    requires Sorted(times) && (forall i :: 0 <= i < |times| ==> e.windowStart <= times[i] <= last)
    requires e.max == max && e.count <= max && 1 <= max
    requires last < e.windowStart + Times(q + 1, Period(window))
    ensures Admitted(Some(e), times, max, window) <= max - e.count + Times(q, max)
    decreases |times|
  {
    if times != [] {
      var t := times[0];
      var (next, r) := Checked(Some(e), max, t, window);
      StaleAfterPeriod(e, t, window);
      if Stale(e, t, window) {
        assert 0 < q && Times(q + 1, Period(window)) == Times(q, Period(window)) + Period(window);
        WindowBudget(next, times[1..], max, window, last, q - 1);
      } else {
        WindowBudget(next, times[1..], max, window, last, q);
      }
    }
  }

  /** In any span of `secs` seconds of any run with a constant limit, at most
      `max * (secs / (window + 1) + 2)` calls for a key are admitted. */
  lemma {:induction false} SpanBound(entry: Option<Entry>, times: seq<nat>, max: nat, window: nat, secs: nat)
    requires Sorted(times) && times != [] && times[|times| - 1] - times[0] <= secs * NANOS
    requires 1 <= max && Reached(entry, max, times[0])
    ensures Admitted(entry, times, max, window) <= max * (secs / (window + 1) + 2)
  {
    var s := secs / (window + 1);
    SpanInPeriods(secs, window);
    SpanBudget(entry, times, max, window, s);
    TimesIsProduct(s + 2, max);
    assert (s + 2) * max == max * (s + 2);
  }

  lemma SpanBudget(entry: Option<Entry>, times: seq<nat>, max: nat, window: nat, s: nat)
    requires Sorted(times) && times != [] && times[|times| - 1] - times[0] < Times(s + 1, Period(window))
    requires 1 <= max && Reached(entry, max, times[0])
    ensures Admitted(entry, times, max, window) <= Times(s + 2, max)
  {
    var first, last := times[0], times[|times| - 1];
    if entry.None? || Stale(entry.value, first, window) {
      RestartedAdmits(entry, times, max, window);
      WindowBudget(Entry(0, first, max), times, max, window, last, s);
    } else {
      StaleAfterPeriod(entry.value, first, window);
      WindowBudget(entry.value, times, max, window, last, s + 1);
    }
  }

  /** A new key and a stale window start afresh with the first call. */
  lemma {:induction false} RestartedAdmits(entry: Option<Entry>, times: seq<nat>, max: nat, window: nat)
    requires times != [] && 1 <= max && (entry.None? || Stale(entry.value, times[0], window))
    ensures Admitted(entry, times, max, window) == Admitted(Some(Entry(0, times[0], max)), times, max, window)
  {
    assert Checked(entry, max, times[0], window).0 == Entry(1, times[0], max)
        == Checked(Some(Entry(0, times[0], max)), max, times[0], window).0;
  }

  /** A span of `secs` seconds is shorter than one period more than it holds whole. */
  lemma SpanInPeriods(secs: nat, window: nat)
    ensures secs * NANOS < Times(secs / (window + 1) + 1, Period(window))
  {
    var w := window + 1;
    var q := secs / w + 1;
    TimesIsProduct(q, Period(window));
    assert secs < q * w;
    assert q * Period(window) == (q * w) * NANOS;
  }

  /** The entry is reached by any earlier part of the run, so the bound holds of every span. */
  lemma {:induction false} ReachedByRun(entry: Option<Entry>, times: seq<nat>, max: nat, window: nat, now: nat)
    requires Sorted(times) && (forall i :: 0 <= i < |times| ==> times[i] <= now) && 1 <= max
    requires Reached(entry, max, if times == [] then now else times[0])
    ensures Reached(After(entry, times, max, window), max, now)
    decreases |times|
  {
    if times != [] {
      var next := Some(Checked(entry, max, times[0], window).0);
      ReachedByRun(next, times[1..], max, window, now);
    }
  }

  lemma {:induction false} SpanOfRunBound(times: seq<nat>, i: nat, j: nat, max: nat, window: nat, secs: nat)
    requires Sorted(times) && i <= j < |times| && times[j] - times[i] <= secs * NANOS && 1 <= max
    ensures Admitted(After(None, times[..i], max, window), times[i..j + 1], max, window)
            <= max * (secs / (window + 1) + 2)
  {
    ReachedByRun(None, times[..i], max, window, times[i]);
    SpanBound(After(None, times[..i], max, window), times[i..j + 1], max, window, secs);
  }

  /** A limit of 0 is not kept: of two calls, the second on a stale window, the second is admitted. */
  lemma {:induction false} ZeroLimitAdmits(window: nat)
    ensures Admitted(None, [0, Period(window)], 0, window) == 1
  {
    var times := [0, Period(window)];
    StaleAfterPeriod(Entry(0, 0, 0), Period(window), window);
    assert times[1..] == [Period(window)] && [Period(window)][1..] == [];
    assert Admitted(Some(Entry(0, 0, 0)), [Period(window)], 0, window) == 1;
  }

  /** In this stretch of this run the bound is kept. */
  ghost predicate SpanKept(times: seq<nat>, i: nat, j: nat, max: nat, window: nat, secs: nat)
    requires i <= j < |times|
  {
    times[j] - times[i] <= secs * NANOS ==>
      Admitted(After(None, times[..i], max, window), times[i..j + 1], max, window) <= max * (secs / (window + 1) + 2)
  }

  /** The bound is kept in every stretch of every run exactly when the limit is at least 1. */
  lemma {:induction false} SpanKeptExact(max: nat, window: nat)
    ensures
      (forall times: seq<nat>, i: nat, j: nat, secs: nat ::
         Sorted(times) && i <= j < |times| ==> SpanKept(times, i, j, max, window, secs))
      <==> 1 <= max
  {
    if 1 <= max {
      forall times: seq<nat>, i: nat, j: nat, secs: nat | Sorted(times) && i <= j < |times|
        ensures SpanKept(times, i, j, max, window, secs)
      {
        if times[j] - times[i] <= secs * NANOS {
          SpanOfRunBound(times, i, j, max, window, secs);
        }
      }
    } else {
      var times := [0, Period(window)];
      ZeroLimitAdmits(window);
      assert times[..0] == [] && times[0..2] == times;
      assert Sorted(times) && !SpanKept(times, 0, 1, max, window, window + 1);
    }
  }

  // ----- peek tells the truth -----

  /** How many calls at the instant `now` would still be admitted. */
  function Room(entry: Option<Entry>, max: nat, now: nat, window: nat): nat {
    if entry.None? then max
    else if Stale(entry.value, now, window) then (if max == 0 then 1 else max)
    else Monus(entry.value.max, entry.value.count)
  }

  /** How many of `k` calls at one instant are admitted. */
  function BurstAdmitted(entry: Option<Entry>, k: nat, max: nat, now: nat, window: nat): nat {
    Admitted(entry, seq(k, i => now), max, window)
  }

  function Min(a: nat, b: nat): nat {
    if a <= b then a else b
  }

  lemma {:induction false} BurstAdmitsRoom(entry: Option<Entry>, k: nat, max: nat, now: nat, window: nat)
    ensures BurstAdmitted(entry, k, max, now, window) == Min(k, Room(entry, max, now, window))
    decreases k
  {
    if 0 < k {
      var (e, r) := Checked(entry, max, now, window);
      var times := seq(k, i => now);
      assert times[1..] == seq(k - 1, i => now);
      BurstAdmitsRoom(Some(e), k - 1, max, now, window);
    }
  }

  /** A burst at one instant admits exactly what `peek` said remained, for every length, if and only
      if the limit is one that can be in force: any for a new key, at least 1 for a stale window,
      the stored one for a live window (or one already used up, like the stored one). */
  lemma PeekExact(entry: Option<Entry>, max: nat, now: nat, window: nat)
    ensures
      (forall k: nat :: BurstAdmitted(entry, k, max, now, window) == Min(k, Peeked(entry, max, now, window).remaining))
      <==>
      (entry.None?
       || (Stale(entry.value, now, window) && 1 <= max)
       || (!Stale(entry.value, now, window) &&
           (max == entry.value.max || (max <= entry.value.count && entry.value.max <= entry.value.count))))
  {
    var room, remaining := Room(entry, max, now, window), Peeked(entry, max, now, window).remaining;
    forall k: nat
      ensures BurstAdmitted(entry, k, max, now, window) == Min(k, room)
    {
      BurstAdmitsRoom(entry, k, max, now, window);
    }
    if room != remaining {
      var k := if room < remaining then remaining else room;
      assert BurstAdmitted(entry, k, max, now, window) == room;
    }
  }

  /** The number in the answer to a call, admitted or refused, is what a burst at that instant would
      still get, and what `peek` reports under the limit in force. */
  lemma {:induction false} AnswerIsRoom(entry: Option<Entry>, max: nat, now: nat, window: nat)
    ensures
      var (e, answer) := Checked(entry, max, now, window);
      var left := match answer case Ok(n) => n case Err(n) => n;
      && (forall k: nat :: BurstAdmitted(Some(e), k, max, now, window) == Min(k, left))
      && left == Peeked(Some(e), e.max, now, window).remaining
      && (answer.Err? ==> left == 0)
  {
    var (e, answer) := Checked(entry, max, now, window);
    forall k: nat
      ensures BurstAdmitted(Some(e), k, max, now, window) == Min(k, Room(Some(e), max, now, window))
    {
      BurstAdmitsRoom(Some(e), k, max, now, window);
    }
  }

  /** One second more than `peek` reports restores the full budget, and only that second does: a
      live window is still live after the reported time itself. */
  lemma WaitingRestores(entry: Option<Entry>, max: nat, now: nat, window: nat)
    requires entry.Some? ==> entry.value.windowStart <= now
    ensures
      var reset := Peeked(entry, max, now, window).resetInSecs;
      && Peeked(entry, max, now + (reset + 1) * NANOS, window).remaining == max
      && (1 <= max ==> BurstAdmitted(entry, max, max, now + (reset + 1) * NANOS, window) == max)
      && (entry.Some? && !Stale(entry.value, now, window) ==> !Stale(entry.value, now + reset * NANOS, window))
      && (entry.Some? && Stale(entry.value, now, window) ==>
            reset == 0 && Peeked(entry, max, now, window).remaining == max)
      && (entry.None? ==> reset == window) && Peeked(entry, max, now, window).limit == max
  {
    BurstAdmitsRoom(entry, max, max, now + (Peeked(entry, max, now, window).resetInSecs + 1) * NANOS, window);
    if entry.Some? {
      var e, reset := entry.value, Peeked(entry, max, now, window).resetInSecs;
      var d := now - e.windowStart;
      AddSeconds(d, reset + 1);
      AddSeconds(d, reset);
    }
  }

  lemma AddSeconds(d: nat, secs: nat)
    ensures (d + secs * NANOS) / NANOS == d / NANOS + secs
  {
  }
}
