/**
 Query analytics: per-user buckets of one minute each, pruned by age and number.
 */
module Analytics {
  import opened Wrappers

  const HARD_CAP_POINTS := 20160

  datatype Point = Point(ts: int, count: nat)

  predicate Increasing(points: seq<Point>) {
    forall i, j :: 0 <= i < j < |points| ==> points[i].ts < points[j].ts
  }

  // ----- pruning -----

  function Recent(points: seq<Point>, cutoff: int): seq<Point> {
    if points == [] then []
    else (if points[0].ts >= cutoff then [points[0]] else []) + Recent(points[1..], cutoff)
  }

  function LastPoints(points: seq<Point>): seq<Point> {
    if |points| <= HARD_CAP_POINTS then points else points[|points| - HARD_CAP_POINTS..]
  }

  /** The pruning as written: the filter runs only when the first point is old. */
  function Pruned(points: seq<Point>, cutoff: int): seq<Point> {
    LastPoints(if points != [] && points[0].ts < cutoff then Recent(points, cutoff) else points)
  }

  method PrunePoints(points: seq<Point>, cutoff: int) returns (r: seq<Point>)
    ensures r == Pruned(points, cutoff)
  {
    r := points;
    if r != [] && r[0].ts < cutoff {
      r := Retain(r, cutoff);
    }
    while |r| > HARD_CAP_POINTS
      invariant LastPoints(r) == Pruned(points, cutoff)
    {
      LastOfTail(r);
      r := r[1..];
    }
  }

  lemma LastOfTail(points: seq<Point>)
    requires HARD_CAP_POINTS < |points|
    ensures LastPoints(points[1..]) == LastPoints(points)
  {
  }

  method Retain(points: seq<Point>, cutoff: int) returns (r: seq<Point>)
    ensures r == Recent(points, cutoff)
  {
    r := [];
    assert points[0..] == points;
    for i := 0 to |points|
      invariant r + Recent(points[i..], cutoff) == Recent(points, cutoff)
    {
      RecentStep(r, points, i, cutoff);
      if points[i].ts >= cutoff {
        r := r + [points[i]];
      }
    }
  }

  lemma {:induction false} RecentStep(r: seq<Point>, points: seq<Point>, i: nat, cutoff: int)
    requires i < |points|
    ensures r + Recent(points[i..], cutoff)
        == (if points[i].ts >= cutoff then r + [points[i]] else r) + Recent(points[i + 1..], cutoff)
  {
    assert points[i..][0] == points[i] && points[i..][1..] == points[i + 1..];
  }

  /** The first `k` points are older than the cutoff and the others are not. */
  ghost predicate OldUpTo(points: seq<Point>, cutoff: int, k: nat) {
    && k <= |points| && (forall i :: 0 <= i < k ==> points[i].ts < cutoff)
    && forall i :: k <= i < |points| ==> points[i].ts >= cutoff
  }

  function OldCount(points: seq<Point>, cutoff: int): nat {
    if points == [] || points[0].ts >= cutoff then 0 else 1 + OldCount(points[1..], cutoff)
  }

  lemma {:induction false} OldCountCuts(points: seq<Point>, cutoff: int)
    requires Increasing(points)
    ensures OldUpTo(points, cutoff, OldCount(points, cutoff))
  {
    if points != [] && points[0].ts < cutoff {
      OldCountCuts(points[1..], cutoff);
      var k := OldCount(points[1..], cutoff);
      assert forall i :: 0 < i < |points| ==> points[i] == points[1..][i - 1];
    }
  }

  /** How many points an unconditional filter followed by the cap removes from the front. */
  function DropCount(points: seq<Point>, cutoff: int): nat {
    var aged := OldCount(points, cutoff);
    if aged < |points| - HARD_CAP_POINTS then |points| - HARD_CAP_POINTS else aged
  }

  lemma {:induction false} RecentIsSuffix(points: seq<Point>, cutoff: int)
    requires Increasing(points)
    ensures OldCount(points, cutoff) <= |points| && Recent(points, cutoff) == points[OldCount(points, cutoff)..]
  {
    if points != [] {
      RecentIsSuffix(points[1..], cutoff);
      if points[0].ts >= cutoff {
        OldCountCuts(points, cutoff);
        assert OldCount(points[1..], cutoff) == 0;
      }
    }
  }

  /** On increasing points the guard does not matter: pruning is the unconditional filter and then
      the cap, and removes a prefix. */
  lemma {:induction false} PruneIsFilterThenCap(points: seq<Point>, cutoff: int)
    requires Increasing(points)
    ensures Pruned(points, cutoff) == LastPoints(Recent(points, cutoff))
    ensures DropCount(points, cutoff) <= |points| && Pruned(points, cutoff) == points[DropCount(points, cutoff)..]
  {
    RecentIsSuffix(points, cutoff);
    OldCountCuts(points, cutoff);
  }

  /** Was any point before the cutoff? */
  predicate NoneOld(points: seq<Point>, cutoff: int) {
    forall i :: 0 <= i < |points| ==> cutoff <= points[i].ts
  }

  lemma {:induction false} RecentIsAll(points: seq<Point>, cutoff: int)
    ensures |Recent(points, cutoff)| <= |points|
    ensures Recent(points, cutoff) == points <==> NoneOld(points, cutoff)
  {
    if points != [] {
      RecentIsAll(points[1..], cutoff);
      assert points == [points[0]] + points[1..];
    }
  }

  /** On points in any order the guard looks at the first only: within the cap, pruning is the filter
      exactly when that one is old or none is. */
  lemma {:induction false} GuardExact(points: seq<Point>, cutoff: int)
    requires |points| <= HARD_CAP_POINTS
    ensures Pruned(points, cutoff) == Recent(points, cutoff)
        <==> NoneOld(points, cutoff) || points[0].ts < cutoff
  {
    RecentIsAll(points, cutoff);
  }

  // ----- one user's buckets -----

  /** `t / 60 * 60`, division truncating toward zero. */
  function MinuteOf(t: int): int {
    if 0 <= t then t / 60 * 60 else -(-t / 60 * 60)
  }

  lemma MinuteMonotone(s: int, t: int)
    requires s <= t
    ensures MinuteOf(s) <= MinuteOf(t)
  {
  }

  /** `t` lies in the 60 seconds from `60 * m` on. */
  predicate InMinute(m: int, t: int) {
    60 * m <= t < 60 * m + 60
  }

  lemma MinuteIsFloor(t: int)
    requires 0 <= t
    ensures InMinute(t / 60, t) && MinuteOf(t) == 60 * (t / 60)
  {
  }

  lemma OneMinute(m: int, n: int, t: int)
    requires InMinute(m, t) && InMinute(n, t)
    ensures m == n
  {
  }

  /** From the epoch on, two times share a bucket exactly when they lie in the same minute, and the
      bucket is named by its first second.  Truncation joins the minute before the epoch to the one
      after it. */
  lemma {:induction false} MinuteExact(s: int, t: int)
    ensures 0 <= s && 0 <= t ==> (MinuteOf(s) == MinuteOf(t) <==> exists m :: InMinute(m, s) && InMinute(m, t))
    ensures 0 <= t ==> exists m :: InMinute(m, t) && MinuteOf(t) == 60 * m
    ensures MinuteOf(t) == 0 <==> -60 < t < 60
    ensures MinuteOf(-t) == -MinuteOf(t)
  {
    if 0 <= s && 0 <= t {
      hide MinuteOf, InMinute;
      MinuteIsFloor(s);
      MinuteIsFloor(t);
      if exists m :: InMinute(m, s) && InMinute(m, t) {
        var m :| InMinute(m, s) && InMinute(m, t);
        OneMinute(m, s / 60, s);
        OneMinute(m, t / 60, t);
      }
    }
    if 0 <= t {
      MinuteIsFloor(t);
    }
    MinuteZero(t);
  }

  lemma MinuteZero(t: int)
    ensures (MinuteOf(t) == 0 <==> -60 < t < 60) && MinuteOf(-t) == -MinuteOf(t)
  {
  }

  /** One query counted in the bucket of its minute, or in a new bucket. */
  function Counted(points: seq<Point>, minute: int): seq<Point> {
    if points != [] && points[|points| - 1].ts == minute
    then points[..|points| - 1] + [Point(minute, points[|points| - 1].count + 1)]
    else points + [Point(minute, 1)]
  }

  /** What happens to one user's buckets: a query counted in its minute and then pruned, or a
      flush, which only prunes. */
  datatype Op = Count(minute: int, cutoff: int) | Sweep(cutoff: int)

  /** Neither minutes nor cutoffs go back. */
  predicate Steady(ops: seq<Op>) {
    forall i, j :: 0 <= i < j < |ops| ==>
      ops[i].cutoff <= ops[j].cutoff && (ops[i].Count? && ops[j].Count? ==> ops[i].minute <= ops[j].minute)
  }

  function Next(points: seq<Point>, op: Op): seq<Point> {
    Pruned(if op.Count? then Counted(points, op.minute) else points, op.cutoff)
  }

  function Buckets(ops: seq<Op>): seq<Point> {
    if ops == [] then [] else Next(Buckets(ops[..|ops| - 1]), ops[|ops| - 1])
  }

  /** The buckets nothing was ever pruned from. */
  function History(ops: seq<Op>): seq<Point> {
    if ops == [] then []
    else
      var before, op := History(ops[..|ops| - 1]), ops[|ops| - 1];
      if op.Count? then Counted(before, op.minute) else before
  }

  function Queries(ops: seq<Op>): nat {
    if ops == [] then 0
    else Queries(ops[..|ops| - 1]) + if ops[|ops| - 1].Count? then 1 else 0
  }

  function Sum(points: seq<Point>): nat {
    if points == [] then 0 else Sum(points[..|points| - 1]) + points[|points| - 1].count
  }

  lemma {:induction false} SumSplits(a: seq<Point>, b: seq<Point>)
    ensures Sum(a + b) == Sum(a) + Sum(b)
  {
    if b == [] {
      assert a + b == a;
    } else {
      assert (a + b)[..|a + b| - 1] == a + b[..|b| - 1];
      SumSplits(a, b[..|b| - 1]);
    }
  }

  lemma {:induction false} CountedSum(points: seq<Point>, minute: int)
    ensures Sum(Counted(points, minute)) == Sum(points) + 1
  {
    var all := Counted(points, minute);
    var n := |all| - 1;
    assert all[..n] == points[..n];
    if |points| == n {
      assert points[..n] == points;
    }
  }

  lemma SameTimes(points: seq<Point>, all: seq<Point>, minute: int)
    requires |all| == |points| && Increasing(points) && UpTo(points, minute)
    requires forall i :: 0 <= i < |points| ==> all[i].ts == points[i].ts
    ensures Increasing(all) && UpTo(all, minute)
  {
  }

  lemma LaterTime(points: seq<Point>, p: Point)
    requires Increasing(points) && UpTo(points, p.ts) && (points != [] ==> points[|points| - 1].ts < p.ts)
    ensures Increasing(points + [p]) && UpTo(points + [p], p.ts)
  {
  }

  predicate Extends(points: seq<Point>, all: seq<Point>) {
    |points| <= |all| && forall i :: 0 <= i < |points| ==> all[i].ts == points[i].ts
  }

  lemma {:induction false} CountedGrows(points: seq<Point>, minute: int)
    requires Increasing(points) && UpTo(points, minute)
    ensures
      var all := Counted(points, minute);
      Increasing(all) && UpTo(all, minute) && Extends(points, all) && Sum(all) == Sum(points) + 1
  {
    hide Sum;
    CountedSum(points, minute);
    var n := |points|;
    if points != [] && points[n - 1].ts == minute {
      SameTimes(points, points[..n - 1] + [Point(minute, points[n - 1].count + 1)], minute);
    } else {
      LaterTime(points, Point(minute, 1));
    }
  }

  predicate UpTo(points: seq<Point>, minute: int) {
    forall i :: 0 <= i < |points| ==> points[i].ts <= minute
  }

  lemma {:induction false} HistoryGrows(ops: seq<Op>, minute: int) returns (history: seq<Point>)
    requires Steady(ops) && forall i :: 0 <= i < |ops| && ops[i].Count? ==> ops[i].minute <= minute
    ensures history == History(ops)
    ensures Increasing(history) && Sum(history) == Queries(ops) && UpTo(history, minute)
  {
    history := [];
    if ops != [] {
      var op := ops[|ops| - 1];
      var m := if op.Count? then op.minute else minute;
      history := HistoryGrows(ops[..|ops| - 1], m);
      if op.Count? {
        CountedGrows(history, m);
        history := Counted(history, m);
      }
    }
  }

  lemma {:induction false} OldCountIs(points: seq<Point>, cutoff: int, k: nat)
    requires OldUpTo(points, cutoff, k)
    ensures OldCount(points, cutoff) == k
  {
    if 0 < k {
      OldCountIs(points[1..], cutoff, k - 1);
    }
  }

  /** The points left of a history by filtering and capping it once. */
  ghost predicate LeftOf(points: seq<Point>, history: seq<Point>, cutoff: int) {
    DropCount(history, cutoff) <= |history| && points == history[DropCount(history, cutoff)..]
  }

  lemma {:induction false} OldCountGrows(history: seq<Point>, all: seq<Point>, cutoff: int, later: int)
    requires cutoff <= later && Extends(history, all)
    ensures OldCount(history, cutoff) <= OldCount(all, later)
    decreases |history|
  {
    if history != [] && history[0].ts < cutoff {
      assert all[0].ts == history[0].ts;
      OldCountGrows(history[1..], all[1..], cutoff, later);
    }
  }

  lemma DropCountGrows(history: seq<Point>, all: seq<Point>, cutoff: int, later: int)
    requires cutoff <= later && Extends(history, all)
    ensures DropCount(history, cutoff) <= DropCount(all, later)
  {
    OldCountGrows(history, all, cutoff, later);
  }

  lemma DropsAddUp(history: seq<Point>, d: nat, cutoff: int)
    requires Increasing(history) && d <= DropCount(history, cutoff) && d <= |history|
    ensures d + DropCount(history[d..], cutoff) == DropCount(history, cutoff)
  {
    OldCountCuts(history, cutoff);
    var aged := OldCount(history, cutoff);
    OldCountIs(history[d..], cutoff, if d <= aged then aged - d else 0);
  }

  /** Pruning a suffix prunes the history, if no more is gone already. */
  lemma PruneAgain(history: seq<Point>, d: nat, cutoff: int)
    requires Increasing(history) && d <= DropCount(history, cutoff) && d <= |history|
    ensures LeftOf(Pruned(history[d..], cutoff), history, cutoff)
  {
    DropsAddUp(history, d, cutoff);
    PruneIsFilterThenCap(history, cutoff);
    PruneIsFilterThenCap(history[d..], cutoff);
    var k := DropCount(history[d..], cutoff);
    assert history[d..][k..] == history[d + k..];
  }

  lemma CountedSuffix(history: seq<Point>, d: nat, minute: int)
    requires d <= |history| && (d == |history| && history != [] ==> history[|history| - 1].ts != minute)
    ensures Counted(history[d..], minute) == Counted(history, minute)[d..]
  {
  }

  /** Counting a query in the pruned buckets or in the whole history comes to the same once both
      are pruned at a later cutoff. */
  lemma CountThenPrune(points: seq<Point>, history: seq<Point>, minute: int, cutoff: int, later: int)
    requires Increasing(history) && cutoff <= later && LeftOf(points, history, cutoff)
    requires UpTo(history, minute)
    ensures LeftOf(Pruned(Counted(points, minute), later), Counted(history, minute), later)
  {
    if points == [] && history != [] && history[|history| - 1].ts == minute {
      BucketComesBack(history, minute, cutoff, later);
      assert Counted(points, minute) == [Point(minute, 1)];
    } else {
      CountKept(history, minute, cutoff, later);
    }
  }

  lemma CountKept(history: seq<Point>, minute: int, cutoff: int, later: int)
    requires Increasing(history) && cutoff <= later && DropCount(history, cutoff) <= |history|
    requires UpTo(history, minute)
    requires DropCount(history, cutoff) == |history| && history != [] ==> history[|history| - 1].ts != minute
    ensures
      var points := history[DropCount(history, cutoff)..];
      LeftOf(Pruned(Counted(points, minute), later), Counted(history, minute), later)
  {
    CountedGrows(history, minute);
    CountedSuffix(history, DropCount(history, cutoff), minute);
    DropCountGrows(history, Counted(history, minute), cutoff, later);
    PruneAgain(Counted(history, minute), DropCount(history, cutoff), later);
  }

  /** A bucket pruned within its own minute comes back with the next query, and goes again. */
  lemma BucketComesBack(history: seq<Point>, minute: int, cutoff: int, later: int)
    requires Increasing(history) && cutoff <= later && DropCount(history, cutoff) == |history|
    requires history != [] && history[|history| - 1].ts == minute
    ensures LeftOf(Pruned([Point(minute, 1)], later), Counted(history, minute), later)
  {
    var all, kept := Counted(history, minute), [Point(minute, 1)];
    OldCountCuts(history, cutoff);
    assert history[|history| - 1].ts < cutoff;
    OldCountIs(all, later, |all|);
    OldCountIs(kept, later, 1);
    PruneIsFilterThenCap(kept, later);
    assert all[|all|..] == [] == kept[1..];
  }

  function LastCutoff(ops: seq<Op>, default: int): int {
    if ops == [] then default else ops[|ops| - 1].cutoff
  }

  lemma {:induction false} BucketsAreLeftOfHistory(ops: seq<Op>, cutoff: int) returns (points: seq<Point>)
    requires Steady(ops)
    ensures points == Buckets(ops) && LeftOf(points, History(ops), LastCutoff(ops, cutoff))
  {
    points := [];
    if ops != [] {
      var earlier, op := ops[..|ops| - 1], ops[|ops| - 1];
      points := BucketsAreLeftOfHistory(earlier, op.cutoff);
      var history := HistoryGrows(earlier, if op.Count? then op.minute else LastMinute(earlier));
      NextLeft(points, history, op, LastCutoff(earlier, op.cutoff));
      points := Next(points, op);
    }
  }

  /** A bound on the minutes counted. */
  function LastMinute(ops: seq<Op>): (m: int)
    ensures forall i :: 0 <= i < |ops| && ops[i].Count? ==> ops[i].minute <= m
  {
    if ops == [] then 0
    else
      var m, op := LastMinute(ops[..|ops| - 1]), ops[|ops| - 1];
      if op.Count? && m < op.minute then op.minute else m
  }

  lemma NextLeft(points: seq<Point>, history: seq<Point>, op: Op, cutoff: int)
    requires Increasing(history) && cutoff <= op.cutoff && LeftOf(points, history, cutoff)
    requires op.Count? ==> UpTo(history, op.minute)
    ensures LeftOf(Next(points, op), if op.Count? then Counted(history, op.minute) else history, op.cutoff)
  {
    if op.Count? {
      CountThenPrune(points, history, op.minute, cutoff, op.cutoff);
    } else {
      DropCountGrows(history, history, cutoff, op.cutoff);
      PruneAgain(history, DropCount(history, cutoff), op.cutoff);
    }
  }

  /** Whatever was pruned on the way, the buckets are those of the whole history that are recent
      enough and among the last 20160 at the last cutoff; what is missing is a prefix, and kept and
      pruned counts together are the user's total. */
  lemma {:induction false} BucketsAreRecentHistory(ops: seq<Op>)
    requires Steady(ops) && ops != []
    ensures
      var history, cutoff := History(ops), ops[|ops| - 1].cutoff;
      var d := DropCount(history, cutoff);
      && Increasing(Buckets(ops))
      && Buckets(ops) == LastPoints(Recent(history, cutoff))
      && d <= |history| && Buckets(ops) == history[d..]
      && Sum(history[..d]) + Sum(Buckets(ops)) == Queries(ops)
  {
    var history := HistoryGrows(ops, LastMinute(ops));
    var points := BucketsAreLeftOfHistory(ops, 0);
    LeftAndDropped(points, history, ops[|ops| - 1].cutoff);
  }

  lemma {:induction false} LeftAndDropped(points: seq<Point>, history: seq<Point>, cutoff: int)
    requires Increasing(history) && LeftOf(points, history, cutoff)
    ensures Increasing(points) && points == LastPoints(Recent(history, cutoff))
    ensures Sum(history[..DropCount(history, cutoff)]) + Sum(points) == Sum(history)
  {
    PruneIsFilterThenCap(history, cutoff);
    SumAtCut(history, DropCount(history, cutoff));
  }

  lemma {:induction false} SumAtCut(points: seq<Point>, d: nat)
    requires d <= |points|
    ensures Sum(points[..d]) + Sum(points[d..]) == Sum(points)
  {
    SumSplits(points[..d], points[d..]);
    assert points[..d] + points[d..] == points;
  }

  // ----- all users together -----

  /** What the points hold for a minute. */
  function CountAt(points: seq<Point>, ts: int): nat {
    if points == [] then 0
    else CountAt(points[..|points| - 1], ts) + if points[|points| - 1].ts == ts then points[|points| - 1].count else 0
  }

  function Minutes(points: seq<Point>): (m: set<int>)
    ensures m == {} <==> points == []
  {
    if points == [] then {} else Minutes(points[..|points| - 1]) + {points[|points| - 1].ts}
  }

  /** The points of the users, one user after the other. */
  function Flat(volume: map<string, seq<Point>>, users: seq<string>): seq<Point> {
    if users == [] then [] else Flat(volume, users[..|users| - 1]) + PointsIn(volume, users[|users| - 1])
  }

  function PointsIn(volume: map<string, seq<Point>>, username: string): seq<Point> {
    if username in volume then volume[username] else []
  }

  /** The sum over the users of what they hold for a minute. */
  function TotalAt(volume: map<string, seq<Point>>, users: seq<string>, ts: int): nat {
    if users == [] then 0
    else TotalAt(volume, users[..|users| - 1], ts) + CountAt(PointsIn(volume, users[|users| - 1]), ts)
  }

  function Total(volume: map<string, seq<Point>>, users: seq<string>): nat {
    if users == [] then 0
    else Total(volume, users[..|users| - 1]) + Sum(PointsIn(volume, users[|users| - 1]))
  }

  lemma {:induction false} CountSplits(a: seq<Point>, b: seq<Point>, ts: int)
    ensures CountAt(a + b, ts) == CountAt(a, ts) + CountAt(b, ts)
  {
    if b == [] {
      assert a + b == a;
    } else {
      assert (a + b)[..|a + b| - 1] == a + b[..|b| - 1];
      CountSplits(a, b[..|b| - 1], ts);
    }
  }

  lemma {:induction false} FlatTotals(volume: map<string, seq<Point>>, users: seq<string>, ts: int)
    ensures CountAt(Flat(volume, users), ts) == TotalAt(volume, users, ts)
    ensures Sum(Flat(volume, users)) == Total(volume, users)
  {
    if users != [] {
      var earlier, last := users[..|users| - 1], PointsIn(volume, users[|users| - 1]);
      FlatTotals(volume, earlier, ts);
      CountSplits(Flat(volume, earlier), last, ts);
      SumSplits(Flat(volume, earlier), last);
    }
  }

  function At(merged: map<int, nat>, ts: int): nat {
    if ts in merged then merged[ts] else 0
  }

  /** The map holds, minute by minute, what the points do. */
  ghost predicate Merged(points: seq<Point>, merged: map<int, nat>) {
    merged.Keys == Minutes(points) && forall ts :: At(merged, ts) == CountAt(points, ts)
  }

  lemma MergePoint(points: seq<Point>, p: Point, merged: map<int, nat>)
    requires Merged(points, merged)
    ensures Merged(points + [p], merged[p.ts := At(merged, p.ts) + p.count])
  {
    MinutesSnoc(points, p);
    forall ts
      ensures CountAt(points + [p], ts) == At(merged, ts) + if p.ts == ts then p.count else 0
    {
      CountSnoc(points, p, ts);
    }
  }

  lemma {:induction false} MinutesSnoc(points: seq<Point>, p: Point)
    ensures Minutes(points + [p]) == Minutes(points) + {p.ts}
  {
    assert (points + [p])[..|points + [p]| - 1] == points;
  }

  lemma {:induction false} CountSnoc(points: seq<Point>, p: Point, ts: int)
    ensures CountAt(points + [p], ts) == CountAt(points, ts) + if p.ts == ts then p.count else 0
  {
    assert (points + [p])[..|points + [p]| - 1] == points;
  }

  /** The points of other minutes. */
  function Without(points: seq<Point>, ts: int): seq<Point> {
    if points == [] then []
    else Without(points[..|points| - 1], ts) + if points[|points| - 1].ts == ts then [] else [points[|points| - 1]]
  }

  lemma {:induction false} WithoutFacts(points: seq<Point>, ts: int)
    ensures Sum(points) == Sum(Without(points, ts)) + CountAt(points, ts)
    ensures Minutes(Without(points, ts)) == Minutes(points) - {ts}
    ensures forall t :: t != ts ==> CountAt(Without(points, ts), t) == CountAt(points, t)
  {
    if points != [] {
      var p := points[|points| - 1];
      var earlier := Without(points[..|points| - 1], ts);
      WithoutFacts(points[..|points| - 1], ts);
      if p.ts == ts {
        assert earlier + [] == earlier;
      } else {
        assert (earlier + [p])[..|earlier + [p]| - 1] == earlier;
      }
    }
  }

  /** A list with one point per minute, each with the sum of that minute, has the same grand total. */
  lemma {:induction false} SameGrandTotal(result: seq<Point>, points: seq<Point>)
    requires Increasing(result) && Minutes(result) == Minutes(points)
    requires forall i :: 0 <= i < |result| ==> result[i].count == CountAt(points, result[i].ts)
    ensures Sum(result) == Sum(points)
    decreases |result|
  {
    if result != [] {
      var earlier, last := result[..|result| - 1], result[|result| - 1];
      WithoutFacts(points, last.ts);
      MinutesBefore(earlier, last.ts);
      SameGrandTotal(earlier, Without(points, last.ts));
    }
  }

  lemma {:induction false} MinutesBefore(points: seq<Point>, ts: int)
    requires forall i :: 0 <= i < |points| ==> points[i].ts < ts
    ensures ts !in Minutes(points)
  {
    if points != [] {
      MinutesBefore(points[..|points| - 1], ts);
    }
  }

  method Earliest(entries: set<Point>) returns (p: Point)
    requires entries != {}
    ensures p in entries && forall q :: q in entries ==> p.ts <= q.ts
  {
    p :| p in entries;
    var rest := entries - {p};
    while rest != {}
      invariant p in entries && rest <= entries && forall q :: q in entries && q !in rest ==> p.ts <= q.ts
      decreases |rest|
    {
      var q :| q in rest;
      rest := rest - {q};
      if q.ts < p.ts {
        p := q;
      }
    }
  }

  /** The first entries in order, and the set of those still to come. */
  ghost predicate PartSorted(merged: map<int, nat>, result: seq<Point>, rest: set<Point>) {
    && Minutes(result) <= merged.Keys && LeftToSort(merged, Minutes(result), rest)
    && Increasing(result) && AllBefore(result, rest) && CountsOf(merged, result)
  }

  ghost predicate LeftToSort(merged: map<int, nat>, done: set<int>, rest: set<Point>) {
    forall p :: p in rest <==> p.ts in merged && p.count == merged[p.ts] && p.ts !in done
  }

  ghost predicate AllBefore(result: seq<Point>, rest: set<Point>) {
    forall i, p :: 0 <= i < |result| && p in rest ==> result[i].ts < p.ts
  }

  predicate CountsOf(merged: map<int, nat>, result: seq<Point>) {
    forall i :: 0 <= i < |result| ==> result[i].count == At(merged, result[i].ts)
  }

  lemma LessToSort(merged: map<int, nat>, done: set<int>, rest: set<Point>, p: Point)
    requires LeftToSort(merged, done, rest) && p in rest
    ensures LeftToSort(merged, done + {p.ts}, rest - {p})
    ensures forall q :: q in rest - {p} ==> q.ts != p.ts
  {
    forall q: Point
      ensures q in rest && q.ts == p.ts ==> q == p
    {
    }
  }

  lemma OrderedStep(result: seq<Point>, rest: set<Point>, p: Point)
    requires Increasing(result) && AllBefore(result, rest) && p in rest
    requires forall q :: q in rest - {p} ==> p.ts < q.ts
    ensures Increasing(result + [p]) && AllBefore(result + [p], rest - {p})
  {
  }

  lemma CountsStep(merged: map<int, nat>, result: seq<Point>, p: Point)
    requires CountsOf(merged, result) && p.count == At(merged, p.ts)
    ensures CountsOf(merged, result + [p])
  {
  }

  lemma SortStep(merged: map<int, nat>, result: seq<Point>, rest: set<Point>, p: Point)
    requires PartSorted(merged, result, rest)
    requires p in rest && forall q :: q in rest ==> p.ts <= q.ts
    ensures PartSorted(merged, result + [p], rest - {p})
  {
    MinutesSnoc(result, p);
    LessToSort(merged, Minutes(result), rest, p);
    OrderedStep(result, rest, p);
    CountsStep(merged, result, p);
  }

  /** The entries of a map in the order of their keys. */
  method SortByKey(merged: map<int, nat>) returns (result: seq<Point>)
    ensures Increasing(result) && Minutes(result) == merged.Keys
    ensures forall i :: 0 <= i < |result| ==> result[i].count == At(merged, result[i].ts)
  {
    result := [];
    var rest := set ts | ts in merged :: Point(ts, merged[ts]);
    while rest != {}
      invariant PartSorted(merged, result, rest)
      decreases |rest|
    {
      var p := Earliest(rest);
      SortStep(merged, result, rest, p);
      result := result + [p];
      rest := rest - {p};
    }
    forall ts | ts in merged
      ensures ts in Minutes(result)
    {
      assert Point(ts, merged[ts]) !in rest;
    }
  }

  /** One user's buckets after a prune of `users`. */
  function PrunedIn(volume: map<string, seq<Point>>, users: set<string>, cutoff: int, u: string): seq<Point> {
    if u in users then Next(PointsIn(volume, u), Sweep(cutoff)) else PointsIn(volume, u)
  }

  /** The buckets after a prune of `users`: theirs pruned, the others as they were. */
  function PrunedFor(volume: map<string, seq<Point>>, users: set<string>, cutoff: int): map<string, seq<Point>> {
    map u | u in volume.Keys + users :: PrunedIn(volume, users, cutoff, u)
  }

  /** The buckets of some users pruned, one user at a time. */
  method PruneUsers(
    volume: map<string, seq<Point>>, users: set<string>, cutoff: int) returns (r: map<string, seq<Point>>)
    ensures r == PrunedFor(volume, users, cutoff)
  {
    r := volume;
    var left := users;
    PrunedNobody(volume, cutoff);
    assert users - left == {};
    while left != {}
      invariant left <= users
      invariant r == PrunedFor(volume, users - left, cutoff)
      decreases |left|
    {
      var u :| u in left;
      PrunedOneMore(volume, users, left, cutoff, u);
      var points := PrunePoints(PointsIn(r, u), cutoff);
      assert points == PrunedIn(volume, users, cutoff, u);
      r := r[u := points];
      left := left - {u};
    }
    assert users - left == users;
  }

  lemma PrunedNobody(volume: map<string, seq<Point>>, cutoff: int)
    ensures PrunedFor(volume, {}, cutoff) == volume
  {
  }

  lemma PrunedUser(volume: map<string, seq<Point>>, users: set<string>, cutoff: int, u: string)
    ensures PointsIn(PrunedFor(volume, users, cutoff), u) == PrunedIn(volume, users, cutoff, u)
  {
  }

  lemma SamePrunes(
    volume: map<string, seq<Point>>, users: set<string>, more: set<string>, cutoff: int, u: string, v: string)
    requires more == users + {u} && v != u
    ensures PrunedIn(volume, more, cutoff, v) == PrunedIn(volume, users, cutoff, v)
  {
  }

  lemma PrunedOneMore(volume: map<string, seq<Point>>, users: set<string>, left: set<string>, cutoff: int, u: string)
    requires u in left && left <= users
    ensures
      var r := PrunedFor(volume, users - left, cutoff);
      && PointsIn(r, u) == PointsIn(volume, u)
      && r[u := PrunedIn(volume, users, cutoff, u)] == PrunedFor(volume, users - (left - {u}), cutoff)
  {
    var done, more := users - left, users - (left - {u});
    assert more == done + {u};
    PrunedUser(volume, done, cutoff, u);
    forall v | v != u
      ensures PrunedIn(volume, more, cutoff, v) == PrunedIn(volume, done, cutoff, v)
    {
      SamePrunes(volume, done, more, cutoff, u, v);
    }
  }

  /** The counts of all points, user by user. */
  method MergeAll(volume: map<string, seq<Point>>, users: seq<string>) returns (merged: map<int, nat>)
    requires forall u :: u in users ==> u in volume
    ensures Merged(Flat(volume, users), merged)
  {
    merged := map[];
    for k := 0 to |users|
      invariant Merged(Flat(volume, users[..k]), merged)
    {
      var points := volume[users[k]];
      ghost var done := Flat(volume, users[..k]);
      FlatNext(volume, users, k);
      for i := 0 to |points|
        invariant Merged(done + points[..i], merged)
      {
        MergeStep(done, points, i, merged);
        merged := merged[points[i].ts := At(merged, points[i].ts) + points[i].count];
      }
    }
    assert users[..|users|] == users;
  }

  lemma {:induction false} FlatNext(volume: map<string, seq<Point>>, users: seq<string>, k: nat)
    requires k < |users| && users[k] in volume
    ensures
      var done, points := Flat(volume, users[..k]), volume[users[k]];
      done + points[..0] == done && Flat(volume, users[..k + 1]) == done + points[..|points|]
  {
    assert users[..k + 1][..k] == users[..k];
  }

  lemma MergeStep(done: seq<Point>, points: seq<Point>, i: nat, merged: map<int, nat>)
    requires i < |points| && Merged(done + points[..i], merged)
    ensures Merged(done + points[..i + 1], merged[points[i].ts := At(merged, points[i].ts) + points[i].count])
  {
    MergePoint(done + points[..i], points[i], merged);
    assert done + points[..i + 1] == done + points[..i] + [points[i]];
  }

  /** The tracker's fields. */
  datatype Tracker = Tracker(volume: map<string, seq<Point>>, totals: map<string, nat>, dirty: set<string>)

  /** A call and the clock readings it takes.  A flush without a configured store only forgets who is
      dirty; users also stay dirty when the upload fails. */
  datatype Call = Track(username: string, now: int, cutoffNow: int) | Flush(now: int, configured: bool, uploaded: bool)

  function TotalOf(totals: map<string, nat>, username: string): nat {
    if username in totals then totals[username] else 0
  }

  function AfterTrack(t: Tracker, u: string, now: int, cutoff: int): Tracker {
    Tracker(t.volume[u := Next(PointsIn(t.volume, u), Count(MinuteOf(now), cutoff))],
            t.totals[u := TotalOf(t.totals, u) + 1], t.dirty + {u})
  }

  function AfterFlush(t: Tracker, cutoff: int, configured: bool, uploaded: bool): Tracker {
    if t.dirty == {} then t
    else if !configured then t.(dirty := {})
    else Tracker(PrunedFor(t.volume, t.dirty, cutoff), t.totals, if uploaded then {} else t.dirty)
  }

  function AfterCall(t: Tracker, call: Call, retention: int): Tracker {
    match call
    case Track(u, now, cutoffNow) => AfterTrack(t, u, now, cutoffNow - retention)
    case Flush(now, configured, uploaded) => AfterFlush(t, now - retention, configured, uploaded)
  }

  class QueryTracker {
    var volume: map<string, seq<Point>>
    var totals: map<string, nat>
    var dirty: set<string>
    const retentionSecs: int

    function State(): Tracker
      reads this
    {
      Tracker(volume, totals, dirty)
    }

    constructor (retentionSecs: int)
      ensures State() == Tracker(map[], map[], {}) && this.retentionSecs == retentionSecs
    {
      volume, totals, dirty := map[], map[], {};
      this.retentionSecs := retentionSecs;
    }

    method TrackQuery(username: string, now: int, cutoffNow: int)
      modifies this
      ensures State() == AfterTrack(old(State()), username, now, cutoffNow - retentionSecs)
    {
      var minute := MinuteOf(now);
      var entry := PointsIn(volume, username);
      var cutoff := cutoffNow - retentionSecs;
      if entry != [] {
        var last := entry[|entry| - 1];
        if last.ts == minute {
          entry := entry[|entry| - 1 := last.(count := last.count + 1)];
        } else {
          entry := entry + [Point(minute, 1)];
        }
      } else {
        entry := entry + [Point(minute, 1)];
      }
      assert entry == Counted(PointsIn(volume, username), minute);
      entry := PrunePoints(entry, cutoff);
      assert entry == Next(PointsIn(volume, username), Count(minute, cutoff));
      volume := volume[username := entry];
      totals := totals[username := TotalOf(totals, username) + 1];
      dirty := dirty + {username};
    }

    method FlushDirty(now: int, configured: bool, uploaded: bool) returns (rows: nat)
      modifies this
      ensures State() == AfterFlush(old(State()), now - retentionSecs, configured, uploaded)
      ensures rows == if configured && uploaded then |old(dirty)| else 0
    {
      hide PrunedFor;
      var users := dirty;
      rows := 0;
      if users == {} {
        return;
      }
      if !configured {
        dirty := {};
        return;
      }
      var pruned := PruneUsers(volume, users, now - retentionSecs);
      volume := pruned;
      if uploaded {
        rows := |users|;
        dirty := {};
      }
    }

    /** All users' buckets together, the users visited in the order the map lists them: strictly
        sorted, each minute the sum over the users, and nothing lost or counted twice. */
    method GetVolumeAll(users: seq<string>) returns (result: seq<Point>)
      requires (forall u :: u in users <==> u in volume) && forall i, j :: 0 <= i < j < |users| ==> users[i] != users[j]
      ensures Increasing(result) && Minutes(result) == Minutes(Flat(volume, users))
      ensures forall i :: 0 <= i < |result| ==> result[i].count == TotalAt(volume, users, result[i].ts)
      ensures Sum(result) == Total(volume, users)
    {
      var merged := MergeAll(volume, users);
      result := SortByKey(merged);
      SortedTotals(volume, users, merged, result);
    }
  }

  lemma {:induction false} SortedTotals(
    volume: map<string, seq<Point>>, users: seq<string>, merged: map<int, nat>, result: seq<Point>)
    requires Merged(Flat(volume, users), merged)
    requires Increasing(result) && Minutes(result) == merged.Keys
    requires forall i :: 0 <= i < |result| ==> result[i].count == At(merged, result[i].ts)
    ensures forall i :: 0 <= i < |result| ==> result[i].count == TotalAt(volume, users, result[i].ts)
    ensures Sum(result) == Total(volume, users)
  {
    forall i | 0 <= i < |result|
      ensures result[i].count == CountAt(Flat(volume, users), result[i].ts) == TotalAt(volume, users, result[i].ts)
    {
      FlatTotals(volume, users, result[i].ts);
    }
    SameGrandTotal(result, Flat(volume, users));
    FlatTotals(volume, users, 0);
  }

  // ----- every run of the tracker -----

  function RunCalls(calls: seq<Call>, retention: int): Tracker {
    if calls == [] then Tracker(map[], map[], {})
    else AfterCall(RunCalls(calls[..|calls| - 1], retention), calls[|calls| - 1], retention)
  }

  /** What a call does to the buckets of one user, if anything. */
  function OpsOf(t: Tracker, call: Call, retention: int, u: string): seq<Op> {
    match call
    case Track(username, now, cutoffNow) => if username == u then [Count(MinuteOf(now), cutoffNow - retention)] else []
    case Flush(now, configured, _) => if configured && u in t.dirty then [Sweep(now - retention)] else []
  }

  function UserOps(calls: seq<Call>, retention: int, u: string): seq<Op> {
    if calls == [] then []
    else
      var earlier := calls[..|calls| - 1];
      UserOps(earlier, retention, u) + OpsOf(RunCalls(earlier, retention), calls[|calls| - 1], retention, u)
  }

  function LastRead(call: Call): int {
    if call.Track? then call.cutoffNow else call.now
  }

  /** The clock never goes back and has reached `bound`. */
  predicate ClockForward(calls: seq<Call>, bound: int) {
    && (forall i :: 0 <= i < |calls| ==> calls[i].now <= LastRead(calls[i]) <= bound)
    && forall i, j :: 0 <= i < j < |calls| ==> LastRead(calls[i]) <= calls[j].now
  }

  lemma {:induction false} UserOpsSteady(calls: seq<Call>, retention: int, u: string, bound: int)
    requires ClockForward(calls, bound)
    ensures Steady(UserOps(calls, retention, u))
    ensures forall op | op in UserOps(calls, retention, u) ::
              op.cutoff <= bound - retention && (op.Count? ==> op.minute <= MinuteOf(bound))
  {
    if calls != [] {
      var last := calls[|calls| - 1];
      UserOpsSteady(calls[..|calls| - 1], retention, u, last.now);
      MinuteMonotone(last.now, bound);
    }
  }

  lemma {:induction false} OneMore(ops: seq<Op>, op: Op)
    ensures Buckets(ops + [op]) == Next(Buckets(ops), op)
    ensures Queries(ops + [op]) == Queries(ops) + if op.Count? then 1 else 0
  {
    assert (ops + [op])[..|ops + [op]| - 1] == ops;
  }

  lemma {:induction false} Follows(ops: seq<Op>, more: seq<Op>, points: seq<Point>, total: nat)
    requires |more| <= 1
    requires points == (if more == [] then Buckets(ops) else Next(Buckets(ops), more[0]))
    requires total == Queries(ops) + if more != [] && more[0].Count? then 1 else 0
    ensures points == Buckets(ops + more) && total == Queries(ops + more)
  {
    if more == [] {
      assert ops + more == ops;
    } else {
      assert more == [more[0]];
      OneMore(ops, more[0]);
    }
  }

  /** The user's buckets after a call. */
  function PointsAfter(t: Tracker, call: Call, retention: int, u: string): seq<Point> {
    PointsIn(AfterCall(t, call, retention).volume, u)
  }

  lemma TrackOnPoints(t: Tracker, v: string, now: int, cutoff: int, u: string)
    ensures PointsIn(AfterTrack(t, v, now, cutoff).volume, u)
            == if v == u then Next(PointsIn(t.volume, u), Count(MinuteOf(now), cutoff)) else PointsIn(t.volume, u)
  {
  }

  lemma FlushOnPoints(t: Tracker, cutoff: int, configured: bool, uploaded: bool, u: string)
    ensures PointsIn(AfterFlush(t, cutoff, configured, uploaded).volume, u)
            == if configured then PrunedIn(t.volume, t.dirty, cutoff, u) else PointsIn(t.volume, u)
  {
    PrunedUser(t.volume, t.dirty, cutoff, u);
  }

  lemma CallOnPoints(t: Tracker, call: Call, retention: int, u: string)
    ensures
      var ops := OpsOf(t, call, retention, u);
      && |ops| <= 1
      && PointsAfter(t, call, retention, u)
         == if ops == [] then PointsIn(t.volume, u) else Next(PointsIn(t.volume, u), ops[0])
  {
    match call
    case Track(v, now, cutoffNow) => TrackOnPoints(t, v, now, cutoffNow - retention, u);
    case Flush(now, configured, uploaded) => FlushOnPoints(t, now - retention, configured, uploaded, u);
  }

  lemma CallOnTotal(t: Tracker, call: Call, retention: int, u: string)
    ensures TotalOf(AfterCall(t, call, retention).totals, u)
            == TotalOf(t.totals, u) + if call.Track? && call.username == u then 1 else 0
  {
  }

  lemma {:induction false} CallOnUser(t: Tracker, call: Call, retention: int, u: string, ops: seq<Op>)
    requires PointsIn(t.volume, u) == Buckets(ops) && TotalOf(t.totals, u) == Queries(ops)
    ensures PointsAfter(t, call, retention, u) == Buckets(ops + OpsOf(t, call, retention, u))
    ensures TotalOf(AfterCall(t, call, retention).totals, u) == Queries(ops + OpsOf(t, call, retention, u))
  {
    CallOnPoints(t, call, retention, u);
    CallOnTotal(t, call, retention, u);
    Follows(ops, OpsOf(t, call, retention, u), PointsAfter(t, call, retention, u),
            TotalOf(AfterCall(t, call, retention).totals, u));
  }

  lemma {:induction false} UserRun(calls: seq<Call>, retention: int, u: string)
    ensures PointsIn(RunCalls(calls, retention).volume, u) == Buckets(UserOps(calls, retention, u))
    ensures TotalOf(RunCalls(calls, retention).totals, u) == Queries(UserOps(calls, retention, u))
  {
    if calls != [] {
      var earlier := calls[..|calls| - 1];
      UserRun(earlier, retention, u);
      CallOnUser(RunCalls(earlier, retention), calls[|calls| - 1], retention, u, UserOps(earlier, retention, u));
    }
  }

  /** After any run of queries and flushes under a clock that never goes back, each user's buckets
      are strictly increasing, are what filtering and capping the unpruned history once would leave,
      and add up, with what was pruned, to the user's total. */
  lemma {:induction false} TrackerKeepsRecentHistory(calls: seq<Call>, retention: int, u: string, bound: int)
    requires ClockForward(calls, bound)
    ensures
      var t, ops := RunCalls(calls, retention), UserOps(calls, retention, u);
      var points := PointsIn(t.volume, u);
      && Increasing(points)
      && (ops == [] ==> points == [] && TotalOf(t.totals, u) == 0)
      && (ops != [] ==>
            var history, cutoff := History(ops), ops[|ops| - 1].cutoff;
            && points == LastPoints(Recent(history, cutoff))
            && DropCount(history, cutoff) <= |history|
            && Sum(history[..DropCount(history, cutoff)]) + Sum(points) == TotalOf(t.totals, u))
  {
    var ops := UserOps(calls, retention, u);
    UserOpsSteady(calls, retention, u, bound);
    UserRun(calls, retention, u);
    if ops != [] {
      BucketsAreRecentHistory(ops);
    }
  }

  /** A flush after which nobody is dirty. */
  predicate Settles(call: Call) {
    call.Flush? && (call.uploaded || !call.configured)
  }

  /** A query of the user that no such flush has followed. */
  ghost predicate Owed(calls: seq<Call>, u: string) {
    exists i ::
      && 0 <= i < |calls| && calls[i].Track? && calls[i].username == u
      && forall j :: i < j < |calls| ==> !Settles(calls[j])
  }

  lemma {:induction false} OwedStep(calls: seq<Call>, u: string)
    requires calls != []
    ensures
      var last := calls[|calls| - 1];
      Owed(calls, u) <==>
        (last.Track? && last.username == u) || (Owed(calls[..|calls| - 1], u) && !Settles(last))
  {
    var n := |calls| - 1;
    var earlier := calls[..n];
    if Owed(calls, u) && !(calls[n].Track? && calls[n].username == u) {
      var i :|
        && 0 <= i < |calls| && calls[i].Track? && calls[i].username == u
        && forall j :: i < j < |calls| ==> !Settles(calls[j]);
      assert earlier[i] == calls[i];
    }
    if Owed(earlier, u) && !Settles(calls[n]) {
      var i :|
        && 0 <= i < n && earlier[i].Track? && earlier[i].username == u
        && forall j :: i < j < n ==> !Settles(earlier[j]);
      assert calls[i] == earlier[i] && forall j :: i < j < n ==> calls[j] == earlier[j];
    }
  }

  /** In any run, the dirty users are those with a query that no successful flush has followed; where no
      store is configured, that no flush has. */
  lemma {:induction false} DirtyExact(calls: seq<Call>, retention: int, u: string)
    ensures u in RunCalls(calls, retention).dirty <==> Owed(calls, u)
  {
    if calls != [] {
      hide PrunedFor, Next;
      DirtyExact(calls[..|calls| - 1], retention, u);
      OwedStep(calls, u);
    }
  }
}
