/** The sliding window of shares of a Stratum worker (src/zcashpool.h:15-65). */
module Window {
  import opened Arithmetic
  import opened Digits

  const ACCUMULATE_INTERVAL := 60
  const INTERVAL := 9

  /** The window's history: when each share was pushed, and the bucket that counts it.
      Place INTERVAL is past the end: the share has been dropped. */
  datatype History = History(times: seq<int>, places: seq<nat>)

  /** How old a share in bucket j can be, relative to the last shift. */
  predicate AgeFits(j: nat, age: int) {
    if j == 0 then -60 < age <= 0
    else if j < INTERVAL then 60 * (j - 1) < age < 120 * j
    else j == INTERVAL && age > 480
  }

  ghost predicate Aged(h: History, shifted: int) {
    && |h.times| == |h.places|
    && forall i :: 0 <= i < |h.times| ==> AgeFits(h.places[i], shifted - h.times[i])
  }

  /** The shares in the buckets lo .. hi - 1. */
  ghost function In(h: History, lo: nat, hi: nat): set<nat> {
    set i: nat | i < |h.places| && lo <= h.places[i] < hi
  }

  ghost function Bucket(h: History, j: nat): set<nat> { In(h, j, j + 1) }

  /** The shares of an age above lo and at most hi. */
  ghost function OfAge(h: History, shifted: int, lo: int, hi: int): set<nat> {
    set i: nat | i < |h.times| && lo < shifted - h.times[i] <= hi
  }

  function MovedPlace(place: nat, k: nat): nat { if place + k < INTERVAL then place + k else INTERVAL }

  function Moved(h: History, k: nat): (r: History)
    ensures |r.places| == |h.places| && r.times == h.times
    ensures forall i :: 0 <= i < |h.places| ==> r.places[i] == MovedPlace(h.places[i], k)
  {
    h.(places := seq(|h.places|, i requires 0 <= i < |h.places| => MovedPlace(h.places[i], k)))
  }

  /** k zeros in front of the values, cut off at the old length. */
  function Prepended(values: seq<nat>, k: nat): (r: seq<nat>)
    ensures |r| == |values|
  {
    if k < |values| then Zeros(k) + values[..|values| - k] else Zeros(|values|)
  }

  /** The counters hold the sizes of the buckets, as unsigned. */
  ghost predicate Counted(h: History, values: seq<nat>) {
    forall j :: 0 <= j < |values| ==> values[j] == |Bucket(h, j)| % UINT_RANGE
  }

  /** Prepending zeros to the counters moves every share on by k buckets. */
  lemma MoveCounts(h: History, values: seq<nat>, k: nat)
    requires |values| == INTERVAL && Counted(h, values)
    ensures Counted(Moved(h, k), Prepended(values, k))
  {
    hide Bucket, Moved, Zeros;
    var moved := Moved(h, k);
    forall j: nat | j < INTERVAL
      ensures Prepended(values, k)[j] == |Bucket(moved, j)| % UINT_RANGE
    {
      BucketMoves(h, k, j);
    }
  }

  lemma BucketMoves(h: History, k: nat, j: nat)
    requires j < INTERVAL
    ensures Bucket(Moved(h, k), j) == if j < k then {} else Bucket(h, j - k)
  {}

  /** The number of buckets shift() moves on by: the quotient as an unsigned. */
  function ShiftCount(shifted: int, now: int): nat
    requires now - shifted >= ACCUMULATE_INTERVAL
  {
    (now - shifted) / ACCUMULATE_INTERVAL % UINT_RANGE
  }

  function AfterShift(h: History, shifted: int, now: int): History {
    if now - shifted >= ACCUMULATE_INTERVAL then Moved(h, ShiftCount(shifted, now)) else h
  }

  /** The history with a share pushed now. */
  function Pushed(h: History, shifted: int, now: int): History {
    var a := AfterShift(h, shifted, now);
    History(a.times + [now], a.places + [0])
  }

  function LastShift(shifted: int, now: int): int {
    if now - shifted >= ACCUMULATE_INTERVAL then now else shifted
  }

  /** A later shift keeps the age bounds of every history exactly when the count of
      whole intervals since the last one is not cut down to a small one. */
  lemma ShiftKeepsAges(shifted: int, now: int)
    requires now - shifted >= ACCUMULATE_INTERVAL
    ensures (forall h: History :: Aged(h, shifted) ==> Aged(Moved(h, ShiftCount(shifted, now)), now))
            <==> Faithful(shifted, now)
  {
    var k := ShiftCount(shifted, now);
    if Faithful(shifted, now) {
      forall h: History | Aged(h, shifted)
        ensures Aged(Moved(h, k), now)
      {
        MoveAges(h, shifted, now);
      }
    } else {
      // a share of the last shift's second
      var h := History([shifted], [0]);
      assert Aged(h, shifted);
      assert !AgeFits(Moved(h, k).places[0], now - h.times[0]);
    }
  }

  /** Fewer than 2^32 intervals have passed, or all buckets are cleared anyway. */
  predicate Faithful(shifted: int, now: int) {
    now - shifted >= ACCUMULATE_INTERVAL ==>
      (now - shifted) / ACCUMULATE_INTERVAL < UINT_RANGE || ShiftCount(shifted, now) >= INTERVAL
  }

  /** Pushing a share keeps the age bounds of every history exactly when the clock has
      not gone back behind the last shift and the shift, if there is one, keeps them. */
  lemma PushKeepsAges(shifted: int, now: int)
    ensures (forall h: History :: Aged(h, shifted) ==> Aged(Pushed(h, shifted, now), LastShift(shifted, now)))
            <==> shifted <= now && Faithful(shifted, now)
  {
    if shifted <= now && Faithful(shifted, now) {
      forall h: History | Aged(h, shifted)
        ensures Aged(Pushed(h, shifted, now), LastShift(shifted, now))
      {
        PushAges(h, shifted, now);
      }
    } else if now < shifted {
      var h := History([], []);
      assert Aged(h, shifted);
      assert !AgeFits(Pushed(h, shifted, now).places[0], shifted - Pushed(h, shifted, now).times[0]);
    } else {
      var h := History([shifted], [0]);
      assert Aged(h, shifted);
      assert Pushed(h, shifted, now).times[0] == shifted;
      assert !AgeFits(Pushed(h, shifted, now).places[0], now - shifted);
    }
  }

  lemma PushAges(h: History, shifted: int, now: int)
    requires Aged(h, shifted) && shifted <= now && Faithful(shifted, now)
    ensures Aged(Pushed(h, shifted, now), LastShift(shifted, now))
  {
    if now - shifted >= ACCUMULATE_INTERVAL {
      MoveAges(h, shifted, now);
    }
  }

  // ---- runs of pushes ----

  /** The time of the last shift after pushes at the times the clock showed. */
  ghost function ShiftedAfter(start: int, clock: seq<int>): int {
    if clock == [] then start
    else LastShift(ShiftedAfter(start, clock[..|clock| - 1]), clock[|clock| - 1])
  }

  /** The history after those pushes on a new worker. */
  ghost function HistoryAfter(start: int, clock: seq<int>): History {
    if clock == [] then History([], [])
    else
      var before := clock[..|clock| - 1];
      Pushed(HistoryAfter(start, before), ShiftedAfter(start, before), clock[|clock| - 1])
  }

  /** The age bounds hold after every push. */
  ghost predicate AlwaysAged(start: int, clock: seq<int>) {
    forall n :: 0 <= n <= |clock| ==> Aged(HistoryAfter(start, clock[..n]), ShiftedAfter(start, clock[..n]))
  }

  /** What each push finds: a clock not behind the last shift, and, unless it is the
      first push, an interval count that is not cut down to a small one. */
  ghost predicate Steady(start: int, clock: seq<int>) {
    forall n :: 0 <= n < |clock| ==>
      var shifted := ShiftedAfter(start, clock[..n]);
      shifted <= clock[n] && (n > 0 ==> Faithful(shifted, clock[n]))
  }

  /** Every push is recorded with its time, the latest in bucket 0. */
  lemma {:induction false} TimesRecorded(start: int, clock: seq<int>)
    ensures var h := HistoryAfter(start, clock);
      h.times == clock && |h.places| == |clock| && (clock != [] ==> h.places[|clock| - 1] == 0)
  {
    if clock != [] {
      TimesRecorded(start, clock[..|clock| - 1]);
    }
  }

  /** One push on a history that is aged and whose latest share is in bucket 0. */
  lemma PushAgesExactly(h: History, shifted: int, now: int)
    requires Aged(h, shifted) && (h.places != [] ==> h.places[|h.places| - 1] == 0)
    ensures Aged(Pushed(h, shifted, now), LastShift(shifted, now))
            <==> shifted <= now && (h.places != [] ==> Faithful(shifted, now))
  {
    var n, p := |h.places|, Pushed(h, shifted, now);
    if now < shifted {
      assert !AgeFits(p.places[n], shifted - p.times[n]);
    } else if n > 0 && !Faithful(shifted, now) {
      assert AgeFits(h.places[n - 1], shifted - h.times[n - 1]);
      assert p.times[n - 1] == h.times[n - 1];
      assert !AgeFits(p.places[n - 1], now - p.times[n - 1]);
    } else if n > 0 {
      PushAges(h, shifted, now);
    }
  }

  /** In a whole run the age bounds hold after every push exactly when the clock was
      steady. */
  lemma {:induction false} RunKeepsAges(start: int, clock: seq<int>)
    ensures AlwaysAged(start, clock) <==> Steady(start, clock)
  {
    hide Aged, Faithful, Pushed, LastShift, AlwaysAged, Steady;
    NoPushYet(start);
    if clock != [] {
      var n := |clock| - 1;
      var before := clock[..n];
      RunKeepsAges(start, before);
      TimesRecorded(start, before);
      AlwaysAgedLast(start, clock);
      SteadyLast(start, clock);
      if AlwaysAged(start, before) {
        AgedByThen(start, before);
        PushAgesExactly(HistoryAfter(start, before), ShiftedAfter(start, before), clock[n]);
      }
    }
  }

  lemma AgedByThen(start: int, clock: seq<int>)
    requires AlwaysAged(start, clock)
    ensures Aged(HistoryAfter(start, clock), ShiftedAfter(start, clock))
  {
    hide Aged, HistoryAfter, ShiftedAfter;
    assert clock[..|clock|] == clock;
  }

  lemma AlwaysAgedLast(start: int, clock: seq<int>)
    requires clock != []
    ensures AlwaysAged(start, clock)
       <==> AlwaysAged(start, clock[..|clock| - 1]) && Aged(HistoryAfter(start, clock), ShiftedAfter(start, clock))
  {
    hide Aged, HistoryAfter, ShiftedAfter;
    var n := |clock| - 1;
    var before := clock[..n];
    assert clock[..n + 1] == clock;
    assert forall m :: 0 <= m <= n ==> before[..m] == clock[..m];
  }

  lemma SteadyLast(start: int, clock: seq<int>)
    requires clock != []
    ensures var n, before := |clock| - 1, clock[..|clock| - 1];
      var shifted := ShiftedAfter(start, before);
      Steady(start, clock)
      <==> Steady(start, before) && shifted <= clock[n] && (before != [] ==> Faithful(shifted, clock[n]))
  {
    hide Faithful, ShiftedAfter;
    var n := |clock| - 1;
    var before := clock[..n];
    assert forall m :: 0 <= m < n ==> before[..m] == clock[..m] && before[m] == clock[m];
  }

  lemma NoPushYet(start: int)
    ensures AlwaysAged(start, []) && Steady(start, [])
  {}

  /** The clock never goes back, and stays less than 2^32 intervals from its start. */
  predicate InOrder(start: int, clock: seq<int>) {
    && (forall i :: 0 <= i < |clock| ==> start <= clock[i] < start + ACCUMULATE_INTERVAL * UINT_RANGE)
    && (forall i, j :: 0 <= i < j < |clock| ==> clock[i] <= clock[j])
  }

  /** Such a clock is steady: after every run the buckets counted hold every share aged
      up to 480 seconds and none that is younger than the last shift or 960 seconds old. */
  lemma OrderedRun(start: int, clock: seq<int>)
    requires InOrder(start, clock)
    ensures AlwaysAged(start, clock)
    ensures var h, shifted := HistoryAfter(start, clock), ShiftedAfter(start, clock);
      && h.times == clock
      && OfAge(h, shifted, 0, 480) <= In(h, 1, INTERVAL) <= OfAge(h, shifted, 0, 959)
  {
    hide Aged, OfAge, In, InOrder, Steady, AlwaysAged, HistoryAfter, ShiftedAfter;
    OrderedIsSteady(start, clock);
    RunKeepsAges(start, clock);
    TimesRecorded(start, clock);
    AgedByThen(start, clock);
    WindowContents(HistoryAfter(start, clock), ShiftedAfter(start, clock));
  }

  lemma OrderedIsSteady(start: int, clock: seq<int>)
    requires InOrder(start, clock)
    ensures Steady(start, clock)
  {
    hide Faithful, ShiftedAfter;
    forall n | 0 <= n < |clock|
      ensures ShiftedAfter(start, clock[..n]) <= clock[n] && Faithful(ShiftedAfter(start, clock[..n]), clock[n])
    {
      ShiftedWithin(start, clock[..n], clock[n]);
      FewIntervals(ShiftedAfter(start, clock[..n]), clock[n]);
    }
  }

  lemma FewIntervals(shifted: int, now: int)
    requires now - shifted < ACCUMULATE_INTERVAL * UINT_RANGE
    ensures Faithful(shifted, now)
  {}

  lemma {:induction false} ShiftedWithin(start: int, clock: seq<int>, hi: int)
    requires start <= hi && forall i :: 0 <= i < |clock| ==> start <= clock[i] <= hi
    ensures start <= ShiftedAfter(start, clock) <= hi
  {
    if clock != [] {
      ShiftedWithin(start, clock[..|clock| - 1], hi);
    }
  }

  lemma MoveAges(h: History, shifted: int, now: int)
    requires Aged(h, shifted) && now - shifted >= ACCUMULATE_INTERVAL && Faithful(shifted, now)
    ensures Aged(Moved(h, ShiftCount(shifted, now)), now)
  {
    var gap, k := now - shifted, ShiftCount(shifted, now);
    forall i | 0 <= i < |h.times|
      ensures AgeFits(Moved(h, k).places[i], now - h.times[i])
    {
      AgeGrows(h.places[i], shifted - h.times[i], gap, k);
    }
  }

  lemma AgeGrows(j: nat, age: int, gap: int, k: nat)
    requires AgeFits(j, age) && gap >= 60
    requires k == gap / 60 || (k >= INTERVAL && gap >= 60 * k)
    ensures AgeFits(MovedPlace(j, k), age + gap)
  {}

  /** The shares counted in the buckets 1 .. 8: all those aged up to 480 seconds, and
      none that is younger than the last shift or 960 seconds old. */
  lemma WindowContents(h: History, shifted: int)
    requires Aged(h, shifted)
    ensures OfAge(h, shifted, 0, 480) <= In(h, 1, INTERVAL) <= OfAge(h, shifted, 0, 959)
    ensures |OfAge(h, shifted, 0, 480)| <= |In(h, 1, INTERVAL)| <= |OfAge(h, shifted, 0, 959)|
  {
    forall i | i in OfAge(h, shifted, 0, 480)
      ensures i in In(h, 1, INTERVAL)
    {
      assert AgeFits(h.places[i], shifted - h.times[i]);
    }
    forall i | i in In(h, 1, INTERVAL)
      ensures i in OfAge(h, shifted, 0, 959)
    {
      assert AgeFits(h.places[i], shifted - h.times[i]);
    }
    SubsetSize(OfAge(h, shifted, 0, 480), In(h, 1, INTERVAL));
    SubsetSize(In(h, 1, INTERVAL), OfAge(h, shifted, 0, 959));
  }

  lemma {:induction false} SubsetSize(a: set<nat>, b: set<nat>)
    requires a <= b
    ensures |a| <= |b|
  {
    if a != {} {
      var x :| x in a;
      SubsetSize(a - {x}, b - {x});
    }
  }

  lemma OneMoreBucket(h: History, hi: nat)
    requires hi >= 1
    ensures |In(h, 1, hi + 1)| == |In(h, 1, hi)| + |Bucket(h, hi)|
  {
    assert In(h, 1, hi + 1) == In(h, 1, hi) + Bucket(h, hi);
    assert In(h, 1, hi) !! Bucket(h, hi);
  }

  lemma NothingIn(h: History)
    ensures In(h, 1, 1) == {}
  {}

  /** One turn of the loop that adds the buckets up. */
  lemma SumTurn(h: History, values: seq<nat>, sum: nat, i: nat)
    requires 1 <= i < |values| && Counted(h, values) && sum == |In(h, 1, i)| % UINT_RANGE
    ensures (sum + values[i]) % UINT_RANGE == |In(h, 1, i + 1)| % UINT_RANGE
  {
    hide In, Bucket;
    OneMoreBucket(h, i);
    SumModulo(|In(h, 1, i)|, |Bucket(h, i)|);
  }

  lemma SumModulo(a: nat, b: nat)
    ensures (a % UINT_RANGE + b % UINT_RANGE) % UINT_RANGE == (a + b) % UINT_RANGE
  {}

  /** One turn of the loop that moves the values up, from the top down. */
  lemma MoveTurn(before: seq<nat>, now: seq<nat>, k: nat, i: nat)
    requires |before| == INTERVAL && k + i < INTERVAL
    requires now == before[..INTERVAL - i] + before[INTERVAL - k - i..INTERVAL - k]
    ensures now[INTERVAL - i - 1 := now[INTERVAL - k - i - 1]]
         == before[..INTERVAL - i - 1] + before[INTERVAL - k - i - 1..INTERVAL - k]
  {}

  class StratumWorker {
    var begin: int
    const values: array<nat>
    ghost var history: History

    /** The time of the last shift. */
    ghost function Shifted(): int
      reads this
    {
      begin - ACCUMULATE_INTERVAL
    }

    ghost predicate Valid()
      reads this, values
    {
      values.Length == INTERVAL && Counted(history, values[..]) && |history.times| == |history.places|
    }

    constructor (now: int)
      ensures Valid() && fresh(values) && Shifted() == now
      ensures history == History([], []) && Aged(history, now)
    {
      begin := now + ACCUMULATE_INTERVAL;
      values := new nat[INTERVAL](_ => 0);
      history := History([], []);
      new;
      assert forall j: nat :: Bucket(history, j) == {};
    }

    /** values moved on in place by k < 9 buckets. */
    method Move(k: nat)
      requires values.Length == INTERVAL && k < INTERVAL
      modifies values
      ensures values[..] == Prepended(old(values[..]), k)
    {
      ghost var before := values[..];
      for i := 0 to INTERVAL - k
        invariant values[..] == before[..INTERVAL - i] + before[INTERVAL - k - i..INTERVAL - k]
      {
        ghost var now := values[..];
        MoveTurn(before, now, k, i);
        values[INTERVAL - i - 1] := values[INTERVAL - k - i - 1];
        assert values[..] == now[INTERVAL - i - 1 := now[INTERVAL - k - i - 1]];
      }
      ghost var moved := values[..];
      assert moved[k..] == before[..INTERVAL - k];
      ZeroFirst(k);
    }

    method ZeroFirst(k: nat)
      requires values.Length == INTERVAL && k <= INTERVAL
      modifies values
      ensures values[..] == Zeros(k) + old(values[k..])
    {
      ghost var before := values[..];
      for i := 0 to k
        invariant values[..] == Zeros(i) + before[i..]
      {
        ghost var now := values[..];
        values[i] := 0;
        assert values[..] == now[i := 0];
      }
    }

    method Clear()
      requires values.Length == INTERVAL
      modifies values
      ensures values[..] == Zeros(INTERVAL)
    {
      ZeroFirst(INTERVAL);
    }

    method Shift(now: int)
      requires Valid()
      modifies this, values
      ensures Valid() && Shifted() == LastShift(old(Shifted()), now)
      ensures history == AfterShift(old(history), old(Shifted()), now)
      ensures now - old(Shifted()) >= ACCUMULATE_INTERVAL ==>
        values[..] == Prepended(old(values[..]), ShiftCount(old(Shifted()), now))
    {
      var currentTime := now + ACCUMULATE_INTERVAL;
      if currentTime - begin >= ACCUMULATE_INTERVAL {
        var shiftCount := (currentTime - begin) / ACCUMULATE_INTERVAL % UINT_RANGE;
        assert shiftCount == ShiftCount(Shifted(), now);
        MoveCounts(history, values[..], shiftCount);
        if shiftCount < INTERVAL {
          Move(shiftCount);
        } else {
          Clear();
        }
        begin := currentTime;
        history := Moved(history, shiftCount);
      }
    }

    /** now is the clock. While it does not go back behind the last shift, nor far
        ahead of it, the ages stay within their bounds. */
    method PushShare(now: int)
      requires Valid()
      modifies this, values
      ensures Valid() && Shifted() == LastShift(old(Shifted()), now)
      ensures history == Pushed(old(history), old(Shifted()), now)
      ensures old(Aged(history, Shifted())) && old(Shifted()) <= now && Faithful(old(Shifted()), now) ==>
        Aged(history, Shifted())
    {
      if Aged(history, Shifted()) && Shifted() <= now && Faithful(Shifted(), now) {
        PushAges(history, Shifted(), now);
      }
      Shift(now);
      hide Counted, Moved, Aged, Faithful;
      ghost var before, counts := history, values[..];
      values[0] := (values[0] + 1) % UINT_RANGE;
      history := History(history.times + [now], history.places + [0]);
      PushCounts(before, history, counts);
      assert values[..] == counts[0 := (counts[0] + 1) % UINT_RANGE];
    }

    /** Shares per second over the buckets 1 .. 8; between the shares of the last 480
        and those of the last 960 seconds before the last shift. */
    method UpdateStats() returns (speed: real)
      requires Valid()
      ensures speed == (|In(history, 1, INTERVAL)| % UINT_RANGE) as real / 480.0
      ensures Aged(history, Shifted()) && |history.times| < UINT_RANGE ==>
        |OfAge(history, Shifted(), 0, 480)| as real / 480.0 <= speed
        <= |OfAge(history, Shifted(), 0, 959)| as real / 480.0
    {
      hide In, Counted, Aged, OfAge;
      var sum := 0;
      NothingIn(history);
      for i := 1 to INTERVAL
        invariant sum == |In(history, 1, i)| % UINT_RANGE
      {
        SumTurn(history, values[..], sum, i);
        sum := (sum + values[i]) % UINT_RANGE;
      }
      speed := sum as real / ((INTERVAL - 1) * ACCUMULATE_INTERVAL) as real;
      if Aged(history, Shifted()) && |history.times| < UINT_RANGE {
        WindowContents(history, Shifted());
        NoMoreThanAll(history);
      }
    }
  }

  lemma NoMoreThanAll(h: History)
    ensures |In(h, 1, INTERVAL)| <= |h.places|
  {
    SubsetSize(In(h, 1, INTERVAL), Indices(|h.places|));
  }

  ghost function Indices(n: nat): (s: set<nat>)
    ensures |s| == n && forall i: nat :: i in s <==> i < n
  {
    if n == 0 then {} else Indices(n - 1) + {n - 1}
  }

  lemma PushCounts(h: History, h': History, values: seq<nat>)
    requires h'.places == h.places + [0] && |values| == INTERVAL && Counted(h, values)
    ensures Counted(h', values[0 := (values[0] + 1) % UINT_RANGE])
  {
    hide Bucket;
    PushBuckets(h, h', 0);
    forall j: nat | 1 <= j < INTERVAL
      ensures Bucket(h', j) == Bucket(h, j)
    {
      PushBuckets(h, h', j);
    }
  }

  lemma PushBuckets(h: History, h': History, j: nat)
    requires h'.places == h.places + [0]
    ensures if j == 0 then |Bucket(h', 0)| == |Bucket(h, 0)| + 1 else Bucket(h', j) == Bucket(h, j)
  {
    if j == 0 {
      assert Bucket(h', 0) == Bucket(h, 0) + {|h.places|};
    }
  }
}
