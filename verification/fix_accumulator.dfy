/** The GPS fix accumulator of `wait_for_fix`: a state machine that folds a
    stream of decoded NMEA records into one `Fix`.

    The serial reader is replaced by a finite sequence of records; an operator
    interrupt is one more kind of record. When the sequence runs out before a
    fix is complete `wait_for_fix` would still be blocked in `nmr.read()`; the model
    reports that as `Waiting` with the state reached so far. */
module FixAccumulator {
  import opened Results

  /** UTC calendar date carried by an RMC sentence (passed through unchanged). */
  datatype Date = Date(year: int, month: int, day: int)

  /** UTC time of day carried by GGA and RMC sentences (passed through unchanged). */
  datatype Time = Time(hour: int, minute: int, second: int)

  /** One decoded record as the reader delivers it: a GGA, an RMC, any
      sentence of another kind, or an operator interrupt. */
  datatype Msg =
    | GGA(lat: real, lon: real, time: Time, hdop: real)
    | RMC(date: Date, time: Time, status: string)
    | Other
    | Interrupt

  /** A complete fix: position from a GGA, date from an RMC, time from the GGA. */
  datatype Fix = Fix(lat: real, lon: real, date: Date, time: Time)

  /** The four local variables of the accumulator loop. */
  datatype State = State(lat: Option<real>, lon: Option<real>, date: Option<Date>, time: Option<Time>)

  /** How consuming a finite stream ends. */
  datatype Outcome =
    | Acquired(fix: Fix)
    | Cancelled
    | Waiting(state: State)

  const Empty: State := State(None, None, None, None)

  /** The HDOP bound is a literal in the comparison, not the `hdop` argument. */
  const MaxHdop: real := 3.0

  /** The status letter of an RMC sentence whose data is valid. */
  const ValidStatus: string := "A"

  predicate AcceptedGGA(m: Msg) {
    m.GGA? && m.hdop < MaxHdop
  }

  predicate ValidRMC(m: Msg) {
    m.RMC? && m.status == ValidStatus
  }

  predicate Complete(s: State) {
    s.lat.Some? && s.lon.Some? && s.date.Some? && s.time.Some?
  }

  function ToFix(s: State): Fix
    requires Complete(s)
  {
    Fix(s.lat.value, s.lon.value, s.date.value, s.time.value)
  }

  /** The effect of one record on the accumulator: an accepted GGA replaces
      position and time together, a valid RMC replaces the date, and nothing
      else changes anything. */
  function Step(s: State, m: Msg): (r: State)
    ensures AcceptedGGA(m) ==> r.lat == Some(m.lat) && r.lon == Some(m.lon) && r.time == Some(m.time)
    ensures !AcceptedGGA(m) ==> r.lat == s.lat && r.lon == s.lon && r.time == s.time
    ensures ValidRMC(m) ==> r.date == Some(m.date)
    ensures !ValidRMC(m) ==> r.date == s.date
  {
    match m
    case GGA(lat, lon, time, hdop) =>
      if hdop < MaxHdop then s.(lat := Some(lat), lon := Some(lon), time := Some(time)) else s
    case RMC(date, _, status) =>
      if status == ValidStatus then s.(date := Some(date)) else s
    case _ => s
  }

  /** Every record applied in turn, without stopping: the state after `ms`. */
  function Absorb(s: State, ms: seq<Msg>): State
    decreases |ms|
  {
    if |ms| == 0 then s else Step(Absorb(s, ms[..|ms| - 1]), ms[|ms| - 1])
  }

  /** The outcomes the loop can reach from record `i` in state `s`: the fix
      of the first complete state when no interrupt comes before it; a
      cancellation at the first interrupt when no state up to it is complete;
      waiting, with every remaining record applied, when neither happens. */
  ghost predicate LoopOutcome(ms: seq<Msg>, i: nat, s: State, r: Outcome)
    requires i <= |ms|
  {
    && (r.Waiting? ==>
      && r.state == Absorb(s, ms[i..])
      && (forall j :: i <= j < |ms| ==> !ms[j].Interrupt?)
      && (forall j :: i < j <= |ms| ==> !Complete(Absorb(s, ms[i..j]))))
    && (r.Cancelled? ==>
      exists k :: i <= k < |ms| && ms[k].Interrupt?
        && (forall j :: i <= j < k ==> !ms[j].Interrupt?)
        && (forall j :: i < j <= k ==> !Complete(Absorb(s, ms[i..j]))))
    && (r.Acquired? ==>
      exists k :: i < k <= |ms| && Complete(Absorb(s, ms[i..k])) && r.fix == ToFix(Absorb(s, ms[i..k]))
        && (forall j :: i <= j < k ==> !ms[j].Interrupt?)
        && (forall j :: i < j < k ==> !Complete(Absorb(s, ms[i..j]))))
  }

  /** The accumulator loop from record `i` on, in state `s`: it applies the
      remaining records in turn and ends as `LoopOutcome` describes. */
  function Consume(ms: seq<Msg>, i: nat, s: State): (r: Outcome)
    requires i <= |ms|
    ensures LoopOutcome(ms, i, s, r)
    decreases |ms| - i
  {
    if i == |ms| then Waiting(s)
    else if ms[i].Interrupt? then Cancelled
    else
      var s' := Step(s, ms[i]);
      AbsorbFirst(s, ms, i);
      if Complete(s') then Acquired(ToFix(s'))
      else
        var r := Consume(ms, i + 1, s');
        ConsumeShift(ms, i, i + 1, s, r);
        r
  }

  /** The whole loop, from the empty state: a fix at the first record after
      which the stream is ready, cancelled by an interrupt that comes before
      that, waiting when the stream is never ready. */
  function Run(ms: seq<Msg>): (r: Outcome)
    ensures forall n: nat :: n <= |ms| && FixPoint(ms, n) ==>
      Complete(Absorb(Empty, ms[..n])) && r == Acquired(ToFix(Absorb(Empty, ms[..n])))
    ensures forall k :: 0 <= k < |ms| && ms[k].Interrupt? && !Ready(ms, k) ==> r == Cancelled
    ensures !Ready(ms, |ms|) && !Interrupted(ms, |ms|) ==> r == Waiting(Absorb(Empty, ms))
    ensures r.Acquired? <==> exists n :: 0 < n <= |ms| && Ready(ms, n) && !Interrupted(ms, n)
  {
    ConsumeFromStart(ms);
    Consume(ms, 0, Empty)
  }

  /** `wait_for_fix`: the fix, or nothing when interrupted (or still waiting
      at the end of the finite stream). The `hdop` argument is never read.
      A fix comes back exactly when some prefix holds an accepted GGA and a
      valid RMC, in either order, and no interrupt; it carries the latest
      accepted values at the first such record. */
  function WaitForFix(ms: seq<Msg>, hdop: int := 3): (r: Option<Fix>)
    ensures r.Some? <==> exists n :: 0 < n <= |ms| && Ready(ms, n) && !Interrupted(ms, n)
    ensures forall n: nat, g, d :: n <= |ms| && FixPoint(ms, n) && LatestGGA(ms, n, g) && LatestRMC(ms, n, d) ==>
      r == Some(Fix(ms[g].lat, ms[g].lon, ms[d].date, ms[g].time))
  {
    RunReturnsLatest(ms);
    match Run(ms)
    case Acquired(f) => Some(f)
    case _ => None
  }

  // ---------------------------------------------------------------------------
  // Reference definitions over the first n records of a stream.

  ghost predicate SeenGGA(ms: seq<Msg>, n: nat)
    requires n <= |ms|
  {
    exists i :: 0 <= i < n && AcceptedGGA(ms[i])
  }

  ghost predicate SeenRMC(ms: seq<Msg>, n: nat)
    requires n <= |ms|
  {
    exists i :: 0 <= i < n && ValidRMC(ms[i])
  }

  /** Both a qualifying GGA and a valid RMC are among the first n records. */
  ghost predicate Ready(ms: seq<Msg>, n: nat)
    requires n <= |ms|
  {
    SeenGGA(ms, n) && SeenRMC(ms, n)
  }

  ghost predicate Interrupted(ms: seq<Msg>, n: nat)
    requires n <= |ms|
  {
    exists i :: 0 <= i < n && ms[i].Interrupt?
  }

  /** Record n-1 is the first after which the stream is ready, and no
      interrupt came before it. */
  ghost predicate FixPoint(ms: seq<Msg>, n: nat)
    requires n <= |ms|
  {
    0 < n && Ready(ms, n) && !Ready(ms, n - 1) && !Interrupted(ms, n)
  }

  /** Record g is the most recent accepted GGA among the first n. */
  ghost predicate LatestGGA(ms: seq<Msg>, n: nat, g: int)
    requires n <= |ms|
  {
    0 <= g < n && AcceptedGGA(ms[g]) && forall j :: g < j < n ==> !AcceptedGGA(ms[j])
  }

  /** Record d is the most recent valid RMC among the first n. */
  ghost predicate LatestRMC(ms: seq<Msg>, n: nat, d: int)
    requires n <= |ms|
  {
    0 <= d < n && ValidRMC(ms[d]) && forall j :: d < j < n ==> !ValidRMC(ms[j])
  }

  // ---------------------------------------------------------------------------
  // The state after a prefix.

  /** Records that are neither accepted GGAs nor valid RMCs leave the state
      exactly as it was, whatever it was. */
  lemma {:induction false} RejectedRecordsKeepState(s: State, ms: seq<Msg>)
    requires forall i :: 0 <= i < |ms| ==> !AcceptedGGA(ms[i]) && !ValidRMC(ms[i])
    ensures Absorb(s, ms) == s
  {
    if |ms| > 0 {
      RejectedRecordsKeepState(s, ms[..|ms| - 1]);
    }
  }

  lemma PrefixStep(ms: seq<Msg>, n: nat)
    requires n < |ms|
    ensures Absorb(Empty, ms[..n + 1]) == Step(Absorb(Empty, ms[..n]), ms[n])
  {
    assert ms[..n + 1][..n] == ms[..n];
  }

  /** Applying one record and then the rest is applying all of them. */
  lemma {:induction false} AbsorbCons(s: State, x: Msg, t: seq<Msg>)
    ensures Absorb(Step(s, x), t) == Absorb(s, [x] + t)
    decreases |t|
  {
    if |t| == 0 {
      assert ([x] + t)[..0] == [];
    } else {
      AbsorbCons(s, x, t[..|t| - 1]);
      assert ([x] + t)[..|t|] == [x] + t[..|t| - 1];
    }
  }

  /** The loop's first step, stated over the remaining records. */
  lemma AbsorbFirst(s: State, ms: seq<Msg>, i: nat)
    requires i < |ms|
    ensures Absorb(s, ms[i..i + 1]) == Step(s, ms[i])
    ensures Absorb(Step(s, ms[i]), ms[i + 1..]) == Absorb(s, ms[i..])
    ensures forall k :: i < k <= |ms| ==> Absorb(Step(s, ms[i]), ms[i + 1..k]) == Absorb(s, ms[i..k])
  {
    assert ms[i..i + 1] == [ms[i]] + [];
    AbsorbCons(s, ms[i], []);
    assert ms[i..] == [ms[i]] + ms[i + 1..];
    AbsorbCons(s, ms[i], ms[i + 1..]);
    forall k | i < k <= |ms| ensures Absorb(Step(s, ms[i]), ms[i + 1..k]) == Absorb(s, ms[i..k]) {
      assert ms[i..k] == [ms[i]] + ms[i + 1..k];
      AbsorbCons(s, ms[i], ms[i + 1..k]);
    }
  }

  /** What the loop promises from record `n`, the one after `i`, in the
      stepped state carries back to record `i`, when record `i` is neither an
      interrupt nor completes the state. */
  lemma ConsumeShift(ms: seq<Msg>, i: nat, n: nat, s: State, r: Outcome)
    requires n == i + 1 <= |ms| && !ms[i].Interrupt? && !Complete(Step(s, ms[i]))
    requires LoopOutcome(ms, n, Step(s, ms[i]), r)
    ensures LoopOutcome(ms, i, s, r)
  {
    var s' := Step(s, ms[i]);
    AbsorbFirst(s, ms, i);
    match r
    case Waiting(_) =>
      forall j | i < j <= |ms| ensures !Complete(Absorb(s, ms[i..j])) {
        if j > n { assert Absorb(s', ms[n..j]) == Absorb(s, ms[i..j]); }
      }
    case Cancelled =>
      var k :| n <= k < |ms| && ms[k].Interrupt?
        && (forall j :: n <= j < k ==> !ms[j].Interrupt?)
        && (forall j :: n < j <= k ==> !Complete(Absorb(s', ms[n..j])));
      forall j | i < j <= k ensures !Complete(Absorb(s, ms[i..j])) {
        if j > n { assert Absorb(s', ms[n..j]) == Absorb(s, ms[i..j]); }
      }
    case Acquired(_) =>
      var k :| n < k <= |ms| && Complete(Absorb(s', ms[n..k])) && r.fix == ToFix(Absorb(s', ms[n..k]))
        && (forall j :: n <= j < k ==> !ms[j].Interrupt?)
        && (forall j :: n < j < k ==> !Complete(Absorb(s', ms[n..j])));
      assert Absorb(s', ms[n..k]) == Absorb(s, ms[i..k]);
      forall j | i < j < k ensures !Complete(Absorb(s, ms[i..j])) {
        if j > n { assert Absorb(s', ms[n..j]) == Absorb(s, ms[i..j]); }
      }
  }

  /** After the first n records, position and time are set exactly when an
      accepted GGA has been seen, and then hold the most recent one's values. */
  lemma {:induction false} AbsorbTracksLatestGGA(ms: seq<Msg>, n: nat)
    requires n <= |ms|
    ensures var s := Absorb(Empty, ms[..n]);
      && (s.lat.Some? <==> SeenGGA(ms, n))
      && (s.lon.Some? <==> SeenGGA(ms, n))
      && (s.time.Some? <==> SeenGGA(ms, n))
      && (forall g :: LatestGGA(ms, n, g) ==>
            s.lat == Some(ms[g].lat) && s.lon == Some(ms[g].lon) && s.time == Some(ms[g].time))
  {
    if n == 0 {
      assert ms[..0] == [];
    } else {
      AbsorbTracksLatestGGA(ms, n - 1);
      PrefixStep(ms, n - 1);
      if AcceptedGGA(ms[n - 1]) {
        assert SeenGGA(ms, n);
        forall g | LatestGGA(ms, n, g) ensures g == n - 1 { }
      } else {
        assert SeenGGA(ms, n) ==> SeenGGA(ms, n - 1);
        forall g | LatestGGA(ms, n, g) ensures LatestGGA(ms, n - 1, g) { }
      }
    }
  }

  /** After the first n records, the date is set exactly when a valid RMC
      has been seen, and then holds the most recent one's date. */
  lemma {:induction false} AbsorbTracksLatestRMC(ms: seq<Msg>, n: nat)
    requires n <= |ms|
    ensures var s := Absorb(Empty, ms[..n]);
      && (s.date.Some? <==> SeenRMC(ms, n))
      && (forall d :: LatestRMC(ms, n, d) ==> s.date == Some(ms[d].date))
  {
    if n == 0 {
      assert ms[..0] == [];
    } else {
      AbsorbTracksLatestRMC(ms, n - 1);
      PrefixStep(ms, n - 1);
      if ValidRMC(ms[n - 1]) {
        assert SeenRMC(ms, n);
        forall d | LatestRMC(ms, n, d) ensures d == n - 1 { }
      } else {
        assert SeenRMC(ms, n) ==> SeenRMC(ms, n - 1);
        forall d | LatestRMC(ms, n, d) ensures LatestRMC(ms, n - 1, d) { }
      }
    }
  }

  /** Both halves together: the state after a prefix is determined by the
      latest accepted records in it. */
  lemma AbsorbTracksLatest(ms: seq<Msg>, n: nat)
    requires n <= |ms|
    ensures var s := Absorb(Empty, ms[..n]);
      && (s.lat.Some? <==> SeenGGA(ms, n))
      && (s.lon.Some? <==> SeenGGA(ms, n))
      && (s.time.Some? <==> SeenGGA(ms, n))
      && (s.date.Some? <==> SeenRMC(ms, n))
      && (forall g :: LatestGGA(ms, n, g) ==>
            s.lat == Some(ms[g].lat) && s.lon == Some(ms[g].lon) && s.time == Some(ms[g].time))
      && (forall d :: LatestRMC(ms, n, d) ==> s.date == Some(ms[d].date))
  {
    AbsorbTracksLatestGGA(ms, n);
    AbsorbTracksLatestRMC(ms, n);
  }

  lemma CompleteIffReady(ms: seq<Msg>, n: nat)
    requires n <= |ms|
    ensures Complete(Absorb(Empty, ms[..n])) <==> Ready(ms, n)
  {
    AbsorbTracksLatest(ms, n);
  }

  lemma ReadyMonotone(ms: seq<Msg>, a: nat, b: nat)
    requires a <= b <= |ms|
    ensures Ready(ms, a) ==> Ready(ms, b)
  {
  }

  /** A stream that becomes ready does so for a first time. */
  lemma {:induction false} FirstReady(ms: seq<Msg>, n: nat) returns (n0: nat)
    requires n <= |ms| && Ready(ms, n)
    ensures 0 < n0 <= n && Ready(ms, n0) && !Ready(ms, n0 - 1)
  {
    assert n > 0;
    if Ready(ms, n - 1) {
      n0 := FirstReady(ms, n - 1);
    } else {
      n0 := n;
    }
  }

  /** Every accepted GGA or valid RMC seen has a most recent one. */
  lemma {:induction false} LatestExists(ms: seq<Msg>, n: nat) returns (g: int, d: int)
    requires n <= |ms| && Ready(ms, n)
    ensures LatestGGA(ms, n, g) && LatestRMC(ms, n, d)
  {
    AbsorbTracksLatest(ms, n);
    g := LatestGGAIndex(ms, n);
    d := LatestRMCIndex(ms, n);
  }

  lemma {:induction false} LatestGGAIndex(ms: seq<Msg>, n: nat) returns (g: int)
    requires n <= |ms| && SeenGGA(ms, n)
    ensures LatestGGA(ms, n, g)
  {
    if AcceptedGGA(ms[n - 1]) {
      g := n - 1;
    } else {
      assert SeenGGA(ms, n - 1);
      g := LatestGGAIndex(ms, n - 1);
    }
  }

  lemma {:induction false} LatestRMCIndex(ms: seq<Msg>, n: nat) returns (d: int)
    requires n <= |ms| && SeenRMC(ms, n)
    ensures LatestRMC(ms, n, d)
  {
    if ValidRMC(ms[n - 1]) {
      d := n - 1;
    } else {
      assert SeenRMC(ms, n - 1);
      d := LatestRMCIndex(ms, n - 1);
    }
  }

  // ---------------------------------------------------------------------------
  // How the loop ends.

  lemma {:induction false} ConsumeAcquires(ms: seq<Msg>, i: nat, n: nat)
    requires i < n <= |ms| && FixPoint(ms, n)
    ensures Complete(Absorb(Empty, ms[..n]))
    ensures Consume(ms, i, Absorb(Empty, ms[..i])) == Acquired(ToFix(Absorb(Empty, ms[..n])))
    decreases n - i
  {
    CompleteIffReady(ms, n);
    PrefixStep(ms, i);
    assert !ms[i].Interrupt?;
    if i + 1 < n {
      ReadyMonotone(ms, i + 1, n - 1);
      CompleteIffReady(ms, i + 1);
      ConsumeAcquires(ms, i + 1, n);
    }
  }

  lemma {:induction false} ConsumeCancels(ms: seq<Msg>, i: nat, k: nat)
    requires i <= k < |ms| && ms[k].Interrupt? && !Ready(ms, k)
    ensures Consume(ms, i, Absorb(Empty, ms[..i])) == Cancelled
    decreases k - i
  {
    if !ms[i].Interrupt? {
      PrefixStep(ms, i);
      ReadyMonotone(ms, i + 1, k);
      CompleteIffReady(ms, i + 1);
      ConsumeCancels(ms, i + 1, k);
    }
  }

  lemma {:induction false} ConsumeWaits(ms: seq<Msg>, i: nat)
    requires i <= |ms| && !Ready(ms, |ms|) && !Interrupted(ms, |ms|)
    ensures Consume(ms, i, Absorb(Empty, ms[..i])) == Waiting(Absorb(Empty, ms))
    decreases |ms| - i
  {
    if i == |ms| {
      assert ms[..i] == ms;
    } else {
      assert !ms[i].Interrupt?;
      PrefixStep(ms, i);
      ReadyMonotone(ms, i + 1, |ms|);
      CompleteIffReady(ms, i + 1);
      ConsumeWaits(ms, i + 1);
    }
  }

  /** How the loop started from the empty state ends: at the first ready
      record with the state there, at an interrupt that comes first, or
      waiting when the stream is never ready. */
  lemma ConsumeFromStart(ms: seq<Msg>)
    ensures forall n: nat :: n <= |ms| && FixPoint(ms, n) ==>
      Complete(Absorb(Empty, ms[..n])) && Consume(ms, 0, Empty) == Acquired(ToFix(Absorb(Empty, ms[..n])))
    ensures forall k :: 0 <= k < |ms| && ms[k].Interrupt? && !Ready(ms, k) ==> Consume(ms, 0, Empty) == Cancelled
    ensures !Ready(ms, |ms|) && !Interrupted(ms, |ms|) ==> Consume(ms, 0, Empty) == Waiting(Absorb(Empty, ms))
    ensures Consume(ms, 0, Empty).Acquired? <==> exists n :: 0 < n <= |ms| && Ready(ms, n) && !Interrupted(ms, n)
  {
    assert ms[..0] == [];
    forall n: nat | n <= |ms| && FixPoint(ms, n)
      ensures Complete(Absorb(Empty, ms[..n])) && Consume(ms, 0, Empty) == Acquired(ToFix(Absorb(Empty, ms[..n])))
    {
      ConsumeAcquires(ms, 0, n);
    }
    forall k | 0 <= k < |ms| && ms[k].Interrupt? && !Ready(ms, k) ensures Consume(ms, 0, Empty) == Cancelled {
      ConsumeCancels(ms, 0, k);
    }
    if !Ready(ms, |ms|) && !Interrupted(ms, |ms|) {
      ConsumeWaits(ms, 0);
    }
    if n :| 0 < n <= |ms| && Ready(ms, n) && !Interrupted(ms, n) {
      var n0 := FirstReady(ms, n);
      ConsumeAcquires(ms, 0, n0);
    } else if Ready(ms, |ms|) {
      var n0 := FirstReady(ms, |ms|);
      assert Interrupted(ms, n0);
      var k :| 0 <= k < n0 && ms[k].Interrupt?;
      ReadyMonotone(ms, k, n0 - 1);
      ConsumeCancels(ms, 0, k);
    } else if Interrupted(ms, |ms|) {
      var k :| 0 <= k < |ms| && ms[k].Interrupt?;
      ReadyMonotone(ms, k, |ms|);
      ConsumeCancels(ms, 0, k);
    } else {
      ConsumeWaits(ms, 0);
    }
  }

  // ---------------------------------------------------------------------------
  // What `wait_for_fix` returns.

  /** At the first ready record the loop's fix holds the most recently
      accepted GGA position and time and the most recently accepted RMC date. */
  lemma RunReturnsLatest(ms: seq<Msg>)
    ensures forall n: nat, g, d :: n <= |ms| && FixPoint(ms, n) && LatestGGA(ms, n, g) && LatestRMC(ms, n, d) ==>
      Run(ms) == Acquired(Fix(ms[g].lat, ms[g].lon, ms[d].date, ms[g].time))
  {
    forall n: nat, g, d | n <= |ms| && FixPoint(ms, n) && LatestGGA(ms, n, g) && LatestRMC(ms, n, d)
      ensures Run(ms) == Acquired(Fix(ms[g].lat, ms[g].lon, ms[d].date, ms[g].time))
    {
      AbsorbTracksLatest(ms, n);
    }
  }

  /** An interrupt before the fix is complete yields no fix at all, never a
      partially filled one. */
  lemma InterruptYieldsNone(ms: seq<Msg>, hdop: int, k: nat)
    requires k < |ms| && ms[k].Interrupt? && !Ready(ms, k)
    ensures WaitForFix(ms, hdop) == None
  {
  }

  /** Without a qualifying GGA, or without a valid RMC, there is no fix. */
  lemma NoFixWithoutBoth(ms: seq<Msg>, hdop: int)
    requires !SeenGGA(ms, |ms|) || !SeenRMC(ms, |ms|)
    ensures WaitForFix(ms, hdop) == None
  {
    forall n | 0 < n <= |ms| ensures !Ready(ms, n) {
      ReadyMonotone(ms, n, |ms|);
    }
  }

  /** After a prefix with neither kind of record and no interrupt, an
      accepted GGA followed by a valid RMC completes the fix of both. */
  lemma GgaThenRmc(ms: seq<Msg>, a: Msg, b: Msg, rest: seq<Msg>, hdop: int)
    requires !SeenGGA(ms, |ms|) && !SeenRMC(ms, |ms|) && !Interrupted(ms, |ms|)
    requires AcceptedGGA(a) && ValidRMC(b)
    ensures WaitForFix(ms + [a, b] + rest, hdop) == Some(Fix(a.lat, a.lon, b.date, a.time))
  {
    var n := |ms| + 2;
    var ab := ms + [a, b] + rest;
    assert ab[|ms|] == a && ab[|ms| + 1] == b;
    assert !SeenRMC(ab, n - 1) by {
      forall i | 0 <= i < n - 1 ensures !ValidRMC(ab[i]) {
        if i < |ms| { assert ab[i] == ms[i]; }
      }
    }
    assert !Interrupted(ab, n) by {
      forall i | 0 <= i < n ensures !ab[i].Interrupt? {
        if i < |ms| { assert ab[i] == ms[i]; }
      }
    }
    assert Ready(ab, n);
    var g, d := LatestExists(ab, n);
    assert g == |ms|;
    assert FixPoint(ab, n) && LatestGGA(ab, n, g) && LatestRMC(ab, n, d);
  }

  /** The same with the valid RMC arriving first. */
  lemma RmcThenGga(ms: seq<Msg>, a: Msg, b: Msg, rest: seq<Msg>, hdop: int)
    requires !SeenGGA(ms, |ms|) && !SeenRMC(ms, |ms|) && !Interrupted(ms, |ms|)
    requires AcceptedGGA(a) && ValidRMC(b)
    ensures WaitForFix(ms + [b, a] + rest, hdop) == Some(Fix(a.lat, a.lon, b.date, a.time))
  {
    var n := |ms| + 2;
    var ba := ms + [b, a] + rest;
    assert ba[|ms|] == b && ba[|ms| + 1] == a;
    assert !SeenGGA(ba, n - 1) by {
      forall i | 0 <= i < n - 1 ensures !AcceptedGGA(ba[i]) {
        if i < |ms| { assert ba[i] == ms[i]; }
      }
    }
    assert !Interrupted(ba, n) by {
      forall i | 0 <= i < n ensures !ba[i].Interrupt? {
        if i < |ms| { assert ba[i] == ms[i]; }
      }
    }
    assert Ready(ba, n);
    var g, d := LatestExists(ba, n);
    assert g == |ms| + 1 && d == |ms|;
    assert FixPoint(ba, n) && LatestGGA(ba, n, g) && LatestRMC(ba, n, d);
  }

  /** A qualifying GGA and a valid RMC arriving back to back complete the
      same fix in either order. */
  lemma ArrivalOrderIrrelevant(ms: seq<Msg>, a: Msg, b: Msg, rest: seq<Msg>, hdop: int)
    requires !SeenGGA(ms, |ms|) && !SeenRMC(ms, |ms|) && !Interrupted(ms, |ms|)
    requires AcceptedGGA(a) && ValidRMC(b)
    ensures WaitForFix(ms + [a, b] + rest, hdop) == WaitForFix(ms + [b, a] + rest, hdop)
    ensures WaitForFix(ms + [a, b] + rest, hdop) == Some(Fix(a.lat, a.lon, b.date, a.time))
  {
    GgaThenRmc(ms, a, b, rest, hdop);
    RmcThenGga(ms, a, b, rest, hdop);
  }

  /** The acceptance bound is 3 whatever `hdop` argument is passed. */
  lemma ThresholdIsFixedAtThree(lat: real, lon: real, t: Time, h: real, date: Date, t': Time, hdop: int)
    ensures WaitForFix([GGA(lat, lon, t, h), RMC(date, t', "A")], hdop).Some? <==> h < 3.0
  {
    var ms := [GGA(lat, lon, t, h), RMC(date, t', "A")];
    var s1 := Step(Empty, ms[0]);
    assert Run(ms) == Consume(ms, 1, s1);
    assert Consume(ms, 1, s1) == Consume(ms, 2, Step(s1, ms[1])) || Complete(Step(s1, ms[1]));
  }

  lemma HdopArgumentIgnored(ms: seq<Msg>, hdop1: int, hdop2: int)
    ensures WaitForFix(ms, hdop1) == WaitForFix(ms, hdop2)
  {
  }

  // ---------------------------------------------------------------------------
  // Concrete streams.

  /** A good GGA followed by a valid RMC gives the fix of both. */
  lemma GoodGgaThenValidRmc()
    ensures Run([GGA(34.0, -118.0, Time(10, 0, 0), 1.5), RMC(Date(2024, 6, 1), Time(10, 0, 1), "A")])
         == Acquired(Fix(34.0, -118.0, Date(2024, 6, 1), Time(10, 0, 0)))
  {
  }

  /** With HDOP 4 the same pair leaves the accumulator waiting with only the
      date known. */
  lemma PoorGgaKeepsWaiting()
    ensures Run([GGA(34.0, -118.0, Time(10, 0, 0), 4.0), RMC(Date(2024, 6, 1), Time(10, 0, 1), "A")])
         == Waiting(State(None, None, Some(Date(2024, 6, 1)), None))
  {
  }

  /** An RMC flagged void leaves the date unset; a later valid one completes
      the fix. */
  lemma VoidRmcIsSkipped()
    ensures Run([GGA(34.0, -118.0, Time(10, 0, 0), 1.5), RMC(Date(2024, 6, 1), Time(10, 0, 1), "V"),
                 RMC(Date(2024, 6, 2), Time(10, 0, 2), "A")])
         == Acquired(Fix(34.0, -118.0, Date(2024, 6, 2), Time(10, 0, 0)))
  {
  }

  // ---------------------------------------------------------------------------
  // The loop as written, with the state in four local variables.

  /** One turn of the loop that neither stops at an interrupt nor completes
      the fix moves on to the next record in the stepped state. */
  lemma ConsumeStep(ms: seq<Msg>, i: nat, s: State)
    requires i < |ms| && !ms[i].Interrupt? && !Complete(Step(s, ms[i]))
    ensures Consume(ms, i, s) == Consume(ms, i + 1, Step(s, ms[i]))
  {
  }

  method WaitForFixLoop(ms: seq<Msg>, hdop: int := 3) returns (r: Option<Fix>)
    ensures r == WaitForFix(ms, hdop)
    ensures r.Some? <==> exists n :: 0 < n <= |ms| && Ready(ms, n) && !Interrupted(ms, n)
  {
    var lat: Option<real> := None;
    var lon: Option<real> := None;
    var date: Option<Date> := None;
    var time: Option<Time> := None;
    var i := 0;
    while i < |ms|
      invariant i <= |ms|
      invariant Consume(ms, i, State(lat, lon, date, time)) == Run(ms)
    {
      ghost var s := State(lat, lon, date, time);
      var m := ms[i];
      if m.Interrupt? {
        return None;
      }
      if m.GGA? {
        if m.hdop < 3.0 {
          lat := Some(m.lat);
          lon := Some(m.lon);
          time := Some(m.time);
        }
      }
      if m.RMC? {
        if m.status == "A" {
          date := Some(m.date);
        }
      }
      if lat.Some? && lon.Some? && date.Some? && time.Some? {
        return Some(Fix(lat.value, lon.value, date.value, time.value));
      }
      ConsumeStep(ms, i, s);
      i := i + 1;
    }
    return None;
  }
}
