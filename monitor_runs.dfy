/** Sequences of ticks: what the polling loop of `Start` does to the monitor
    state over many ticks, and the end-to-end scenarios of the alert policy. */
module MonitorRuns {
  import opened Wrappers
  import opened Stock
  import opened Fetcher
  import opened Monitor

  /** The inputs of one tick. */
  datatype TickInput = TickInput(fetched: Result<StockData, FetchError>, clock: Clock, sendOk: bool)

  /** The state after the ticks `ins`, in order. */
  function Run(s: MonitorState, threshold: real, ins: seq<TickInput>): (r: MonitorState)
    requires Inv(s)
    ensures Inv(r)
    decreases |ins|
  {
    if ins == [] then s
    else Run(Tick(s, threshold, ins[0].fetched, ins[0].clock, ins[0].sendOk).state, threshold, ins[1..])
  }

  /** Running ticks in two stretches is running them in one. */
  lemma {:induction false} RunAppend(s: MonitorState, threshold: real, a: seq<TickInput>, b: seq<TickInput>)
    requires Inv(s)
    ensures Run(s, threshold, a + b) == Run(Run(s, threshold, a), threshold, b)
    decreases |a|
  {
    if a != [] {
      assert (a + b)[0] == a[0];
      assert (a + b)[1..] == a[1..] + b;
      RunAppend(Tick(s, threshold, a[0].fetched, a[0].clock, a[0].sendOk).state, threshold, a[1..], b);
    } else {
      assert a + b == b;
    }
  }

  /** The day's maximum move never decreases, and the minimum stays 0. */
  lemma {:induction false} RunMaxChangeGrows(s: MonitorState, threshold: real, ins: seq<TickInput>)
    requires Inv(s)
    ensures Run(s, threshold, ins).maxChange >= s.maxChange
    ensures Run(s, threshold, ins).minChange == 0.0
    decreases |ins|
  {
    if ins != [] {
      RunMaxChangeGrows(Tick(s, threshold, ins[0].fetched, ins[0].clock, ins[0].sendOk).state, threshold, ins[1..]);
    }
  }

  /** Once a snapshot is stored, the day-open baseline is never moved again and
      there is always a stored snapshot. */
  lemma {:induction false} RunKeepsDayStart(s: MonitorState, threshold: real, ins: seq<TickInput>)
    requires Inv(s) && s.lastData.Some?
    ensures Run(s, threshold, ins).dayStart == s.dayStart
    ensures Run(s, threshold, ins).lastData.Some?
    decreases |ins|
  {
    if ins != [] {
      RunKeepsDayStart(Tick(s, threshold, ins[0].fetched, ins[0].clock, ins[0].sendOk).state, threshold, ins[1..]);
    }
  }

  /** Ticks whose fetch all fail leave the state exactly as it was. */
  lemma {:induction false} RunFailedFetches(s: MonitorState, threshold: real, ins: seq<TickInput>)
    requires Inv(s)
    requires forall i :: 0 <= i < |ins| ==> ins[i].fetched.Err?
    ensures Run(s, threshold, ins) == s
    decreases |ins|
  {
    if ins != [] {
      RunFailedFetches(s, threshold, ins[1..]);
    }
  }

  /** The stored snapshot is the latest one fetched: after a tick whose fetch
      succeeded, followed only by ticks whose fetch failed. */
  lemma RunLastData(s: MonitorState, threshold: real, ins: seq<TickInput>, k: nat)
    requires Inv(s)
    requires k < |ins| && ins[k].fetched.Ok?
    requires forall i :: k < i < |ins| ==> ins[i].fetched.Err?
    ensures Run(s, threshold, ins).lastData == Some(ins[k].fetched.value)
  {
    var a, b := ins[..k + 1], ins[k + 1..];
    assert ins == a + b;
    RunAppend(s, threshold, a, b);
    assert a == ins[..k] + [ins[k]];
    RunAppend(s, threshold, ins[..k], [ins[k]]);
    var mid := Run(Run(s, threshold, ins[..k]), threshold, [ins[k]]);
    assert mid.lastData == Some(ins[k].fetched.value);
    forall i | 0 <= i < |b| ensures b[i].fetched.Err? {
      assert b[i] == ins[k + 1 + i];
    }
    RunFailedFetches(mid, threshold, b);
  }

  /** A failed send never advances the dedup baseline: over ticks on which the
      notifier fails or the window is closed, the alert time does not move. */
  lemma {:induction false} RunNoDeliveryKeepsAlertTime(s: MonitorState, threshold: real, ins: seq<TickInput>)
    requires Inv(s)
    requires forall i :: 0 <= i < |ins| ==> !ins[i].sendOk || !IsWithinAlertWindow(ins[i].clock)
    ensures Run(s, threshold, ins).lastAlertTime == s.lastAlertTime
    decreases |ins|
  {
    if ins != [] {
      RunNoDeliveryKeepsAlertTime(Tick(s, threshold, ins[0].fetched, ins[0].clock, ins[0].sendOk).state, threshold, ins[1..]);
    }
  }

  /** A recorded alert time is always the capture time of a fetched snapshot. */
  lemma {:induction false} RunAlertTimeFromSnapshot(s: MonitorState, threshold: real, ins: seq<TickInput>)
    requires Inv(s)
    ensures Run(s, threshold, ins).lastAlertTime == s.lastAlertTime ||
      exists i :: 0 <= i < |ins| && ins[i].fetched.Ok? &&
        Run(s, threshold, ins).lastAlertTime == Some(ins[i].fetched.value.timestamp)
    decreases |ins|
  {
    if ins != [] {
      var t := Tick(s, threshold, ins[0].fetched, ins[0].clock, ins[0].sendOk).state;
      RunAlertTimeFromSnapshot(t, threshold, ins[1..]);
      var r := Run(s, threshold, ins);
      if r.lastAlertTime != t.lastAlertTime {
        var j :| 0 <= j < |ins[1..]| && ins[1..][j].fetched.Ok? &&
          r.lastAlertTime == Some(ins[1..][j].fetched.value.timestamp);
        assert ins[1..][j] == ins[j + 1];
      } else if t.lastAlertTime != s.lastAlertTime {
        assert ins[0].fetched.Ok?;
      }
    }
  }

  /** The fetcher never fails, so the monitor never skips a tick for want of data. */
  lemma FetchedTicksNeverSkip(s: MonitorState, threshold: real, get: string -> Option<string>,
                              parse: FloatParser, code: string, now: int, minute: nat, second: nat,
                              clock: Clock, sendOk: bool)
    requires Inv(s)
    ensures Tick(s, threshold, FetchStockData(get, parse, code, now, minute, second), clock, sendOk).outcome != FetchFailed
  {
  }

  /** The monitor's threshold test on the change field is the snapshot's
      `IsSignificantChange` for every snapshot the fetcher produces. */
  lemma ThresholdIsSignificantChange(d: StockData, threshold: real)
    requires d.change == ChangePercent(d)
    ensures Abs(d.change) >= threshold <==> IsSignificantChange(d, threshold)
  {
  }

  // End-to-end scenarios: index at 3000 at the previous close, threshold 0.8.

  function Snap(current: real, change: real, timestamp: int): StockData {
    StockData("sh000001", GetStockName("sh000001"), current, 3000.0, current, 3000.0, 3000.0,
              change, current - 3000.0, timestamp)
  }

  const Wednesday1440: Clock := Clock(3, 14, 40)

  /** A 1% move on a Wednesday at 14:40 after a first quiet tick is sent, and its
      time becomes the dedup baseline. */
  lemma ScenarioAlertSent()
    ensures var s1 := Tick(Initial(), 0.8, Ok(Snap(3000.0, 0.0, 1000)), Wednesday1440, true);
      s1.outcome == Initialised &&
      var s2 := Tick(s1.state, 0.8, Ok(Snap(3030.0, 1.0, 1060)), Wednesday1440, true);
      s2.outcome == Sent(Up) && s2.state.lastAlertTime == Some(1060)
  {
  }

  /** The same move at 10:00 sends nothing, yet the stored snapshot advances. */
  lemma ScenarioOutsideWindow()
    ensures var s1 := Tick(Initial(), 0.8, Ok(Snap(3000.0, 0.0, 1000)), Clock(3, 10, 0), true);
      var s2 := Tick(s1.state, 0.8, Ok(Snap(3030.0, 1.0, 1060)), Clock(3, 10, 0), true);
      s2.outcome == OutsideWindow && s2.state.lastAlertTime == None &&
      s2.state.lastData == Some(Snap(3030.0, 1.0, 1060))
  {
  }

  /** Within the cooldown, a growth of 0.05 points is suppressed and a further
      growth of 0.25 points is delivered. */
  lemma ScenarioEscalation()
    ensures var s0 := MonitorState(Some(Snap(3030.0, 1.0, 0)), Some(0), 3000.0, 1.0, 0.0);
      var s1 := Tick(s0, 0.8, Ok(Snap(3031.5, 1.05, 120)), Wednesday1440, true);
      s1.outcome == Suppressed && s1.state.lastAlertTime == Some(0) &&
      var s2 := Tick(s1.state, 0.8, Ok(Snap(3039.0, 1.3, 180)), Wednesday1440, true);
      s2.outcome == Sent(Up) && s2.state.lastAlertTime == Some(180)
  {
  }

  /** The escalation test compares with the previous tick, not the last alert:
      after an alert at 1.0%, a suppressed tick at 1.15% makes a tick at 1.3%
      (0.3 points above the alert) suppressed as well. */
  lemma DedupComparesWithPreviousTick()
    ensures var s0 := MonitorState(Some(Snap(3030.0, 1.0, 0)), Some(0), 3000.0, 1.0, 0.0);
      var s1 := Tick(s0, 0.8, Ok(Snap(3034.5, 1.15, 120)), Wednesday1440, true);
      s1.outcome == Suppressed &&
      var s2 := Tick(s1.state, 0.8, Ok(Snap(3039.0, 1.3, 180)), Wednesday1440, true);
      s2.outcome == Suppressed && Abs(1.3) - Abs(1.0) >= EscalationPoints
  {
  }

  /** The snapshot stored before tick `i` of `ins`: the last one fetched among
      the first `i` ticks, or the one stored in `s` when none was. */
  function LastBefore(s: MonitorState, ins: seq<TickInput>, i: nat): StockData
    requires s.lastData.Some? && i <= |ins|
    decreases i
  {
    if i == 0 then s.lastData.value
    else if ins[i - 1].fetched.Ok? then ins[i - 1].fetched.value
    else LastBefore(s, ins, i - 1)
  }

  /** After the first tick, the snapshot stored before tick `i` of the rest is
      the one stored before tick `i + 1` of the whole run. */
  lemma {:induction false} LastBeforeShift(s: MonitorState, threshold: real, ins: seq<TickInput>, i: nat)
    requires Inv(s) && s.lastData.Some? && i < |ins|
    ensures Tick(s, threshold, ins[0].fetched, ins[0].clock, ins[0].sendOk).state.lastData.Some?
    ensures LastBefore(Tick(s, threshold, ins[0].fetched, ins[0].clock, ins[0].sendOk).state, ins[1..], i) ==
      LastBefore(s, ins, i + 1)
    decreases i
  {
    if i > 0 {
      assert ins[1..][i - 1] == ins[i];
      LastBeforeShift(s, threshold, ins, i - 1);
    }
  }

  /** A move whose magnitude grows by less than 0.2 points from one snapshot to
      the next, upward or downward, never delivers an alert inside the cooldown,
      whatever the threshold, the clocks, the notifier or failed fetches in
      between, and however far the move goes in total: each snapshot is measured
      against the one stored before it, not against the last alert. */
  lemma {:induction false} CreepIsSuppressed(s: MonitorState, threshold: real, ins: seq<TickInput>, t0: int)
    requires Inv(s) && s.lastData.Some? && s.lastAlertTime == Some(t0)
    requires forall i :: 0 <= i < |ins| && ins[i].fetched.Ok? ==>
      ins[i].fetched.value.timestamp - t0 < CooldownSeconds
    requires forall i :: 0 <= i < |ins| && ins[i].fetched.Ok? ==>
      Abs(ins[i].fetched.value.change) - Abs(LastBefore(s, ins, i).change) < EscalationPoints
    ensures Run(s, threshold, ins).lastAlertTime == Some(t0)
    decreases |ins|
  {
    if ins != [] {
      var t := Tick(s, threshold, ins[0].fetched, ins[0].clock, ins[0].sendOk);
      assert !t.outcome.Sent?;
      var rest := ins[1..];
      forall i | 0 <= i < |rest| && rest[i].fetched.Ok?
        ensures rest[i].fetched.value.timestamp - t0 < CooldownSeconds
        ensures Abs(rest[i].fetched.value.change) - Abs(LastBefore(t.state, rest, i).change) < EscalationPoints
      {
        assert rest[i] == ins[i + 1];
        LastBeforeShift(s, threshold, ins, i);
      }
      LastBeforeShift(s, threshold, ins, 0);
      CreepIsSuppressed(t.state, threshold, rest, t0);
    }
  }
}
