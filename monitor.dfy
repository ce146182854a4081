/** The per-tick monitoring state machine (internal/monitor/monitor.go).
    A tick takes the fetched snapshot, the wall-clock reading and the outcome of
    the notifier as inputs; `Tick` is the pure description of one tick and the
    `StockMonitor` class updates its fields step by step to match it. */
module Monitor {
  import opened Wrappers
  import opened Stock
  import opened Fetcher

  /** Alerts closer together than this many seconds are deduplicated... */
  const CooldownSeconds: int := 300
  /** ...unless the move grew by at least this many percentage points. */
  const EscalationPoints: real := 0.2

  /** A wall-clock reading: `weekday` counts from 0 = Sunday, as Go's `time.Weekday`. */
  datatype Clock = Clock(weekday: int, hour: int, minute: int)

  /** The direction word of the alert text. */
  datatype Direction = Up | Down

  /** What one tick did. */
  datatype TickOutcome =
    | FetchFailed             // no snapshot: the tick is skipped
    | Initialised             // first snapshot: baselines recorded, no comparison yet
    | BelowThreshold          // the move is smaller than the threshold
    | OutsideWindow           // a candidate alert outside the alert window
    | Suppressed              // a candidate alert the dedup rule holds back
    | SendFailed(direction: Direction)
    | Sent(direction: Direction)
  {
    /** The move reached the threshold and `sendAlert` was entered. */
    predicate Candidate() {
      OutsideWindow? || Suppressed? || SendFailed? || Sent?
    }
  }

  /** The fields of `StockMonitor` that a tick reads and writes; a zero
      `lastAlertTime` is `None`. */
  datatype MonitorState = MonitorState(
    lastData: Option<StockData>,
    lastAlertTime: Option<int>,
    dayStart: real,
    maxChange: real,
    minChange: real
  )

  datatype TickResult = TickResult(state: MonitorState, outcome: TickOutcome)

  /** What every reachable state satisfies: the running minimum of a magnitude
      seeded at 0 never leaves 0, the running maximum is a magnitude, and until
      a first snapshot is stored nothing else has moved from its zero value. */
  predicate Inv(s: MonitorState) {
    s.minChange == 0.0 && s.maxChange >= 0.0 &&
    (s.lastData.None? ==> s.lastAlertTime.None? && s.dayStart == 0.0 && s.maxChange == 0.0)
  }

  /** The state of a freshly created monitor (Go's zero values). */
  function Initial(): (s: MonitorState)
    ensures Inv(s) && s.lastData.None? && s.lastAlertTime.None?
  {
    MonitorState(None, None, 0.0, 0.0, 0.0)
  }

  /** `calculateChangePercent`: the move of `current` against `base`, 0 for a zero base. */
  function CalculateChangePercent(base: real, current: real): (p: real)
    ensures base == 0.0 ==> p == 0.0
    ensures base != 0.0 ==> base + base * p / 100.0 == current
  {
    Percent(base, current)
  }

  /** `isWithinAlertWindow`: Monday to Friday, from 14:30 up to and including
      15:00. The clause `hour > 14 && hour < 15` of the source never holds. */
  function IsWithinAlertWindow(c: Clock): (open: bool)
    ensures open <==> 1 <= c.weekday <= 5 && ((c.hour == 14 && c.minute >= 30) || (c.hour == 15 && c.minute == 0))
    ensures 0 <= c.minute < 60 ==>
      (open <==> 1 <= c.weekday <= 5 && 14 * 60 + 30 <= c.hour * 60 + c.minute <= 15 * 60)
  {
    if c.weekday < 1 || c.weekday > 5 then false
    else if (c.hour == 14 && c.minute >= 30) || (c.hour > 14 && c.hour < 15) || (c.hour == 15 && c.minute == 0) then true
    else false
  }

  /** `shouldSendAlert`: no alert yet, or the cooldown has passed, or the
      magnitude grew by at least 0.2 points over the change of the PREVIOUS
      TICK's snapshot (not over the last alert's). */
  function ShouldSendAlert(s: MonitorState, data: StockData, changePercent: real): (allow: bool)
    requires s.lastAlertTime.Some? ==> s.lastData.Some?
    ensures s.lastAlertTime.None? ==> allow
    ensures s.lastAlertTime.Some? && data.timestamp - s.lastAlertTime.value >= CooldownSeconds ==> allow
    ensures s.lastAlertTime.Some? && data.timestamp - s.lastAlertTime.value < CooldownSeconds ==>
      (allow <==> Abs(changePercent) - Abs(s.lastData.value.change) >= EscalationPoints)
  {
    match s.lastAlertTime
    case None => true
    case Some(t) =>
      var timeDiff := data.timestamp - t;
      if timeDiff < CooldownSeconds then
        var lastChange := Abs(s.lastData.value.change);
        var currentChange := Abs(changePercent);
        var changeDiff := currentChange - lastChange;
        !(changeDiff < EscalationPoints)
      else true
  }

  /** The direction word of `sendAlert`: up for a positive move, down otherwise. */
  function DirectionOf(changePercent: real): (d: Direction)
    ensures d == Up <==> changePercent > 0.0
  {
    if changePercent > 0.0 then Up else Down
  }

  /** The decision `sendAlert` takes for a candidate: window gate, then dedup
      gate, then the notifier's outcome. */
  function AlertOutcome(s: MonitorState, data: StockData, changePercent: real, clock: Clock, sendOk: bool): (o: TickOutcome)
    requires s.lastAlertTime.Some? ==> s.lastData.Some?
    ensures o.Candidate()
    ensures o == OutsideWindow <==> !IsWithinAlertWindow(clock)
    ensures o == Suppressed <==> IsWithinAlertWindow(clock) && !ShouldSendAlert(s, data, changePercent)
    ensures o.Sent? <==> IsWithinAlertWindow(clock) && ShouldSendAlert(s, data, changePercent) && sendOk
    ensures o.SendFailed? <==> IsWithinAlertWindow(clock) && ShouldSendAlert(s, data, changePercent) && !sendOk
    ensures o.Sent? || o.SendFailed? ==> o.direction == DirectionOf(changePercent)
  {
    if !IsWithinAlertWindow(clock) then OutsideWindow
    else if !ShouldSendAlert(s, data, changePercent) then Suppressed
    else if sendOk then Sent(DirectionOf(changePercent))
    else SendFailed(DirectionOf(changePercent))
  }

  /** One tick of `checkStock`, with the fetch result, the clock and the
      notifier's outcome as inputs. */
  function Tick(s: MonitorState, threshold: real, fetched: Result<StockData, FetchError>,
                clock: Clock, sendOk: bool): (r: TickResult)
    requires Inv(s)
    ensures Inv(r.state)
    // a failed fetch changes nothing and sends nothing
    ensures fetched.Err? ==> r == TickResult(s, FetchFailed)
    // every snapshot replaces the stored one, whatever the alert did
    ensures fetched.Ok? ==> r.state.lastData == Some(fetched.value)
    // the first snapshot sets the baselines and attempts no alert
    ensures fetched.Ok? && s.lastData.None? ==>
      r == TickResult(MonitorState(Some(fetched.value), s.lastAlertTime, fetched.value.open, 0.0, 0.0), Initialised)
    // later snapshots keep the day-open baseline and fold |change vs open| into the maximum
    ensures fetched.Ok? && s.lastData.Some? ==>
      r.state.dayStart == s.dayStart &&
      r.state.maxChange == Max(s.maxChange, Abs(CalculateChangePercent(s.dayStart, fetched.value.current)))
    ensures r.state.maxChange >= s.maxChange
    // an alert is considered only when the snapshot's own change reaches the threshold
    ensures r.outcome.Candidate() ==> fetched.Ok? && s.lastData.Some? && Abs(fetched.value.change) >= threshold
    ensures fetched.Ok? && s.lastData.Some? ==>
      (r.outcome == BelowThreshold <==> Abs(fetched.value.change) < threshold)
    ensures fetched.Ok? && s.lastData.Some? && Abs(fetched.value.change) >= threshold ==>
      r.outcome == AlertOutcome(s, fetched.value, fetched.value.change, clock, sendOk)
    // the alert time moves only on a successful send, to the snapshot's time
    ensures r.state.lastAlertTime == if r.outcome.Sent? then Some(fetched.value.timestamp) else s.lastAlertTime
  {
    match fetched
    case Err(_) => TickResult(s, FetchFailed)
    case Ok(data) =>
      if s.lastData.None? then
        TickResult(MonitorState(Some(data), s.lastAlertTime, data.open, 0.0, 0.0), Initialised)
      else
        var openChangePercent := CalculateChangePercent(s.dayStart, data.current);
        var maxChange := Max(s.maxChange, Abs(openChangePercent));
        var minChange := Min(s.minChange, Abs(openChangePercent));
        var outcome :=
          if Abs(data.change) >= threshold then AlertOutcome(s, data, data.change, clock, sendOk)
          else BelowThreshold;
        var alertTime := if outcome.Sent? then Some(data.timestamp) else s.lastAlertTime;
        TickResult(MonitorState(Some(data), alertTime, s.dayStart, maxChange, minChange), outcome)
  }

  /** `StockMonitor`: the configured threshold and the state one tick updates. */
  class StockMonitor {
    const threshold: real
    var lastData: Option<StockData>
    var lastAlertTime: Option<int>
    var dayStart: real
    var maxChange: real
    var minChange: real

    function State(): MonitorState
      reads this
    {
      MonitorState(lastData, lastAlertTime, dayStart, maxChange, minChange)
    }

    predicate Valid()
      reads this
    {
      Inv(State())
    }

    /** `NewStockMonitor`: every field at its zero value. */
    constructor (threshold: real)
      ensures Valid() && State() == Initial() && this.threshold == threshold
    {
      this.threshold := threshold;
      lastData := None;
      lastAlertTime := None;
      dayStart := 0.0;
      maxChange := 0.0;
      minChange := 0.0;
    }

    /** `checkStock`: one tick. */
    method CheckStock(fetched: Result<StockData, FetchError>, clock: Clock, sendOk: bool)
      returns (outcome: TickOutcome)
      requires Valid()
      modifies this
      ensures Valid()
      ensures TickResult(State(), outcome) == Tick(old(State()), threshold, fetched, clock, sendOk)
    {
      if fetched.Err? {
        return FetchFailed;
      }
      var data := fetched.value;

      if lastData.None? {
        dayStart := data.open;
        lastData := Some(data);
        maxChange := 0.0;
        minChange := 0.0;
        return Initialised;
      }

      var currentChange := data.change;
      var openChangePercent := CalculateChangePercent(dayStart, data.current);
      maxChange := Max(maxChange, Abs(openChangePercent));
      minChange := Min(minChange, Abs(openChangePercent));

      outcome := BelowThreshold;
      if Abs(currentChange) >= threshold {
        outcome := SendAlert(data, currentChange, clock, sendOk);
      }

      lastData := Some(data);
    }

    /** `sendAlert`: the window gate, the dedup gate, then the notifier; the
        alert time is recorded only when the notifier reports success. */
    method SendAlert(data: StockData, changePercent: real, clock: Clock, sendOk: bool)
      returns (outcome: TickOutcome)
      requires Valid() && lastData.Some?
      modifies this`lastAlertTime
      ensures Valid()
      ensures outcome == AlertOutcome(old(State()), data, changePercent, clock, sendOk)
      ensures lastAlertTime == if outcome.Sent? then Some(data.timestamp) else old(lastAlertTime)
    {
      if !IsWithinAlertWindow(clock) {
        return OutsideWindow;
      }
      if !ShouldSendAlert(State(), data, changePercent) {
        return Suppressed;
      }
      var direction := DirectionOf(changePercent);
      if sendOk {
        lastAlertTime := Some(data.timestamp);
        outcome := Sent(direction);
      } else {
        outcome := SendFailed(direction);
      }
    }
  }
}
