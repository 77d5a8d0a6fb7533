/** One effect of the `useRun` hook: the first load, the poll timer, and the cleanup, with responses,
    timer ticks and the cleanup arriving in any order. */
module RunPolling {
  import opened Options

  datatype Run = Run(status: string, mode: string, runType: string, triggerOrigin: string,
                     startedAt: Option<string>, endedAt: Option<string>, errorMessage: Option<string>, detail: string)

  datatype Status = Status(status: string, mode: string, runType: string, triggerOrigin: string,
                           startedAt: Option<string>, endedAt: Option<string>, errorMessage: Option<string>)

  const POLL_STOPPING: set<string> := {
    "succeeded", "failed", "cancelled", "degraded", "waiting_for_review", "waiting_for_dependency"
  }

  /** The statuses that the protocol calls terminal. */
  const PROTOCOL_TERMINAL: set<string> := {"succeeded", "failed", "degraded", "cancelled", "orphaned"}

  datatype Timer = NotStarted | Live | Cleared

  /** The closure variables `active` and `intervalId`, the React state the hook returns, and the
      requests that are under way. `started` counts status requests, `created` timers. */
  datatype State = State(active: bool, timer: Timer, loadingDetail: bool, inFlight: nat,
                         run: Option<Run>, loading: bool, error: Option<string>,
                         started: nat, created: nat)

  datatype Event =
    | DetailArrives(data: Run)
    | DetailFails(message: string)
    | Tick
    | PollArrives(s: Status)
    | PollFails(message: string)
    | Cleanup

  predicate Enabled(x: State, e: Event) {
    match e
    case DetailArrives(_) => x.loadingDetail
    case DetailFails(_) => x.loadingDetail
    case Tick => x.timer.Live?
    case PollArrives(_) => x.inFlight > 0
    case PollFails(_) => x.inFlight > 0
    case Cleanup => x.active
  }

  function OrElse<T>(a: Option<T>, b: Option<T>): Option<T> {
    if a.Some? then a else b
  }

  /** The functional state update of a poll. */
  function Merged(prev: Option<Run>, s: Status): Option<Run> {
    match prev
    case None => None
    case Some(r) => Some(r.(status := s.status, mode := s.mode, runType := s.runType, triggerOrigin := s.triggerOrigin,
                            startedAt := OrElse(s.startedAt, r.startedAt), endedAt := OrElse(s.endedAt, r.endedAt),
                            errorMessage := OrElse(s.errorMessage, r.errorMessage)))
  }

  /** `now` is the run `prev` after the answer `s`: everything the answer knows is taken over, and what
      it does not know stays. */
  predicate Shows(now: Run, prev: Run, s: Status) {
    && now.status == s.status && now.mode == s.mode && now.runType == s.runType && now.triggerOrigin == s.triggerOrigin
    && now.detail == prev.detail
    && (s.startedAt.Some? ==> now.startedAt == s.startedAt)
    && (s.startedAt.None? ==> now.startedAt == prev.startedAt)
    && (s.endedAt.Some? ==> now.endedAt == s.endedAt)
    && (s.endedAt.None? ==> now.endedAt == prev.endedAt)
    && (s.errorMessage.Some? ==> now.errorMessage == s.errorMessage)
    && (s.errorMessage.None? ==> now.errorMessage == prev.errorMessage)
  }

  function ClearedTimer(t: Timer): Timer {
    if t.Live? then Cleared else t
  }

  function Next(x: State, e: Event): State
    requires Enabled(x, e)
  {
    match e
    case DetailArrives(data) =>
      var y := x.(loadingDetail := false);
      if !x.active then y
      else if data.status in POLL_STOPPING then y.(run := Some(data), loading := false)
      else y.(run := Some(data), loading := false, timer := Live, created := x.created + 1)
    case DetailFails(message) =>
      var y := x.(loadingDetail := false);
      if x.active then y.(error := Some(message), loading := false) else y
    case Tick => x.(inFlight := x.inFlight + 1, started := x.started + 1)
    case PollArrives(s) =>
      var y := x.(inFlight := x.inFlight - 1);
      if !x.active then y
      else y.(run := Merged(x.run, s), timer := if s.status in POLL_STOPPING then ClearedTimer(x.timer) else x.timer)
    case PollFails(message) =>
      var y := x.(inFlight := x.inFlight - 1);
      if x.active then y.(error := Some(message), timer := ClearedTimer(x.timer)) else y
    case Cleanup => x.(active := false, timer := ClearedTimer(x.timer))
  }

  /** The effect as the source writes it: callbacks over two captured variables. */
  class Effect {
    var active: bool
    var timer: Timer
    var loadingDetail: bool
    var inFlight: nat
    var run: Option<Run>
    var loading: bool
    var error: Option<string>
    var started: nat
    var created: nat

    function Now(): State
      reads this
    {
      State(active, timer, loadingDetail, inFlight, run, loading, error, started, created)
    }

    constructor (run: Option<Run>, loading: bool)
      ensures Now() == Mounted(run, loading)
    {
      active, timer, loadingDetail, inFlight := true, NotStarted, true, 0;
      this.run, this.loading, error := run, loading, None;
      started, created := 0, 0;
    }

    method StartPolling()
      modifies this`timer, this`created
      ensures timer == Live && created == old(created) + 1
    {
      timer := Live;
      created := created + 1;
    }

    method ClearTimer()
      modifies this`timer
      ensures timer == ClearedTimer(old(timer))
    {
      if timer.Live? { timer := Cleared; }
    }

    method OnDetail(data: Run)
      requires Enabled(Now(), DetailArrives(data))
      modifies this
      ensures Now() == Next(old(Now()), DetailArrives(data))
      ensures old(active) ==> run == Some(data) && !loading && error == old(error)
      ensures old(active) ==> timer == if data.status in POLL_STOPPING then old(timer) else Live
      ensures !old(active) ==> run == old(run) && loading == old(loading) && error == old(error) && timer == old(timer)
    {
      loadingDetail := false;
      if !active { return; }
      run := Some(data);
      loading := false;
      if data.status in POLL_STOPPING { return; }
      StartPolling();
    }

    method OnDetailError(message: string)
      requires Enabled(Now(), DetailFails(message))
      modifies this
      ensures Now() == Next(old(Now()), DetailFails(message))
      ensures run == old(run) && timer == old(timer)
      ensures old(active) ==> error == Some(message) && !loading
      ensures !old(active) ==> error == old(error) && loading == old(loading)
    {
      loadingDetail := false;
      if !active { return; }
      error := Some(message);
      loading := false;
    }

    method OnTick()
      requires Enabled(Now(), Tick)
      modifies this`inFlight, this`started
      ensures Now() == Next(old(Now()), Tick)
    {
      inFlight := inFlight + 1;
      started := started + 1;
    }

    method OnPoll(s: Status)
      requires Enabled(Now(), PollArrives(s))
      modifies this
      ensures Now() == Next(old(Now()), PollArrives(s))
      ensures old(active) && old(run).Some? ==> run.Some? && Shows(run.value, old(run).value, s)
      ensures old(run).None? || !old(active) ==> run == old(run)
      ensures timer == if old(active) && s.status in POLL_STOPPING && old(timer).Live? then Cleared else old(timer)
      ensures error == old(error) && loading == old(loading)
    {
      inFlight := inFlight - 1;
      if !active { return; }
      run := Merged(run, s);
      if s.status in POLL_STOPPING { ClearTimer(); }
    }

    method OnPollError(message: string)
      requires Enabled(Now(), PollFails(message))
      modifies this
      ensures Now() == Next(old(Now()), PollFails(message))
      ensures run == old(run) && loading == old(loading)
      ensures error == if old(active) then Some(message) else old(error)
      ensures timer == if old(active) && old(timer).Live? then Cleared else old(timer)
    {
      inFlight := inFlight - 1;
      if !active { return; }
      error := Some(message);
      ClearTimer();
    }

    method OnCleanup()
      requires Enabled(Now(), Cleanup)
      modifies this`active, this`timer
      ensures Now() == Next(old(Now()), Cleanup)
      ensures !active && timer == if old(timer).Live? then Cleared else old(timer)
    {
      active := false;
      ClearTimer();
    }
  }

  // ------------------------------------------------------------------------ whole runs

  /** Right after the effect started; `run` and `loading` are what the hook showed before. */
  function Mounted(run: Option<Run>, loading: bool): State {
    State(true, NotStarted, true, 0, run, loading, None, 0, 0)
  }

  /** A run of the effect: `trace[n + 1]` follows from `trace[n]` by `events[n]`. */
  ghost predicate IsRun(trace: seq<State>, events: seq<Event>) {
    && |trace| == |events| + 1
    && trace[0] == Mounted(trace[0].run, trace[0].loading)
    && (forall n :: 0 <= n < |events| ==> StepAt(trace, events, n))
  }

  ghost predicate StepAt(trace: seq<State>, events: seq<Event>, n: int)
    requires 0 <= n < |events| && |trace| == |events| + 1
  {
    Enabled(trace[n], events[n]) && trace[n + 1] == Next(trace[n], events[n])
  }

  ghost predicate Inv(x: State) {
    && x.created == (if x.timer.NotStarted? then 0 else 1)
    && (x.loadingDetail ==> x.timer.NotStarted?)
    && (x.timer.NotStarted? ==> x.inFlight == 0)
    && (!x.active ==> !x.timer.Live?)
    && (!x.timer.NotStarted? ==> x.run.Some?)
  }

  lemma {:induction false} RunInv(trace: seq<State>, events: seq<Event>, n: nat)
    requires IsRun(trace, events) && n < |trace|
    ensures Inv(trace[n])
  {
    if n > 0 {
      RunInv(trace, events, n - 1);
      assert StepAt(trace, events, n - 1);
    }
  }

  /** At most one timer is ever created, and none is live after the cleanup. */
  lemma OneTimer(trace: seq<State>, events: seq<Event>, n: nat)
    requires IsRun(trace, events) && n < |trace|
    ensures trace[n].created <= 1
    ensures !trace[n].active ==> !trace[n].timer.Live?
  {
    RunInv(trace, events, n);
  }

  /** The answers that end polling: a stopping status or a failure, seen while the effect is active. */
  ghost predicate EndsPolling(x: State, e: Event) {
    x.active && ((e.PollArrives? && e.s.status in POLL_STOPPING) || e.PollFails?)
  }

  /** After an answer that ends polling, or after the cleanup, no status request is started. */
  lemma {:induction false} NoRequestAfterEnd(trace: seq<State>, events: seq<Event>, m: nat, n: nat)
    requires IsRun(trace, events) && m < n < |trace| && (EndsPolling(trace[m], events[m]) || events[m].Cleanup?)
    ensures trace[n].started == trace[m].started && !trace[n].timer.Live?
    ensures !trace[n].active || !trace[n].loadingDetail
    decreases n
  {
    RunInv(trace, events, m);
    if n == m + 1 {
      assert StepAt(trace, events, m);
    } else {
      NoRequestAfterEnd(trace, events, m, n - 1);
      assert StepAt(trace, events, n - 1);
    }
  }

  /** After the cleanup the hook's state is never written again. */
  lemma {:induction false} NoWriteAfterCleanup(trace: seq<State>, events: seq<Event>, m: nat, n: nat)
    requires IsRun(trace, events) && m <= n < |trace| && !trace[m].active
    ensures !trace[n].active
    ensures trace[n].run == trace[m].run && trace[n].loading == trace[m].loading && trace[n].error == trace[m].error
    decreases n
  {
    if m < n {
      NoWriteAfterCleanup(trace, events, m, n - 1);
      assert StepAt(trace, events, n - 1);
    }
  }

  /** What polling must not lose. */
  ghost predicate Keeps(before: Option<Run>, after: Option<Run>) {
    before.Some? ==>
      && after.Some? && after.value.detail == before.value.detail
      && (before.value.startedAt.Some? ==> after.value.startedAt.Some?)
      && (before.value.endedAt.Some? ==> after.value.endedAt.Some?)
      && (before.value.errorMessage.Some? ==> after.value.errorMessage.Some?)
  }

  /** Once the run is loaded, no later event turns a known time or error message back to null. */
  lemma {:induction false} PollingKeepsKnownFields(trace: seq<State>, events: seq<Event>, m: nat, n: nat)
    requires IsRun(trace, events) && m <= n < |trace| && !trace[m].loadingDetail
    ensures !trace[n].loadingDetail && Keeps(trace[m].run, trace[n].run)
    decreases n
  {
    if m < n {
      PollingKeepsKnownFields(trace, events, m, n - 1);
      assert StepAt(trace, events, n - 1);
    }
  }

  /** In every run: an answer that arrives while the effect is active is what the loaded run shows next. */
  lemma AnswerIsShown(trace: seq<State>, events: seq<Event>, n: nat)
    requires IsRun(trace, events) && n < |events| && events[n].PollArrives? && trace[n].active
    ensures trace[n].run.Some? && trace[n + 1].run.Some?
    ensures Shows(trace[n + 1].run.value, trace[n].run.value, events[n].s)
  {
    RunInv(trace, events, n);
    assert StepAt(trace, events, n);
  }

  /** And the loaded run itself is shown when it arrives. */
  lemma DetailIsShown(trace: seq<State>, events: seq<Event>, n: nat)
    requires IsRun(trace, events) && n < |events| && events[n].DetailArrives? && trace[n].active
    ensures trace[n + 1].run == Some(events[n].data) && !trace[n + 1].loading
    ensures trace[n + 1].timer.Live? <==> events[n].data.status !in POLL_STOPPING
  {
    RunInv(trace, events, n);
    assert StepAt(trace, events, n);
  }

  /** Polling goes on until there is a reason to stop: the timer of a loaded run that was not at a
      stopping status is live as long as there has been no stopping answer, no failure and no cleanup. */
  lemma {:induction false} PollsUntilEnd(trace: seq<State>, events: seq<Event>, m: nat, n: nat)
    requires IsRun(trace, events) && m < n < |trace|
    requires trace[m].active && events[m].DetailArrives? && events[m].data.status !in POLL_STOPPING
    requires forall k | m < k < n :: !EndsPolling(trace[k], events[k]) && !events[k].Cleanup?
    ensures trace[n].timer.Live? && trace[n].active
    decreases n
  {
    if n == m + 1 {
      assert StepAt(trace, events, m);
    } else {
      PollsUntilEnd(trace, events, m, n - 1);
      RunInv(trace, events, n - 1);
      assert StepAt(trace, events, n - 1);
    }
  }

  // -------------------------------------------------------------- what does not hold

  /** `events` can happen in this order from `x` on, and lead through the states of `trace`. */
  ghost predicate Continues(x: State, trace: seq<State>, events: seq<Event>) {
    && |trace| == |events| + 1 && trace[0] == x
    && (forall n :: 0 <= n < |events| ==> StepAt(trace, events, n))
  }

  /** Whatever happens from `x` on, the displayed run stays as it is. */
  ghost predicate Final(x: State) {
    forall trace: seq<State>, events: seq<Event> | Continues(x, trace, events) :: trace[|events|].run == x.run
  }

  /** Nothing that could change the displayed run is left: the effect is over, or the run has been
      loaded and either there is none or no timer and no request is left. */
  predicate Settled(x: State) {
    !x.active || (!x.loadingDetail && (x.run.None? || (x.inFlight == 0 && !x.timer.Live?)))
  }

  /** What is displayed is final exactly when it is settled. So after polling has stopped it is final
      exactly when no request is under way, the effect is over, or there is no run. */
  lemma FinalExactly(x: State)
    ensures Final(x) <==> Settled(x)
    ensures !x.loadingDetail && !x.timer.Live? ==> (Final(x) <==> x.inFlight == 0 || !x.active || x.run.None?)
  {
    if Settled(x) {
      forall trace: seq<State>, events: seq<Event> | Continues(x, trace, events) ensures trace[|events|].run == x.run {
        SettledStays(x, trace, events, |events|);
      }
    } else {
      NotSettledChanges(x);
    }
  }

  lemma {:induction false} SettledStays(x: State, trace: seq<State>, events: seq<Event>, n: nat)
    requires Settled(x) && Continues(x, trace, events) && n <= |events|
    ensures Settled(trace[n]) && trace[n].run == x.run
  {
    if n > 0 {
      SettledStays(x, trace, events, n - 1);
      assert StepAt(trace, events, n - 1);
    }
  }

  /** An answer that shows another status than `r`. */
  function OtherStatus(r: Run): Status {
    Status(r.status + "!", r.mode, r.runType, r.triggerOrigin, None, None, None)
  }

  lemma NotSettledChanges(x: State)
    requires !Settled(x)
    ensures !Final(x)
  {
    if x.loadingDetail {
      var shown := if x.run.Some? then x.run.value else Run("", "", "", "", None, None, None, "");
      var data := shown.(detail := shown.detail + "!");
      ChangesAfter(x, [x], [], DetailArrives(data));
    } else {
      var late := PollArrives(OtherStatus(x.run.value));
      assert x.run.value.status != x.run.value.status + "!";
      if x.inFlight > 0 {
        ChangesAfter(x, [x], [], late);
      } else {
        assert StepAt([x, Next(x, Tick)], [Tick], 0);
        ChangesAfter(x, [x, Next(x, Tick)], [Tick], late);
      }
    }
  }

  lemma ChangesAfter(x: State, trace: seq<State>, events: seq<Event>, e: Event)
    requires Continues(x, trace, events) && Enabled(trace[|events|], e) && Next(trace[|events|], e).run != x.run
    ensures !Final(x)
  {
    var longer, more := trace + [Next(trace[|events|], e)], events + [e];
    forall n | 0 <= n < |more| ensures StepAt(longer, more, n) {
      if n < |events| {
        assert StepAt(trace, events, n);
      }
    }
    assert Continues(x, longer, more);
  }

  /** A status that stops polling is not final: an older answer that arrives after it is shown in
      its place, and since the timer is gone it stays. */
  lemma LateAnswerWins(data: Run, done: Status, late: Status) returns (trace: seq<State>, events: seq<Event>)
    requires data.status !in POLL_STOPPING && done.status in POLL_STOPPING && late.status !in POLL_STOPPING
    ensures IsRun(trace, events)
    ensures events == [DetailArrives(data), Tick, Tick, PollArrives(done), PollArrives(late)]
    ensures var last := trace[|trace| - 1];
            && last.run.Some? && last.run.value.status == late.status
            && !last.timer.Live? && last.inFlight == 0
            && (forall e | Enabled(last, e) :: e.Cleanup?)
  {
    var a := Mounted(None, true);
    var b := Next(a, DetailArrives(data));
    var c := Next(b, Tick);
    var d := Next(c, Tick);
    var e := Next(d, PollArrives(done));
    var f := Next(e, PollArrives(late));
    trace := [a, b, c, d, e, f];
    events := [DetailArrives(data), Tick, Tick, PollArrives(done), PollArrives(late)];
    assert StepAt(trace, events, 0) && StepAt(trace, events, 1) && StepAt(trace, events, 2);
    assert StepAt(trace, events, 3) && StepAt(trace, events, 4);
  }

  /** The statuses a run can have. */
  const RUN_STATUSES: set<string> := PROTOCOL_TERMINAL + {
    "queued", "running", "cancelling", "waiting_for_review", "waiting_for_dependency"
  }

  /** The hook's list is not the protocol's: an orphaned run is polled for ever, and a waiting run
      stops being polled although it can still go on. */
  lemma StoppingIsNotTerminal(x: State, s: Status)
    requires x.active && x.timer.Live? && x.inFlight > 0 && s.status in RUN_STATUSES
    ensures Next(x, PollArrives(s)).timer.Live? <==> s.status in {"queued", "running", "cancelling", "orphaned"}
    ensures s.status in PROTOCOL_TERMINAL ==> (Next(x, PollArrives(s)).timer.Live? <==> s.status == "orphaned")
  {}
}
