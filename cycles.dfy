/**
 * The values the refresh engine works with: the auto-refresh on/off state
 * kept in a CancellationTokenSource, the refresh-and-save cycles the worker
 * and the Refresh button run, and the log files those cycles leave behind.
 */
module Cycles {
  import opened Sampler
  import opened LogFile

  /**
   * The current CancellationTokenSource: which one it is (each Run click
   * installs a new one, numbered by generation) and whether cancellation has
   * been requested on it. Every earlier source was cancelled before it was
   * replaced, and a cancelled source stays cancelled.
   */
  datatype TokenState = TokenState(generation: nat, cancelled: bool)

  /** The constructor installs a fresh, uncancelled source. */
  const Initial: TokenState := TokenState(0, false)

  /** RefreshStopped: cancellation was requested on the current source. */
  predicate Stopped(s: TokenState) { s.cancelled }

  /** RefreshRunning: the negation of RefreshStopped. */
  predicate Running(s: TokenState) { !s.cancelled }

  /** IsCancellationRequested of the token of source number g, as a worker started with it sees it. */
  predicate TokenCancelled(s: TokenState, g: nat)
    requires g <= s.generation
  {
    g < s.generation || s.cancelled
  }

  /** StopAutoRefresh_OnClick: nothing when already stopped, otherwise Cancel() on the current source. */
  function Stop(s: TokenState): (t: TokenState)
    ensures Stopped(t) && t.generation == s.generation
    ensures Stopped(s) ==> t == s
    ensures forall g: nat | g <= s.generation :: TokenCancelled(s, g) ==> TokenCancelled(t, g)
  {
    if s.cancelled then s else s.(cancelled := true)
  }

  /** RunAutoRefresh_OnClick: nothing when running, otherwise a new, uncancelled source replaces the cancelled one. */
  function Run(s: TokenState): (t: TokenState)
    ensures Running(t)
    ensures Running(s) ==> t == s
    ensures Stopped(s) ==> t.generation == s.generation + 1
    ensures forall g: nat | g <= s.generation :: TokenCancelled(s, g) ==> TokenCancelled(t, g)
  {
    if !s.cancelled then s else TokenState(s.generation + 1, false)
  }

  /** The window starts with auto-refresh running. */
  lemma InitiallyRunning()
    ensures Running(Initial)
  {
  }

  /** Stopping twice is stopping once, and running twice is running once. */
  lemma StopRunIdempotent(s: TokenState)
    ensures Stop(Stop(s)) == Stop(s)
    ensures Run(Run(s)) == Run(s)
  {
  }

  /** A worker whose token is cancelled is never revived: Stop and Run leave its token cancelled. */
  lemma CancelledWorkerStaysCancelled(s: TokenState, g: nat, clicks: seq<bool>)
    requires g <= s.generation && TokenCancelled(s, g)
    ensures TokenCancelled(Clicks(s, clicks), g)
    decreases |clicks|
  {
    if clicks != [] {
      var next := if clicks[0] then Run(s) else Stop(s);
      CancelledWorkerStaysCancelled(next, g, clicks[1..]);
    }
  }

  /** The state after a series of clicks: true for Run, false for Stop. */
  function Clicks(s: TokenState, clicks: seq<bool>): (t: TokenState)
    ensures t.generation >= s.generation
    decreases |clicks|
  {
    if clicks == [] then s
    else Clicks(if clicks[0] then Run(s) else Stop(s), clicks[1..])
  }

  /**
   * What one cycle depends on outside the program: the process table,
   * Directory.GetCurrentDirectory(), DateTime.Now when saving, and whether
   * creating the directory and writing the file succeed.
   */
  datatype CycleInputs = CycleInputs(
    entries: seq<Attempt<RawProcess>>,
    cwd: string,
    now: DateTime,
    writeSucceeds: bool)

  /** One iteration of the worker: its inputs, and whether Stop was clicked during its Task.Delay. */
  datatype Tick = Tick(inputs: CycleInputs, stopClicked: bool)

  /** A refresh followed by a save: the batch published, the file written to, and whether the write went through. */
  datatype Cycle = Cycle(batch: seq<ProcessResponse>, cwd: string, savedAt: DateTime, written: bool)
  {
    function LogPath(): string { LogFilePath(cwd, Timestamp(savedAt)) }
  }

  function CycleOf(inputs: CycleInputs, nameOrder: (string, string) -> bool): Cycle {
    Cycle(Batch(inputs.entries, nameOrder), inputs.cwd, inputs.now, inputs.writeSucceeds)
  }

  /** The cycles a worker runs for a series of ticks, in order. */
  function CyclesOf(ticks: seq<Tick>, nameOrder: (string, string) -> bool): seq<Cycle>
  {
    if ticks == [] then []
    else CyclesOf(ticks[..|ticks| - 1], nameOrder) + [CycleOf(ticks[|ticks| - 1].inputs, nameOrder)]
  }

  /** The log files after one cycle's save. */
  function ApplyLog(logs: map<string, string>, c: Cycle): map<string, string> {
    if c.written then logs[c.LogPath() := LogContent(c.batch)] else logs
  }

  /** The log files after a series of cycles' saves. */
  function ApplyCycles(logs: map<string, string>, cycles: seq<Cycle>): map<string, string>
  {
    if cycles == [] then logs
    else ApplyLog(ApplyCycles(logs, cycles[..|cycles| - 1]), cycles[|cycles| - 1])
  }

  /** The last cycle whose save went through to the given path. */
  function LastWriteTo(cycles: seq<Cycle>, path: string): Option<Cycle>
  {
    if cycles == [] then None
    else
      var c := cycles[|cycles| - 1];
      if c.written && c.LogPath() == path then Some(c) else LastWriteTo(cycles[..|cycles| - 1], path)
  }

  datatype Option<T> = None | Some(value: T)

  /**
   * Each log file holds what the last successful save to its path wrote;
   * a path no save reached keeps what it had before.
   */
  lemma {:induction false} LogFileHoldsLastWrite(logs: map<string, string>, cycles: seq<Cycle>, path: string)
    ensures var after := ApplyCycles(logs, cycles);
      match LastWriteTo(cycles, path)
      case Some(c) => path in after && after[path] == LogContent(c.batch)
      case None => (path in after <==> path in logs) && (path in logs ==> after[path] == logs[path])
  {
    if cycles != [] {
      LogFileHoldsLastWrite(logs, cycles[..|cycles| - 1], path);
    }
  }

  /**
   * Two saves from one working directory whose clocks read the same second
   * go to one file, and the later save's content is what the file keeps.
   */
  lemma SameSecondSaveOverwrites(logs: map<string, string>, a: CycleInputs, b: CycleInputs,
                                 nameOrder: (string, string) -> bool)
    requires a.cwd == b.cwd && SameSecond(a.now, b.now) && b.writeSucceeds
    ensures var later := CycleOf(b, nameOrder);
      var after := ApplyCycles(logs, [CycleOf(a, nameOrder), later]);
      CycleOf(a, nameOrder).LogPath() == later.LogPath()
      && later.LogPath() in after && after[later.LogPath()] == LogContent(later.batch)
  {
    LogFilePathCollision(a.cwd, a.now, b.now);
    var cs := [CycleOf(a, nameOrder), CycleOf(b, nameOrder)];
    LogFileHoldsLastWrite(logs, cs, cs[1].LogPath());
  }

  /** How many cycles a worker runs before a Stop click ends it: up to and including the tick with the click. */
  function CyclesBeforeStop(schedule: seq<Tick>): (n: nat)
    ensures n <= |schedule|
  {
    if schedule == [] then 0
    else if schedule[0].stopClicked then 1
    else 1 + CyclesBeforeStop(schedule[1..])
  }

  /** One more tick adds its cycle to the trace and its save to the log files. */
  lemma CyclesOfExtend(schedule: seq<Tick>, i: nat, nameOrder: (string, string) -> bool,
                       logs: map<string, string>)
    requires i < |schedule|
    ensures var done := CyclesOf(schedule[..i], nameOrder);
      var cycle := CycleOf(schedule[i].inputs, nameOrder);
      && CyclesOf(schedule[..i + 1], nameOrder) == done + [cycle]
      && ApplyCycles(logs, done + [cycle]) == ApplyLog(ApplyCycles(logs, done), cycle)
  {
    var done := CyclesOf(schedule[..i], nameOrder);
    var cycle := CycleOf(schedule[i].inputs, nameOrder);
    assert schedule[..i + 1][..i] == schedule[..i];
    assert (done + [cycle])[..|done|] == done;
  }

  lemma {:induction false} CyclesBeforeStopIs(schedule: seq<Tick>, i: nat)
    requires 0 < i <= |schedule|
    requires forall j | 0 <= j && j + 1 < i :: !schedule[j].stopClicked
    requires schedule[i - 1].stopClicked || i == |schedule|
    ensures CyclesBeforeStop(schedule) == i
  {
    if i > 1 {
      assert !schedule[0].stopClicked;
      CyclesBeforeStopIs(schedule[1..], i - 1);
    }
  }


  /** What the window holds that a cycle or a click changes: the token state, the collection, the log files. */
  datatype Snapshot = Snapshot(token: TokenState, processes: seq<ProcessResponse>, logs: map<string, string>)

  /** await RefreshProcesses(); await SaveToFile(); — one cycle's effect on the window. */
  function Refreshed(s: Snapshot, inputs: CycleInputs, nameOrder: (string, string) -> bool): Snapshot {
    s.(processes := Batch(inputs.entries, nameOrder), logs := ApplyLog(s.logs, CycleOf(inputs, nameOrder)))
  }

  /** One pass of the worker's loop: a cycle, then the Task.Delay, during which Stop may be clicked. */
  function WorkerStep(s: Snapshot, tick: Tick, nameOrder: (string, string) -> bool): Snapshot {
    var r := Refreshed(s, tick.inputs, nameOrder);
    if tick.stopClicked then r.(token := Stop(r.token)) else r
  }

  /**
   * The window after a worker has run the first i ticks of its schedule: the token has seen their Stop clicks, the
   * collection shows the last tick's batch, and the log files hold their saves.
   */
  function WorkerAfter(start: Snapshot, schedule: seq<Tick>, i: nat,
                       nameOrder: (string, string) -> bool): Snapshot
    requires i <= |schedule|
  {
    Snapshot(
      TokenAfter(start.token, schedule, i),
      if i == 0 then start.processes else Batch(schedule[i - 1].inputs.entries, nameOrder),
      ApplyCycles(start.logs, CyclesOf(schedule[..i], nameOrder)))
  }

  /** One more pass of the loop takes the window from i ticks to i + 1. */
  lemma WorkerAfterStep(start: Snapshot, schedule: seq<Tick>, i: nat, nameOrder: (string, string) -> bool)
    requires i < |schedule|
    ensures WorkerAfter(start, schedule, i + 1, nameOrder)
         == WorkerStep(WorkerAfter(start, schedule, i, nameOrder), schedule[i], nameOrder)
  {
    var prev := WorkerAfter(start, schedule, i, nameOrder);
    WorkerStepCycle(prev, schedule[i], nameOrder);
    WorkerStepToken(prev, schedule[i], nameOrder);
    CyclesOfExtend(schedule, i, nameOrder, start.logs);
  }

  /** The number of ticks a worker with source number g runs: none when its token is already cancelled. */
  function WorkerRan(start: TokenState, g: nat, schedule: seq<Tick>): (n: nat)
    requires g <= start.generation
    ensures n <= |schedule|
  {
    if TokenCancelled(start, g) then 0 else CyclesBeforeStop(schedule)
  }

  /** The window when the worker with source number g has returned. */
  function WorkerResult(start: Snapshot, g: nat, schedule: seq<Tick>, nameOrder: (string, string) -> bool): Snapshot
    requires g <= start.token.generation
  {
    WorkerAfter(start, schedule, WorkerRan(start.token, g, schedule), nameOrder)
  }

  /** A worker pass displays its tick's batch and saves its cycle; the Stop click touches neither. */
  lemma WorkerStepCycle(s: Snapshot, tick: Tick, nameOrder: (string, string) -> bool)
    ensures var r := WorkerStep(s, tick, nameOrder);
      && r.processes == Batch(tick.inputs.entries, nameOrder)
      && r.logs == ApplyLog(s.logs, CycleOf(tick.inputs, nameOrder))
  {
  }

  /** The token after the Stop clicks among the first i ticks. */
  function TokenAfter(t: TokenState, schedule: seq<Tick>, i: nat): TokenState
    requires i <= |schedule|
  {
    if i == 0 then t
    else
      var before := TokenAfter(t, schedule, i - 1);
      if schedule[i - 1].stopClicked then Stop(before) else before
  }

  /**
   * The token keeps its generation, and it is cancelled exactly when it was
   * to begin with or Stop was clicked in one of the ticks.
   */
  lemma {:induction false} TokenAfterCancelled(t: TokenState, schedule: seq<Tick>, i: nat)
    requires i <= |schedule|
    ensures TokenAfter(t, schedule, i).generation == t.generation
    ensures TokenAfter(t, schedule, i).cancelled <==> t.cancelled || exists j | 0 <= j < i :: schedule[j].stopClicked
  {
    if i > 0 {
      TokenAfterCancelled(t, schedule, i - 1);
      if schedule[i - 1].stopClicked {
        assert exists j | 0 <= j < i :: schedule[j].stopClicked;
      } else if exists j | 0 <= j < i :: schedule[j].stopClicked {
        var j :| 0 <= j < i && schedule[j].stopClicked;
        assert exists j | 0 <= j < i - 1 :: schedule[j].stopClicked;
      }
    }
  }

  /** A worker pass changes the token only by a Stop click. */
  lemma WorkerStepToken(s: Snapshot, tick: Tick, nameOrder: (string, string) -> bool)
    ensures WorkerStep(s, tick, nameOrder).token == if tick.stopClicked then Stop(s.token) else s.token
  {
  }

  /**
   * The worker runs every tick up to and including the first one with a
   * Stop click, and no tick after it; with no click it runs them all.
   */
  lemma {:induction false} CyclesBeforeStopIsFirstClick(schedule: seq<Tick>)
    ensures var n := CyclesBeforeStop(schedule);
      && (forall j | 0 <= j && j + 1 < n :: !schedule[j].stopClicked)
      && (n == |schedule| || schedule[n - 1].stopClicked)
      && (schedule != [] ==> n > 0)
  {
    if schedule != [] && !schedule[0].stopClicked {
      var tail := schedule[1..];
      CyclesBeforeStopIsFirstClick(tail);
      forall j | 0 <= j && j + 1 < CyclesBeforeStop(schedule) ensures !schedule[j].stopClicked {
        if j > 0 {
          assert schedule[j] == tail[j - 1];
        }
      }
    }
  }

  /** Ticks without a Stop click leave the token as it was. */
  lemma {:induction false} TokenAfterUnclicked(t: TokenState, schedule: seq<Tick>, i: nat)
    requires i <= |schedule|
    requires forall j | 0 <= j < i :: !schedule[j].stopClicked
    ensures TokenAfter(t, schedule, i) == t
  {
    if i > 0 {
      TokenAfterUnclicked(t, schedule, i - 1);
    }
  }

  /**
   * The worker's loop condition, token not cancelled and ticks left, holds
   * after i ticks exactly when the worker is to run more than i ticks.
   */
  lemma WorkerLoopGuard(start: Snapshot, g: nat, schedule: seq<Tick>, i: nat, nameOrder: (string, string) -> bool)
    requires g <= start.token.generation && i <= WorkerRan(start.token, g, schedule)
    ensures var t := WorkerAfter(start, schedule, i, nameOrder).token;
      && t.generation == start.token.generation
      && ((i < |schedule| && !TokenCancelled(t, g)) <==> i < WorkerRan(start.token, g, schedule))
  {
    if !TokenCancelled(start.token, g) && i > 0 {
      CyclesBeforeStopIsFirstClick(schedule);
      TokenAfterUnclicked(start.token, schedule, i - 1);
    }
  }

  /** A worker whose token is cancelled when it is to begin changes nothing. */
  lemma CancelledWorkerDoesNothing(start: Snapshot, g: nat, schedule: seq<Tick>, nameOrder: (string, string) -> bool)
    requires g <= start.token.generation && TokenCancelled(start.token, g)
    ensures WorkerResult(start, g, schedule, nameOrder) == start
  {
  }

  /** The token after the ticks a worker runs is cancelled exactly when the last of them had a Stop click. */
  lemma TokenAtWorkerEnd(t: TokenState, schedule: seq<Tick>)
    requires !t.cancelled && schedule != []
    ensures var n := CyclesBeforeStop(schedule);
      0 < n && (TokenAfter(t, schedule, n).cancelled <==> schedule[n - 1].stopClicked)
  {
    var n := CyclesBeforeStop(schedule);
    CyclesBeforeStopIsFirstClick(schedule);
    TokenAfterUnclicked(t, schedule, n - 1);
  }

  /**
   * A worker that runs at least one tick leaves its token cancelled exactly
   * when it ended on a Stop click, and then the window reads as stopped.
   */
  lemma WorkerEndsStopped(start: Snapshot, g: nat, schedule: seq<Tick>, nameOrder: (string, string) -> bool)
    requires g == start.token.generation && Running(start.token) && schedule != []
    ensures var n := CyclesBeforeStop(schedule);
      Stopped(WorkerResult(start, g, schedule, nameOrder).token) <==> schedule[n - 1].stopClicked
  {
    TokenAtWorkerEnd(start.token, schedule);
  }
}
