/**
 * The refresh engine of the main window: the Processes collection, the
 * CancellationTokenSource, the worker loop that refreshes and saves until its
 * token is cancelled, the manual refresh, and the log files these cycles
 * write.
 */
module RefreshEngine {
  import opened Ordering
  import opened Sampler
  import opened LogFile
  import opened Cycles

  /** SetField<T>(ref field, value): assign and report true, unless the two are equal. */
  method SetField<T(==)>(field: T, value: T, propertyName: string)
    returns (newField: T, changed: bool, notified: seq<string>)
    ensures changed <==> field != value
    ensures newField == value
    ensures !changed ==> newField == field
    ensures notified == if changed then [propertyName] else []
  {
    if field == value {
      return field, false, [];
    }
    newField := value;
    notified := [propertyName];
    changed := true;
  }

  /**
   * The engine part of MainWindow: the Processes collection, the
   * CancellationTokenSource, and the log files its saves have written.
   */
  class MainWindow {
    /** The string comparer of the current culture, which OrderBy(x => x.Name) uses. */
    const nameOrder: (string, string) -> bool

    /** Processes, the collection the list view is bound to. */
    var processes: seq<ProcessResponse>

    /** _cancellationTokenSource: which source is current, and whether it is cancelled. */
    var generation: nat
    var cancelled: bool

    /** The log files on disk: path to content. */
    var logs: map<string, string>

    ghost predicate Valid()
      reads this
    {
      TotalPreorder(nameOrder)
    }

    function Token(): TokenState
      reads this
    {
      TokenState(generation, cancelled)
    }

    /** The part of the window that cycles and clicks change. */
    function State(): Snapshot
      reads this
    {
      Snapshot(Token(), processes, logs)
    }

    /** RefreshStopped */
    function RefreshStopped(): (stopped: bool)
      reads this
      ensures stopped <==> Stopped(Token())
    {
      cancelled
    }

    /** RefreshRunning */
    function RefreshRunning(): (running: bool)
      reads this
      ensures running <==> !RefreshStopped()
    {
      !cancelled
    }

    /**
     * The constructor: an empty collection and a fresh source of generation 0.
     * The worker it starts on that source is ProcessRefreshWorker(0, ...).
     */
    constructor (order: (string, string) -> bool, files: map<string, string>)
      requires TotalPreorder(order)
      ensures Valid()
      ensures nameOrder == order
      ensures Token() == Initial && processes == [] && logs == files
    {
      nameOrder := order;
      generation, cancelled := 0, false;
      processes := [];
      logs := files;
    }

    /** RefreshProcesses: sample, then clear the collection and add the new records one by one. */
    method RefreshProcesses(entries: seq<Attempt<RawProcess>>)
      requires Valid()
      modifies this`processes
      ensures Valid()
      ensures processes == Batch(entries, nameOrder)
    {
      var newProcesses := GetCurrentProcesses(entries, nameOrder);
      processes := [];
      var i := 0;
      while i < |newProcesses|
        invariant 0 <= i <= |newProcesses|
        invariant processes == newProcesses[..i]
      {
        processes := processes + [newProcesses[i]];
        i := i + 1;
      }
    }

    /**
     * SaveToFile: write the collection's lines to Logs/processes_<timestamp>.log
     * under the working directory. A failed write is swallowed and leaves the
     * files as they were.
     */
    method SaveToFile(cwd: string, now: DateTime, writeSucceeds: bool)
      requires Valid()
      modifies this`logs
      ensures Valid()
      ensures logs == if writeSucceeds then old(logs)[LogFilePath(cwd, Timestamp(now)) := LogContent(processes)]
                      else old(logs)
    {
      var logsDir := LogsDir(cwd);
      var timestamp := Timestamp(now);
      var logFilePath := CombinePath(logsDir, LogFileName(timestamp));
      var content := LogContent(processes);
      if writeSucceeds {
        logs := logs[logFilePath := content];
      }
    }

    /** await RefreshProcesses(); await SaveToFile(); as both the worker and the Refresh button do. */
    method RefreshAndSave(inputs: CycleInputs)
      requires Valid()
      modifies this`processes, this`logs
      ensures Valid()
      ensures processes == Batch(inputs.entries, nameOrder)
      ensures logs == ApplyLog(old(logs), CycleOf(inputs, nameOrder))
    {
      RefreshProcesses(inputs.entries);
      SaveToFile(inputs.cwd, inputs.now, inputs.writeSucceeds);
    }

    /** Refresh_OnClick: exactly one cycle, whether or not auto-refresh runs, and the state is left alone. */
    method RefreshOnClick(inputs: CycleInputs)
      requires Valid()
      modifies this`processes, this`logs
      ensures Valid()
      ensures Token() == old(Token())
      ensures processes == Batch(inputs.entries, nameOrder)
      ensures logs == ApplyLog(old(logs), CycleOf(inputs, nameOrder))
    {
      RefreshAndSave(inputs);
    }

    /** StopAutoRefresh_OnClick */
    method StopAutoRefreshOnClick()
      requires Valid()
      modifies this`cancelled
      ensures Valid()
      ensures Token() == Stop(old(Token()))
    {
      if cancelled {
        return;
      }
      cancelled := true;
    }

    /**
     * RunAutoRefresh_OnClick: when stopped, install a new source. The worker
     * it starts on that source is ProcessRefreshWorker(generation, ...).
     */
    method RunAutoRefreshOnClick()
      requires Valid()
      modifies this`generation, this`cancelled
      ensures Valid()
      ensures Token() == Run(old(Token()))
    {
      if !cancelled {
        return;
      }
      generation := generation + 1;
      cancelled := false;
    }

    /** One pass of the worker's loop body: refresh, save, then wait, during which Stop may be clicked. */
    method WorkerIteration(g: nat, tick: Tick)
      requires Valid() && g == generation && !cancelled
      modifies this`processes, this`logs, this`cancelled
      ensures Valid() && State() == WorkerStep(old(State()), tick, nameOrder)
      ensures cancelled == tick.stopClicked
    {
      RefreshAndSave(tick.inputs);
      if tick.stopClicked {
        StopAutoRefreshOnClick();
      }
    }

    /**
     * ProcessRefreshWorker(token of source g): while the token is not
     * cancelled, refresh, save and wait. A Stop click during the wait
     * cancels the token, and the worker starts no further cycle.
     */
    method ProcessRefreshWorker(g: nat, schedule: seq<Tick>)
      requires Valid() && g <= generation
      modifies this`processes, this`logs, this`cancelled
      ensures Valid() && State() == WorkerResult(old(State()), g, schedule, nameOrder)
    {
      var i := 0;
      while i < |schedule| && !TokenCancelled(Token(), g)
        invariant Valid() && g <= generation
        invariant i <= WorkerRan(old(Token()), g, schedule)
        invariant State() == WorkerAfter(old(State()), schedule, i, nameOrder)
      {
        WorkerLoopGuard(old(State()), g, schedule, i, nameOrder);
        WorkerIteration(g, schedule[i]);
        WorkerAfterStep(old(State()), schedule, i, nameOrder);
        i := i + 1;
      }
      WorkerLoopGuard(old(State()), g, schedule, i, nameOrder);
    }
  }
}
