# Process monitor refresh engine

This project models the refresh engine of the WPF process monitor's main window (`WpfApp1/MainWindow.xaml.cs`) and proves properties about it. The engine does four things:

- **Sampling.** `GetCurrentProcesses` enumerates the process table and builds one `ProcessResponse` per process whose property getters return. It skips the ones whose getters throw, converts the working set from bytes to megabytes, and orders the records by name with LINQ's stable `OrderBy`.
- **Publication.** `RefreshProcesses` clears the bound `Processes` collection and adds the new records one by one.
- **Log serialisation.** `SaveToFile` writes one line per record, joined with `Environment.NewLine`, to `Logs\processes_<yyyyMMdd_HHmmss>.log` under the working directory. A failed write is swallowed.
- **Auto-refresh.** A `CancellationTokenSource` decides whether auto-refresh runs. The background worker refreshes, saves and waits 2 s for as long as its token is not cancelled. Stop cancels the current source. Run installs a fresh source and starts a new worker. The Refresh button runs one cycle and leaves the state alone.

Modules, in dependency order:

- `Text` (`text.dfy`): decimal and zero-padded digits as .NET formats them, and `string.Join` with `"\r\n"` together with its inverse, a line splitter.
- `Ordering` (`ordering.dfy`): `OrderBy(key).ToList()` as an insertion sort that is stable under any total preorder on names. Ordinal comparison is proved to be such an order.
- `Sampler` (`sampler.dfy`): the records, the truncating megabyte conversion, and `GetCurrentProcesses` as a loop over the enumerated entries.
- `LogFile` (`log_file.dfy`): the timestamp, the log path, the log line and the log content, each with the property that makes it readable back.
- `Cycles` (`cycles.dfy`): the cancellation state and its Stop/Run transitions. It also defines the cycles that the worker and the Refresh button run, the log files those cycles leave, and the worker's run over a schedule of ticks, as a specification.
- `RefreshEngine` (`refresh_engine.dfy`): `SetField`, and the class `MainWindow`. The class holds the collection, the current source (a generation number and a cancelled flag) and the log files. Its methods update these fields in place, and each one is proved against the functions of `Sampler`, `LogFile` and `Cycles`.

The outside world becomes input:

- The process table is a sequence of entries. Each entry either produced its property values or threw.
- `DateTime.Now`, the working directory and whether the write succeeds are parameters of a cycle.
- The worker's run is a schedule of ticks. Each tick holds one cycle's inputs and whether Stop was clicked during the wait that follows it.
- The name comparer is a parameter. The model assumes only that it is a total preorder.

Three behaviours of the code worth noting:

- The worker awaits `SaveToFile` before it starts the wait. The save is not fire-and-forget.
- The memory figure is a signed `long` division, so a negative byte count would give a negative figure rather than be excluded.
- The collection is cleared and then refilled element by element, not swapped atomically.

## Model

| member | source | states |
|---|---|---|
| Sampler.GetCurrentProcesses | WpfApp1/MainWindow.xaml.cs:67-91 | the loop collects exactly the readable entries in enumeration order; the result is sorted by name, is a permutation of those records, and keeps records with equal names in enumeration order |
| Sampler.ToMegabytes | WpfApp1/MainWindow.xaml.cs:80 | the byte count divided by 1024*1024, truncated toward zero: for b >= 0, mb*2^20 <= b < (mb+1)*2^20, and the mirror bound for negative b |
| Sampler.Sampled | WpfApp1/MainWindow.xaml.cs:72-88 | the list the foreach builds: one record per entry whose getters returned, in enumeration order, nothing for an entry that threw |
| Sampler.ToResponse | WpfApp1/MainWindow.xaml.cs:76-82 | the object initializer: Id, ProcessName, the working set in megabytes, the clock text as StartTime, and Responding |
| Sampler.SampledExactlyReadable | WpfApp1/MainWindow.xaml.cs:72-88 | a record is in the sample if and only if some entry read successfully produces it |
| Sampler.SampledAppend | WpfApp1/MainWindow.xaml.cs:72-88 | sampling works entry by entry: a failing entry drops only itself, never the entries after it |
| Sampler.SampledCount | WpfApp1/MainWindow.xaml.cs:72-88 | the sample holds exactly one record per successfully read entry |
| Ordering.InsertSorted | WpfApp1/MainWindow.xaml.cs:89 | inserting into a sorted list keeps it sorted |
| Ordering.InsertStable | WpfApp1/MainWindow.xaml.cs:89 | an inserted element goes in front of every element whose name ranks equal to it |
| Ordering.OrderBy | WpfApp1/MainWindow.xaml.cs:89 | `OrderBy(x => x.Name).ToList()` as an insertion sort that places each element before the first one whose key is not below it; its result is a permutation of its input |
| Ordering.OrderBySorted | WpfApp1/MainWindow.xaml.cs:89 | OrderBy's result is sorted ascending by name (it is a permutation of its input by OrderBy's own contract) |
| Ordering.OrderByStable | WpfApp1/MainWindow.xaml.cs:89 | OrderBy is stable: for every name, the records ranked equal to it appear in the order they had in the input |
| Ordering.OrdinalIsTotalPreorder | WpfApp1/MainWindow.xaml.cs:89 | the assumption the sorting lemmas make of the name comparer can be met: ordinal comparison is total and transitive, and its ties are equal names. It does not model the culture-sensitive comparer line 89 uses |
| RefreshEngine.MainWindow.RefreshProcesses | WpfApp1/MainWindow.xaml.cs:92-97 | after the clear and the adds, the collection is exactly the new batch, element by element and in order, and nothing of the previous contents remains |
| RefreshEngine.MainWindow.SaveToFile | WpfApp1/MainWindow.xaml.cs:98-118 | a successful save sets the file at Logs\processes_<timestamp>.log to the collection's content and touches no other file; a failed save leaves every file as it was |
| LogFile.Timestamp | WpfApp1/MainWindow.xaml.cs:107 | the instant as yyyyMMdd_HHmmss: four-digit year, two-digit month, day, hour, minute and second, zero-padded, with '_' between date and time |
| LogFile.TimestampFields | WpfApp1/MainWindow.xaml.cs:107 | the timestamp has 15 characters with '_' at index 8, and each field from year to second reads back from its digit positions |
| LogFile.TimestampSameSecond | WpfApp1/MainWindow.xaml.cs:107 | two instants get the same timestamp if and only if they fall in the same second |
| LogFile.JoinPath | WpfApp1/MainWindow.xaml.cs:102 | Windows `Path.Join`: either side empty gives the other; a backslash is inserted only when neither side has a separator at the seam |
| LogFile.CombinePath | WpfApp1/MainWindow.xaml.cs:108 | Windows `Path.Combine` of two paths: a rooted second path (a leading separator, or an ASCII drive letter followed by ':') replaces the first, otherwise as `Path.Join` |
| LogFile.LogFilePath | WpfApp1/MainWindow.xaml.cs:102-108 | the working directory joined with Logs, combined with processes_<timestamp>.log |
| LogFile.LogFilePathShape | WpfApp1/MainWindow.xaml.cs:102-108 | the log path is the Logs directory, one separator, then processes_<timestamp>.log |
| LogFile.TimestampOfLogPathRoundTrip | WpfApp1/MainWindow.xaml.cs:102-108 | the timestamp reads back from the log path it was built into |
| LogFile.LogFilePathCollision | WpfApp1/MainWindow.xaml.cs:102-108 | two saves from one working directory write the same path if and only if their clocks read the same second |
| LogFile.LogLine | WpfApp1/MainWindow.xaml.cs:110 | `ID: {Id}, Name: {Name}, Memory: {Memory} MB, StartTime: {StartTime}, Responding: {RespondingStatus}` with the integers in decimal and the flag as True or False |
| LogFile.LogContent | WpfApp1/MainWindow.xaml.cs:109-110 | the records' lines, in collection order, joined with Environment.NewLine |
| LogFile.LogLineId | WpfApp1/MainWindow.xaml.cs:110 | a log line starts with "ID: " and the id up to the first comma, and the id parses back from that text |
| LogFile.LogLineResponding | WpfApp1/MainWindow.xaml.cs:110 | a log line ends in "True" if and only if the process was responding |
| LogFile.LogLineSingleLine | WpfApp1/MainWindow.xaml.cs:110 | a log line holds no line feed unless the name or the start-time text does |
| LogFile.LogContentLines | WpfApp1/MainWindow.xaml.cs:109-110 | no records give the empty string; otherwise the content splits back into exactly one line per record, in collection order, with no header and no trailing newline |
| Text.IntText | WpfApp1/MainWindow.xaml.cs:110 | an integer's text is an optional minus sign and digits that parse back to the integer |
| Text.Padded | WpfApp1/MainWindow.xaml.cs:107 | a zero-padded field has exactly its width in digits and parses back to its value |
| Text.JoinLines | WpfApp1/MainWindow.xaml.cs:109 | `string.Join("\r\n", lines)`: no lines give "", one line gives itself, and more put "\r\n" between neighbours only |
| Text.SplitJoinLines | WpfApp1/MainWindow.xaml.cs:109 | joining lines that hold no line feed with "\r\n" and splitting the result gives the lines back |
| Text.JoinEndsWithLastLine | WpfApp1/MainWindow.xaml.cs:109 | the joined text ends with the last line, with no separator after it |
| Cycles.Stop | WpfApp1/MainWindow.xaml.cs:198-202 | Stop leaves the source cancelled with its generation unchanged, does nothing when already stopped, and never revives a cancelled worker token |
| Cycles.Run | WpfApp1/MainWindow.xaml.cs:203-209 | Run leaves auto-refresh running, does nothing when already running, installs generation + 1 when stopped, and never revives a cancelled worker token |
| Cycles.InitiallyRunning | WpfApp1/MainWindow.xaml.cs:61 | the source the constructor installs is not cancelled, so the window starts running |
| Cycles.StopRunIdempotent | WpfApp1/MainWindow.xaml.cs:198-209 | Stop twice is Stop once, and Run twice is Run once |
| Cycles.CancelledWorkerStaysCancelled | WpfApp1/MainWindow.xaml.cs:198-209 | once a worker's token is cancelled, no sequence of Stop and Run clicks makes it uncancelled again |
| Cycles.LogFileHoldsLastWrite | WpfApp1/MainWindow.xaml.cs:107-112 | after a series of saves, each log file holds what the last successful save to its path wrote; a path no save reached keeps its earlier content |
| Cycles.SameSecondSaveOverwrites | WpfApp1/MainWindow.xaml.cs:107-112 | two saves in the same second from one directory go to one file, which keeps the later save's content when the later write succeeds |
| Cycles.CyclesBeforeStopIsFirstClick | WpfApp1/MainWindow.xaml.cs:121-125 | the worker runs every tick up to and including the first one with a Stop click, and no tick after it; with no click it runs them all |
| Cycles.CyclesBeforeStopIs | WpfApp1/MainWindow.xaml.cs:121-125 | conversely, a count at which the first Stop click (or the end of the schedule) falls is the number of cycles the worker runs |
| Cycles.TokenAfterCancelled | WpfApp1/MainWindow.xaml.cs:121-125 | over a run of ticks the token keeps its generation, and it is cancelled if and only if it already was or some tick had a Stop click |
| Cycles.TokenAfterUnclicked | WpfApp1/MainWindow.xaml.cs:121-125 | ticks with no Stop click leave the token as it was |
| Cycles.WorkerStepCycle | WpfApp1/MainWindow.xaml.cs:123-124 | one loop pass displays its tick's batch and applies its save to the log files |
| Cycles.WorkerStepToken | WpfApp1/MainWindow.xaml.cs:125 | one loop pass changes the token only through a Stop click during the wait |
| Cycles.WorkerAfterStep | WpfApp1/MainWindow.xaml.cs:121-126 | the closed form after i ticks (token after the clicks, last tick's batch shown, all saves applied in order) followed by one loop pass is the closed form after i + 1 ticks |
| Cycles.WorkerLoopGuard | WpfApp1/MainWindow.xaml.cs:121 | the loop condition (ticks left and the token not cancelled) holds after i ticks if and only if the worker is to run more than i ticks |
| Cycles.CancelledWorkerDoesNothing | WpfApp1/MainWindow.xaml.cs:121 | a worker whose token is already cancelled when it starts changes nothing |
| Cycles.TokenAtWorkerEnd | WpfApp1/MainWindow.xaml.cs:121-125 | the token after a running worker's ticks is cancelled if and only if its last tick had a Stop click |
| Cycles.WorkerEndsStopped | WpfApp1/MainWindow.xaml.cs:119-127 | a worker that runs at least one tick leaves the window stopped if and only if it ended on a Stop click |
| RefreshEngine.MainWindow.ProcessRefreshWorker | WpfApp1/MainWindow.xaml.cs:119-127 | the loop leaves the window exactly as the specified run of its schedule does: as many cycles as there are ticks up to the first Stop click, none once its token is cancelled, each cycle's save applied in order |
| RefreshEngine.MainWindow.WorkerIteration | WpfApp1/MainWindow.xaml.cs:122-126 | one pass refreshes, saves, and leaves the token cancelled exactly when Stop was clicked during the wait |
| RefreshEngine.MainWindow.RefreshAndSave | WpfApp1/MainWindow.xaml.cs:123-124 | a cycle publishes the new batch and then saves that batch's content under the cycle's timestamp |
| RefreshEngine.MainWindow.RefreshOnClick | WpfApp1/MainWindow.xaml.cs:192-196 | the Refresh button runs exactly one refresh-and-save and leaves the running/stopped state unchanged |
| RefreshEngine.MainWindow.StopAutoRefreshOnClick | WpfApp1/MainWindow.xaml.cs:198-202 | the click performs the Stop transition on the window's source |
| RefreshEngine.MainWindow.RunAutoRefreshOnClick | WpfApp1/MainWindow.xaml.cs:203-209 | the click performs the Run transition: when it was stopped, installs a new uncancelled source of the next generation; when running it changes nothing |
| RefreshEngine.MainWindow.RefreshStopped | WpfApp1/MainWindow.xaml.cs:51 | RefreshStopped reports whether the current source is cancelled |
| RefreshEngine.MainWindow.RefreshRunning | WpfApp1/MainWindow.xaml.cs:52 | RefreshRunning is always the negation of RefreshStopped |
| RefreshEngine.MainWindow.constructor | WpfApp1/MainWindow.xaml.cs:58-65 | the window keeps the name comparer it is given, and starts with an empty collection, the given log files and a fresh uncancelled source of generation 0 |
| RefreshEngine.SetField | WpfApp1/MainWindow.xaml.cs:219-225 | SetField reports a change if and only if the value differs; on a change it assigns and notifies the property name once; otherwise it keeps the field and notifies nothing |

## Left out

- `Process.GetProcesses` and the property getters are operating-system calls. They become the input sequence of entries that either produced their values or threw.
- The culture-sensitive comparer that `OrderBy(x => x.Name)` uses is a parameter, assumed to be a total preorder. `OrdinalLe` compares code points, which is not exactly .NET's UTF-16 ordinal order for characters outside the Basic Multilingual Plane.
- `DateTime.Now.ToString()` under the current culture, used for the StartTime text, is an opaque string. `BoolText` is exact: `bool.ToString()` returns only "True" or "False". `DateTime` is modelled down to the second, with the day checked only against 31 and not against the month's length.
- Integer text assumes a culture whose negative sign is "-".
- LogFile.Timestamp: assumes a culture whose calendar is the Gregorian one. `ToString("yyyyMMdd_HHmmss")` formats in the current culture's calendar, so under a culture such as th-TH the year field would be the Thai Buddhist year (the Gregorian year + 543).
- `Directory.CreateDirectory` and `File.WriteAllTextAsync` are file-system I/O. They become one flag per cycle that says whether the write went through. A partially written file and the text written to the console by the catch block are not modelled.
- RefreshEngine.MainWindow.ProcessRefreshWorker: a Stop click is taken into account only during `Task.Delay`. The token passed to `Task.Run` and to `WriteAllTextAsync` could also cancel a cycle part-way through; that is not modelled.
- RefreshEngine.MainWindow.ProcessRefreshWorker: a Stop during the wait makes `Task.Delay` throw `TaskCanceledException`, which ends the worker's task as canceled. The model ends the loop without the exception, with the same effect on the window.
- Concurrency is not modelled: `Task.Run`, the async scheduling, a worker of an earlier generation that is still running alongside a newer one, a Refresh click that interleaves with the worker, and what a reader sees between `Clear` and the `Add`s. Each method runs to completion on its own.
- RefreshEngine.MainWindow.constructor: the worker started at line 64 is neither run nor recorded by the constructor; running it is `ProcessRefreshWorker(0, ...)`.
- RefreshEngine.MainWindow.RunAutoRefreshOnClick: the worker it starts is not run inside the method, since the window discards that task (`_ = ProcessRefreshWorker(...)`). Running a worker is the separate `ProcessRefreshWorker` method.
- `Dispose` of the old source is not modelled. After Run, the old source is only ever observed as cancelled.
- `INotifyPropertyChanged`, the token's `Register` callback, the tray icon, window hiding and closing, and the search box are UI and are not modelled. `SetField` returns the property name it would notify instead of raising the event.
- LogFile.LogContentLines: requires that no name and no start-time text holds a line feed. The source writes such a record anyway, and its line would then split into several.
- The log line cannot always be read back. A name containing ", Memory: " makes a line ambiguous, so only the id (LogFile.LogLineId) and the Responding flag (LogFile.LogLineResponding) are proved to read back.
