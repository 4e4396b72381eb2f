/**
 * The process sampler: ProcessResponse records built from the operating
 * system's process table, skipping processes whose properties cannot be
 * read, sorted by name.
 */
module Sampler {
  import opened Ordering

  /** C# int. */
  type Int32 = x: int | -0x8000_0000 <= x < 0x8000_0000

  /** C# long. */
  type Int64 = x: int | -0x8000_0000_0000_0000 <= x < 0x8000_0000_0000_0000

  /**
   * One snapshot record. StartTime is kept as the text DateTime.ToString()
   * gives for it under the current culture, the only form in which it is used.
   */
  datatype ProcessResponse = ProcessResponse(
    id: Int32,
    name: string,
    memory: Int64,
    startTime: string,
    respondingStatus: bool)

  /**
   * What the property getters of one System.Diagnostics.Process return:
   * Id, ProcessName, WorkingSet64 (bytes) and Responding, together with the
   * text of DateTime.Now taken while the record was built.
   */
  datatype RawProcess = RawProcess(
    id: Int32,
    processName: string,
    workingSet64: Int64,
    responding: bool,
    now: string)

  /** One entry of Process.GetProcesses(): its getters either all returned, or one of them threw. */
  datatype Attempt<T> = Succeeded(value: T) | Threw

  /** 1024 * 1024: bytes per megabyte. */
  const BytesPerMB: int := 1_048_576

  /**
   * bytes / (1024 * 1024) in C#: long division, which truncates toward zero
   * (Dafny's own / rounds down, so a negative count is handled apart).
   */
  function ToMegabytes(bytes: Int64): (mb: Int64)
    ensures bytes >= 0 ==> 0 <= mb && mb * BytesPerMB <= bytes < (mb + 1) * BytesPerMB
    ensures bytes < 0 ==> mb <= 0 && (mb - 1) * BytesPerMB < bytes <= mb * BytesPerMB
  {
    if bytes >= 0 then bytes / BytesPerMB else -((-(bytes as int)) / BytesPerMB)
  }

  /** The record the object initializer builds from readable properties. */
  function ToResponse(p: RawProcess): ProcessResponse {
    ProcessResponse(p.id, p.processName, ToMegabytes(p.workingSet64), p.now, p.responding)
  }

  /** The key selector x => x.Name. */
  function Name(p: ProcessResponse): string { p.name }

  /** The records of the readable entries, in enumeration order: the list the foreach builds. */
  function Sampled(entries: seq<Attempt<RawProcess>>): seq<ProcessResponse>
  {
    if entries == [] then []
    else
      var last := entries[|entries| - 1];
      Sampled(entries[..|entries| - 1]) + (if last.Succeeded? then [ToResponse(last.value)] else [])
  }

  /** The batch GetCurrentProcesses returns: the sampled records ordered by name. */
  function Batch(entries: seq<Attempt<RawProcess>>, nameOrder: (string, string) -> bool): seq<ProcessResponse>
  {
    OrderBy(Sampled(entries), Name, nameOrder)
  }

  /** Sampling proceeds entry by entry: a failing entry drops only itself, never the ones after it. */
  lemma {:induction false} SampledAppend(a: seq<Attempt<RawProcess>>, b: seq<Attempt<RawProcess>>)
    ensures Sampled(a + b) == Sampled(a) + Sampled(b)
    decreases |b|
  {
    if b == [] {
      assert a + b == a;
    } else {
      var b' := b[..|b| - 1];
      assert (a + b)[..|a + b| - 1] == a + b';
      SampledAppend(a, b');
    }
  }

  /** A record is sampled exactly when some entry read successfully produces it. */
  lemma {:induction false} SampledExactlyReadable(entries: seq<Attempt<RawProcess>>, p: ProcessResponse)
    ensures p in Sampled(entries)
        <==> exists i :: 0 <= i < |entries| && entries[i].Succeeded? && ToResponse(entries[i].value) == p
  {
    if entries != [] {
      var front := entries[..|entries| - 1];
      SampledExactlyReadable(front, p);
      if p in Sampled(front) {
        var i :| 0 <= i < |front| && front[i].Succeeded? && ToResponse(front[i].value) == p;
        assert entries[i] == front[i];
      }
      if exists i :: 0 <= i < |entries| && entries[i].Succeeded? && ToResponse(entries[i].value) == p {
        var i :| 0 <= i < |entries| && entries[i].Succeeded? && ToResponse(entries[i].value) == p;
        if i < |front| {
          assert front[i] == entries[i];
        }
      }
    }
  }

  /** Exactly one record per readable entry: the batch is as long as the number of successful reads. */
  lemma {:induction false} SampledCount(entries: seq<Attempt<RawProcess>>)
    ensures |Sampled(entries)| == |set i | 0 <= i < |entries| && entries[i].Succeeded?|
  {
    if entries != [] {
      var n := |entries| - 1;
      var front := entries[..n];
      SampledCount(front);
      var before := set i | 0 <= i < n && front[i].Succeeded?;
      var after := set i | 0 <= i < |entries| && entries[i].Succeeded?;
      assert after == before + (if entries[n].Succeeded? then {n} else {});
    }
  }

  /**
   * GetCurrentProcesses: enumerate the process table, build a record for
   * every entry whose getters return, ignore the entries whose getters throw,
   * and order the records by name with a stable sort.
   */
  method GetCurrentProcesses(entries: seq<Attempt<RawProcess>>, nameOrder: (string, string) -> bool)
    returns (r: seq<ProcessResponse>)
    requires TotalPreorder(nameOrder)
    ensures r == Batch(entries, nameOrder)
    ensures Sorted(r, Name, nameOrder)
    ensures multiset(r) == multiset(Sampled(entries))
    ensures forall k :: WithKey(r, Name, nameOrder, k) == WithKey(Sampled(entries), Name, nameOrder, k)
  {
    var currentProcesses: seq<ProcessResponse> := [];
    var i := 0;
    while i < |entries|
      invariant 0 <= i <= |entries|
      invariant currentProcesses == Sampled(entries[..i])
    {
      assert entries[..i + 1][..i] == entries[..i];
      match entries[i] {
        case Succeeded(process) =>
          currentProcesses := currentProcesses + [ToResponse(process)];
        case Threw =>
      }
      i := i + 1;
    }
    assert entries[..|entries|] == entries;
    r := OrderBy(currentProcesses, Name, nameOrder);
    OrderBySorted(currentProcesses, Name, nameOrder);
    forall k ensures WithKey(r, Name, nameOrder, k) == WithKey(currentProcesses, Name, nameOrder, k) {
      OrderByStable(currentProcesses, Name, nameOrder, k);
    }
  }
}
