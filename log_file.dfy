/**
 * What SaveToFile writes and where: the file path built from the working
 * directory and a second-granularity timestamp, and the content, one line per
 * record joined with Environment.NewLine.
 */
module LogFile {
  import opened Text
  import opened Sampler

  /** The fields of a DateTime value, with the sub-second part in 100 ns ticks. */
  datatype Instant = Instant(year: nat, month: nat, day: nat, hour: nat, minute: nat, second: nat, ticks: nat)

  /**
   * The range DateTime covers. The day is only bounded by 31, not by the
   * length of its month: the formatting below does not depend on it.
   */
  type DateTime = d: Instant
    | 1 <= d.year <= 9999 && 1 <= d.month <= 12 && 1 <= d.day <= 31
      && d.hour < 24 && d.minute < 60 && d.second < 60 && d.ticks < 10_000_000
    witness Instant(1, 1, 1, 0, 0, 0, 0)

  /** The two instants fall in the same second. */
  predicate SameSecond(a: DateTime, b: DateTime) {
    a.(ticks := 0) == b.(ticks := 0)
  }

  /** now.ToString("yyyyMMdd_HHmmss") under a culture whose calendar is the Gregorian one. */
  function Timestamp(d: DateTime): string {
    Padded(d.year, 4) + Padded(d.month, 2) + Padded(d.day, 2) + "_"
      + Padded(d.hour, 2) + Padded(d.minute, 2) + Padded(d.second, 2)
  }

  /** Each field of the instant down to the second can be read back from its place in the timestamp. */
  lemma TimestampFields(d: DateTime)
    ensures var t := Timestamp(d);
      && |t| == 15 && t[8] == '_'
      && IsDigits(t[0..4]) && ParseDigits(t[0..4]) == d.year
      && IsDigits(t[4..6]) && ParseDigits(t[4..6]) == d.month
      && IsDigits(t[6..8]) && ParseDigits(t[6..8]) == d.day
      && IsDigits(t[9..11]) && ParseDigits(t[9..11]) == d.hour
      && IsDigits(t[11..13]) && ParseDigits(t[11..13]) == d.minute
      && IsDigits(t[13..15]) && ParseDigits(t[13..15]) == d.second
  {
    var y, mo, da := Padded(d.year, 4), Padded(d.month, 2), Padded(d.day, 2);
    var h, mi, se := Padded(d.hour, 2), Padded(d.minute, 2), Padded(d.second, 2);
    var t := Timestamp(d);
    assert t == y + mo + da + "_" + h + mi + se;
    assert t[0..4] == y;
    assert t[4..6] == mo;
    assert t[6..8] == da;
    assert t[9..11] == h;
    assert t[11..13] == mi;
    assert t[13..15] == se;
  }

  /** Two instants get the same timestamp exactly when they fall in the same second. */
  lemma TimestampSameSecond(a: DateTime, b: DateTime)
    ensures Timestamp(a) == Timestamp(b) <==> SameSecond(a, b)
  {
    if Timestamp(a) == Timestamp(b) {
      TimestampFields(a);
      TimestampFields(b);
    }
  }

  /** LogsDirName */
  const LogsDirName: string := "Logs"

  predicate IsSeparator(c: char) { c == '\\' || c == '/' }

  /** Path.Join(a, b) on Windows: a separator is added only when neither side has one at the seam. */
  function JoinPath(a: string, b: string): string {
    if a == [] then b
    else if b == [] then a
    else if IsSeparator(a[|a| - 1]) || IsSeparator(b[0]) then a + b
    else a + "\\" + b
  }

  /** A drive letter: an ASCII letter. */
  predicate IsDriveLetter(c: char) { 'a' <= c <= 'z' || 'A' <= c <= 'Z' }

  /** Path.IsPathRooted on Windows: a leading separator, or a drive letter followed by ':'. */
  predicate IsRooted(p: string) {
    (|p| > 0 && IsSeparator(p[0])) || (|p| > 1 && p[1] == ':' && IsDriveLetter(p[0]))
  }

  /** Path.Combine(a, b) on Windows: as Path.Join, except that a rooted b replaces a. */
  function CombinePath(a: string, b: string): string {
    if IsRooted(b) then b else JoinPath(a, b)
  }

  /** Path.Join(Directory.GetCurrentDirectory(), LogsDirName) */
  function LogsDir(cwd: string): string {
    JoinPath(cwd, LogsDirName)
  }

  /** $"processes_{timestamp}.log" */
  function LogFileName(timestamp: string): string {
    "processes_" + timestamp + ".log"
  }

  /** Path.Combine(logsDir, $"processes_{timestamp}.log") */
  function LogFilePath(cwd: string, timestamp: string): string {
    CombinePath(LogsDir(cwd), LogFileName(timestamp))
  }

  /** The log file is named processes_<timestamp>.log and sits directly in the Logs directory. */
  lemma LogFilePathShape(cwd: string, timestamp: string)
    ensures LogFilePath(cwd, timestamp) == LogsDir(cwd) + "\\" + LogFileName(timestamp)
    ensures |LogsDir(cwd)| >= 4 && LogsDir(cwd)[|LogsDir(cwd)| - 4..] == LogsDirName
  {
    var dir := LogsDir(cwd);
    if cwd != [] && !IsSeparator(cwd[|cwd| - 1]) {
      assert dir == cwd + "\\" + LogsDirName;
    }
    assert dir[|dir| - 4..] == LogsDirName;
    assert !IsRooted(LogFileName(timestamp));
  }

  /** The timestamp a log path was built from, read back from the path. */
  function TimestampOfLogPath(cwd: string, path: string): string
  {
    var start := |LogsDir(cwd)| + |"\\processes_"|;
    if start <= |path| - 4 then path[start..|path| - 4] else ""
  }

  lemma TimestampOfLogPathRoundTrip(cwd: string, timestamp: string)
    ensures TimestampOfLogPath(cwd, LogFilePath(cwd, timestamp)) == timestamp
  {
    LogFilePathShape(cwd, timestamp);
    var path := LogFilePath(cwd, timestamp);
    var dir := LogsDir(cwd);
    assert path == dir + "\\processes_" + timestamp + ".log";
    assert path[|dir| + 11..|path| - 4] == timestamp;
  }

  /**
   * Two saves from one working directory write the same file exactly when
   * their clocks read the same second: then the later save overwrites the
   * earlier one's file, otherwise they write distinct files.
   */
  lemma LogFilePathCollision(cwd: string, a: DateTime, b: DateTime)
    ensures LogFilePath(cwd, Timestamp(a)) == LogFilePath(cwd, Timestamp(b)) <==> SameSecond(a, b)
  {
    TimestampOfLogPathRoundTrip(cwd, Timestamp(a));
    TimestampOfLogPathRoundTrip(cwd, Timestamp(b));
    TimestampSameSecond(a, b);
  }

  /** bool.ToString() */
  function BoolText(b: bool): string {
    if b then "True" else "False"
  }

  /** $"ID: {p.Id}, Name: {p.Name}, Memory: {p.Memory} MB, StartTime: {p.StartTime}, Responding: {p.RespondingStatus}" */
  function LogLine(p: ProcessResponse): string {
    "ID: " + IntText(p.id) + ", Name: " + p.name + ", Memory: " + IntText(p.memory)
      + " MB, StartTime: " + p.startTime + ", Responding: " + BoolText(p.respondingStatus)
  }

  /** Processes.Select(p => line of p) */
  function LogLines(ps: seq<ProcessResponse>): seq<string> {
    seq(|ps|, i requires 0 <= i < |ps| => LogLine(ps[i]))
  }

  /** string.Join(Environment.NewLine, Processes.Select(...)) */
  function LogContent(ps: seq<ProcessResponse>): string {
    JoinLines(LogLines(ps))
  }

  /** The text up to, not including, the first comma. */
  function UpToComma(s: string): string {
    if s == [] || s[0] == ',' then [] else [s[0]] + UpToComma(s[1..])
  }

  /** A text that starts with x, a comma-free string, followed by a comma reads back as x. */
  lemma {:induction false} UpToCommaPrefix(s: string, x: string)
    requires ',' !in x && |x| < |s| && s[|x|] == ','
    requires forall j | 0 <= j < |x| :: s[j] == x[j]
    ensures UpToComma(s) == x
  {
    if x != [] {
      assert x[0] != ',' by { assert x[0] in x; }
      assert ',' !in x[1..];
      UpToCommaPrefix(s[1..], x[1..]);
      assert [x[0]] + x[1..] == x;
    }
  }

  lemma {:induction false} UpToCommaExtend(s: string, t: string)
    requires ',' in s
    ensures UpToComma(s + t) == UpToComma(s)
  {
    if s[0] != ',' {
      assert (s + t)[1..] == s[1..] + t;
      UpToCommaExtend(s[1..], t);
    }
  }

  /** The process id written at the head of a log line, as text. */
  function IdOfLine(line: string): string {
    var head := UpToComma(line);
    if |head| >= 4 then head[4..] else ""
  }

  /** The responsiveness flag a log line ends with. */
  predicate RespondingOfLine(line: string) {
    |line| >= 4 && line[|line| - 4..] == "True"
  }

  /** A log line starts with "ID: " and the id, which reads back from the text before the first comma. */
  lemma LogLineId(p: ProcessResponse)
    ensures UpToComma(LogLine(p)) == "ID: " + IntText(p.id)
    ensures IsIntText(IdOfLine(LogLine(p))) && ParseInt(IdOfLine(LogLine(p))) == p.id
  {
    var x := "ID: " + IntText(p.id);
    var s0 := x + ", Name: ";
    assert s0[|x|] == ',';
    UpToCommaPrefix(s0, x);
    var s1 := s0 + p.name;
    UpToCommaExtend(s0, p.name);
    var s2 := s1 + ", Memory: ";
    UpToCommaExtend(s1, ", Memory: ");
    var s3 := s2 + IntText(p.memory);
    UpToCommaExtend(s2, IntText(p.memory));
    var s4 := s3 + " MB, StartTime: ";
    UpToCommaExtend(s3, " MB, StartTime: ");
    var s5 := s4 + p.startTime;
    UpToCommaExtend(s4, p.startTime);
    var s6 := s5 + ", Responding: ";
    UpToCommaExtend(s5, ", Responding: ");
    UpToCommaExtend(s6, BoolText(p.respondingStatus));
    assert x[4..] == IntText(p.id);
  }

  /** A log line ends with the Responding flag, which reads back from its last four characters. */
  lemma LogLineResponding(p: ProcessResponse)
    ensures RespondingOfLine(LogLine(p)) <==> p.respondingStatus
  {
    var line := LogLine(p);
    var bt := BoolText(p.respondingStatus);
    var front := "ID: " + IntText(p.id) + ", Name: " + p.name + ", Memory: " + IntText(p.memory)
      + " MB, StartTime: " + p.startTime + ", Responding: ";
    assert line == front + bt;
    assert line[|line| - 4..] == bt[|bt| - 4..];
    if !p.respondingStatus {
      assert bt[|bt| - 4..] == "alse";
    }
  }

  /** A log line holds no line feed when neither the name nor the start time text does. */
  lemma LogLineSingleLine(p: ProcessResponse)
    requires '\n' !in p.name && '\n' !in p.startTime
    ensures '\n' !in LogLine(p)
  {
    var id, memory := IntText(p.id), IntText(p.memory);
    var bt := BoolText(p.respondingStatus);
    var s := "ID: " + id;
    s := s + ", Name: ";
    s := s + p.name;
    s := s + ", Memory: ";
    s := s + memory;
    s := s + " MB, StartTime: ";
    s := s + p.startTime;
    s := s + ", Responding: ";
    assert '\n' !in s;
    assert '\n' !in bt;
    assert s + bt == LogLine(p);
  }

  /**
   * The log content: the empty string for no records; otherwise it splits
   * back into exactly one line per record, in collection order, with no
   * header, and it does not end with a newline.
   */
  lemma LogContentLines(ps: seq<ProcessResponse>)
    requires forall p | p in ps :: '\n' !in p.name && '\n' !in p.startTime
    ensures ps == [] ==> LogContent(ps) == ""
    ensures ps != [] ==> SplitLines(LogContent(ps)) == LogLines(ps) && |LogLines(ps)| == |ps|
    ensures ps != [] ==> var c := LogContent(ps); |c| > 0 && c[|c| - 1] == 'e'
  {
    if ps != [] {
      var lines := LogLines(ps);
      forall l | l in lines ensures '\n' !in l {
        var i :| 0 <= i < |lines| && lines[i] == l;
        assert ps[i] in ps;
        LogLineSingleLine(ps[i]);
      }
      SplitJoinLines(lines);
      JoinEndsWithLastLine(lines);
      var last := lines[|lines| - 1];
      var p := ps[|ps| - 1];
      assert last[|last| - 1] == BoolText(p.respondingStatus)[|BoolText(p.respondingStatus)| - 1];
    }
  }
}
