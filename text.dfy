/**
 * The text formatting the log writer relies on: decimal digits as .NET's
 * integer ToString and custom date formats produce them, and the joining of
 * lines with Environment.NewLine done by string.Join.
 */
module Text {

  /** Environment.NewLine on Windows, the only platform a WPF application runs on. */
  const NewLine: string := "\r\n"

  predicate IsDigit(c: char) { '0' <= c <= '9' }

  predicate IsDigits(s: string) { forall i | 0 <= i < |s| :: IsDigit(s[i]) }

  function Digit(d: nat): (c: char)
    requires d < 10
    ensures IsDigit(c)
  {
    ('0' as int + d) as char
  }

  function DigitValue(c: char): (d: nat)
    requires IsDigit(c)
    ensures d < 10
  {
    c as int - '0' as int
  }

  /** The value of a string of decimal digits, most significant first; "" reads as 0. */
  function ParseDigits(s: string): nat
    requires IsDigits(s)
  {
    if s == [] then 0 else ParseDigits(s[..|s| - 1]) * 10 + DigitValue(s[|s| - 1])
  }

  function Pow10(w: nat): (p: nat)
    ensures p >= 1
  {
    if w == 0 then 1 else 10 * Pow10(w - 1)
  }

  /** n.ToString() for a non-negative n: digits only, and a leading zero only for 0 itself. */
  function Decimal(n: nat): (s: string)
    ensures |s| > 0 && IsDigits(s)
    ensures (s[0] == '0') == (n == 0)
    ensures ParseDigits(s) == n
    decreases n
  {
    if n < 10 then [Digit(n)]
    else
      var front := Decimal(n / 10);
      var s := front + [Digit(n % 10)];
      assert s[..|s| - 1] == front;
      s
  }

  /**
   * n written with exactly w digits, zero-padded on the left: the fields
   * "yyyy", "MM", "dd", "HH", "mm" and "ss" of a custom DateTime format.
   */
  function Padded(n: nat, w: nat): (s: string)
    requires n < Pow10(w)
    ensures |s| == w && IsDigits(s)
    ensures ParseDigits(s) == n
  {
    if w == 0 then []
    else
      var front := Padded(n / 10, w - 1);
      var s := front + [Digit(n % 10)];
      assert s[..|s| - 1] == front;
      s
  }

  /** The texts IntText produces: an optional "-" followed by at least one digit. */
  predicate IsIntText(s: string) {
    if |s| > 0 && s[0] == '-' then |s| > 1 && IsDigits(s[1..]) else |s| > 0 && IsDigits(s)
  }

  function ParseInt(s: string): int
    requires IsIntText(s)
  {
    if s[0] == '-' then 0 - ParseDigits(s[1..]) as int else ParseDigits(s)
  }

  /** i.ToString() for a signed integer, under a culture whose negative sign is "-". */
  function IntText(i: int): (s: string)
    ensures IsIntText(s) && ParseInt(s) == i
    ensures ',' !in s && '\n' !in s
  {
    if i < 0 then
      var s := "-" + Decimal(-i);
      assert s[1..] == Decimal(-i);
      s
    else Decimal(i)
  }

  /** string.Join(NewLine, lines): NewLine between consecutive lines, nothing before or after. */
  function JoinLines(lines: seq<string>): string
  {
    if lines == [] then ""
    else if |lines| == 1 then lines[0]
    else lines[0] + NewLine + JoinLines(lines[1..])
  }

  /** Cuts s at every NewLine; the inverse of JoinLines on lines without a line feed. */
  function SplitLines(s: string): (r: seq<string>)
    ensures |r| > 0
    decreases |s|
  {
    if |s| < 2 then [s]
    else if s[..2] == NewLine then [""] + SplitLines(s[2..])
    else
      var rest := SplitLines(s[1..]);
      [[s[0]] + rest[0]] + rest[1..]
  }

  lemma {:induction false} SplitSingleLine(l: string)
    requires '\n' !in l
    ensures SplitLines(l) == [l]
  {
    if |l| >= 2 {
      assert l[1] != '\n';
      assert '\n' !in l[1..];
      SplitSingleLine(l[1..]);
      assert [l[0]] + l[1..] == l;
    }
  }

  lemma {:induction false} SplitAfterLine(l: string, t: string)
    requires '\n' !in l
    ensures SplitLines(l + NewLine + t) == [l] + SplitLines(t)
  {
    var s := l + NewLine + t;
    if l == [] {
      assert s[..2] == NewLine;
      assert s[2..] == t;
    } else {
      assert s[1] != '\n';
      assert s[..2] != NewLine;
      assert s[1..] == l[1..] + NewLine + t;
      assert '\n' !in l[1..];
      SplitAfterLine(l[1..], t);
      assert [l[0]] + l[1..] == l;
    }
  }

  /** Joining n >= 1 lines free of line feeds yields text that splits back into exactly those n lines. */
  lemma {:induction false} SplitJoinLines(lines: seq<string>)
    requires lines != []
    requires forall l | l in lines :: '\n' !in l
    ensures SplitLines(JoinLines(lines)) == lines
  {
    if |lines| == 1 {
      SplitSingleLine(lines[0]);
    } else {
      assert lines[0] in lines;
      assert forall l | l in lines[1..] :: l in lines;
      SplitJoinLines(lines[1..]);
      SplitAfterLine(lines[0], JoinLines(lines[1..]));
      assert [lines[0]] + lines[1..] == lines;
    }
  }

  /** The joined text ends with the last line: string.Join appends no trailing separator. */
  lemma {:induction false} JoinEndsWithLastLine(lines: seq<string>)
    requires lines != []
    ensures var s := JoinLines(lines);
            var last := lines[|lines| - 1];
            |last| <= |s| && s[|s| - |last|..] == last
  {
    if |lines| > 1 {
      JoinEndsWithLastLine(lines[1..]);
      var rest := JoinLines(lines[1..]);
      var s := lines[0] + NewLine + rest;
      assert s[|s| - |rest|..] == rest;
    }
  }
}
