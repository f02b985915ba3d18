/** Reading the parent and CPU ticks out of a `/proc/<pid>/stat` line
    (scripts/behavior/run_memory_soak.py:112-119). */
module ProcStat {
  import opened Wrappers

  /** The characters Python's `strip` and `split` take for white space. */
  predicate IsSpace(c: char) {
    var n := c as int;
    || 9 <= n <= 13 || 28 <= n <= 32 || n == 0x85 || n == 0xA0 || n == 0x1680 || 0x2000 <= n <= 0x200A
    || n == 0x2028 || n == 0x2029 || n == 0x202F || n == 0x205F || n == 0x3000
  }

  /** One by one: tab to carriage return, the four separators and space, next
      line, the no-break and the wide spaces, and the two line separators. */
  lemma BlanksOfPython(c: char)
    ensures var blanks := { 0x09, 0x0A, 0x0B, 0x0C, 0x0D, 0x1C, 0x1D, 0x1E, 0x1F, 0x20, 0x85, 0xA0, 0x1680,
                            0x2000, 0x2001, 0x2002, 0x2003, 0x2004, 0x2005, 0x2006, 0x2007, 0x2008, 0x2009, 0x200A,
                            0x2028, 0x2029, 0x202F, 0x205F, 0x3000 };
            IsSpace(c) <==> c as int in blanks
  {
  }

  function StripStart(s: string): string {
    if s != [] && IsSpace(s[0]) then StripStart(s[1..]) else s
  }

  function StripEnd(s: string): string {
    if s != [] && IsSpace(s[|s| - 1]) then StripEnd(s[..|s| - 1]) else s
  }

  /** `text.rindex(c)`. */
  function LastIndex(s: string, c: char): (i: Option<nat>)
    ensures i.Some? ==> i.value < |s| && s[i.value] == c && c !in s[i.value + 1..]
    ensures i.None? ==> c !in s
  {
    if s == [] then None
    else if s[|s| - 1] == c then Some(|s| - 1)
    else LastIndex(s[..|s| - 1], c)
  }

  /** The first word of `s` and what follows it; `s` starts with a word. */
  function Word(s: string): (w: string)
    ensures |w| <= |s|
    ensures s != [] && !IsSpace(s[0]) ==> w != []
  {
    if s == [] || IsSpace(s[0]) then [] else [s[0]] + Word(s[1..])
  }

  /** `s.split()`. */
  function Split(s: string): seq<string>
    decreases |s|
  {
    if s == [] then []
    else if IsSpace(s[0]) then Split(s[1..])
    else [Word(s)] + Split(s[|Word(s)|..])
  }

  datatype Stat = Stat(ppid: int, utime: int, stime: int)

  /** `int(...)` of a field, whatever texts it accepts. */
  type ToInt = string -> Option<int>

  /** `None` is a `ValueError`, on which the process is skipped. */
  function Parse(toInt: ToInt, line: string): Option<Stat> {
    var text := StripEnd(StripStart(line));
    var close := LastIndex(text, ')');
    if close.None? then None else
    var rest := Split(text[close.value + 1..]);
    if |rest| < 15 then None else
    var ppid, utime, stime := toInt(rest[1]), toInt(rest[11]), toInt(rest[12]);
    if ppid.None? || utime.None? || stime.None? then None else Some(Stat(ppid.value, utime.value, stime.value))
  }

  /** A field of the line: visible characters without a parenthesis. */
  predicate Field(w: string) {
    w != [] && forall i :: 0 <= i < |w| ==> '!' <= w[i] <= '~' && w[i] != ')'
  }

  function Joined(fields: seq<string>): string {
    if fields == [] then [] else " " + fields[0] + Joined(fields[1..])
  }

  /** The line as the kernel prints it: the command name is arbitrary. */
  function Line(pid: string, comm: string, fields: seq<string>): string {
    pid + " (" + comm + ")" + Joined(fields) + "\n"
  }

  lemma {:induction false} SplitJoined(fields: seq<string>)
    requires forall f :: f in fields ==> Field(f)
    ensures Split(Joined(fields)) == fields
    decreases |fields|
  {
    if fields != [] {
      var rest := Joined(fields[1..]);
      assert Joined(fields)[1..] == fields[0] + rest;
      assert fields[0] in fields;
      WordOf(fields[0], rest);
      assert (fields[0] + rest)[|fields[0]|..] == rest;
      assert !IsSpace((fields[0] + rest)[0]);
      SplitJoined(fields[1..]);
    }
  }

  lemma {:induction false} WordOf(w: string, rest: string)
    requires forall i :: 0 <= i < |w| ==> !IsSpace(w[i])
    requires rest == [] || IsSpace(rest[0])
    ensures Word(w + rest) == w
  {
    if w == [] {
      assert w + rest == rest;
    } else {
      assert (w + rest)[1..] == w[1..] + rest;
      WordOf(w[1..], rest);
    }
  }

  lemma {:induction false} JoinedHasNoParenthesis(fields: seq<string>)
    requires forall f :: f in fields ==> Field(f)
    ensures ')' !in Joined(fields)
    ensures fields != [] ==> Joined(fields) != [] && !IsSpace(Joined(fields)[|Joined(fields)| - 1])
    decreases |fields|
  {
    if fields != [] {
      assert fields[0] in fields;
      JoinedHasNoParenthesis(fields[1..]);
    }
  }

  /** No command name, however many spaces, newlines or parentheses it has, can
      change the parent or the ticks that are read. */
  lemma CommandCannotForge(toInt: ToInt, pid: string, comm: string, fields: seq<string>)
    requires Field(pid) && |fields| >= 15 && forall f :: f in fields ==> Field(f)
    ensures Parse(toInt, Line(pid, comm, fields))
            == if toInt(fields[1]).None? || toInt(fields[11]).None? || toInt(fields[12]).None? then None
               else Some(Stat(toInt(fields[1]).value, toInt(fields[11]).value, toInt(fields[12]).value))
  {
    var front, tail := pid + " (" + comm, Joined(fields);
    JoinedHasNoParenthesis(fields);
    StrippedLine(pid, comm, fields);
    var text := front + ")" + tail;
    ParenthesisAt(front, tail);
    assert text[|front| + 1..] == tail;
    SplitJoined(fields);
  }

  lemma StrippedLine(pid: string, comm: string, fields: seq<string>)
    requires Field(pid) && fields != []
    requires Joined(fields) != [] && !IsSpace(Joined(fields)[|Joined(fields)| - 1])
    ensures StripEnd(StripStart(Line(pid, comm, fields))) == pid + " (" + comm + ")" + Joined(fields)
  {
    var line, text := Line(pid, comm, fields), pid + " (" + comm + ")" + Joined(fields);
    assert line == text + "\n" && line[0] == pid[0];
    assert line[..|line| - 1] == text;
    assert text[|text| - 1] == Joined(fields)[|Joined(fields)| - 1];
  }

  lemma ParenthesisAt(front: string, tail: string)
    requires ')' !in tail
    ensures LastIndex(front + ")" + tail, ')') == Some(|front|)
  {
    var text := front + ")" + tail;
    assert text[|front|] == ')' && text[|front| + 1..] == tail;
  }

  /** Any blank character ends a field. */
  lemma BlankEndsField(a: string, c: char, b: string)
    requires Field(a) && IsSpace(c)
    ensures Split(a + [c] + b) == [a] + Split(b)
  {
    assert a + [c] + b == a + ([c] + b);
    WordOf(a, [c] + b);
    assert (a + ([c] + b))[|a|..] == [c] + b && ([c] + b)[1..] == b;
    assert Split([c] + b) == Split(b);
  }

  /** A line with fields missing is skipped, ... */
  lemma MissingFieldSkipped(toInt: ToInt, pid: string, comm: string, fields: seq<string>)
    requires Field(pid) && 0 < |fields| < 15 && forall f :: f in fields ==> Field(f)
    ensures Parse(toInt, Line(pid, comm, fields)) == None
  {
    hide Split, LastIndex, StripStart, StripEnd, Joined, Line;
    JoinedHasNoParenthesis(fields);
    StrippedLine(pid, comm, fields);
    var front, tail := pid + " (" + comm, Joined(fields);
    ParenthesisAt(front, tail);
    assert (front + ")" + tail)[|front| + 1..] == tail;
    SplitJoined(fields);
  }

  /** ... and so is one without a parenthesis. */
  lemma NoCommandSkipped(toInt: ToInt, line: string)
    requires ')' !in line
    ensures Parse(toInt, line) == None
  {
    StartKeeps(line);
    EndKeeps(StripStart(line));
  }

  lemma {:induction false} StartKeeps(s: string)
    ensures forall c :: c in StripStart(s) ==> c in s
  {
    if s != [] && IsSpace(s[0]) {
      StartKeeps(s[1..]);
    }
  }

  lemma {:induction false} EndKeeps(s: string)
    ensures forall c :: c in StripEnd(s) ==> c in s
  {
    if s != [] && IsSpace(s[|s| - 1]) {
      EndKeeps(s[..|s| - 1]);
    }
  }
}
