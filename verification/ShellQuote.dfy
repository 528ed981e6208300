/** The command line that changes to the virtual directory before it runs a command, against the
    quoting rules of the shell (POSIX.1-2017, XCU sections 2.2.1 and 2.2.2). */
module ShellQuote {
  import opened Wrappers

  // ---------- The shell's side ----------

  /** Characters that end an unquoted word: blanks, newline and operators */
  predicate EndsWord(c: char) {
    c in " \t\n;&|<>()"
  }

  /** Characters whose unquoted meaning lies outside sections 2.2.1 and 2.2.2 */
  predicate Unmodelled(c: char) {
    c in "\"$`*?[#~=%"
  }

  /** The word a shell reads at the start of `s`, and what follows it.  `quoted` says that a single
      quote is open.  None where the quote never closes or a character is not modelled. */
  function Word(s: string, quoted: bool): Option<(string, string)>
    decreases |s|
  {
    if quoted then
      // section 2.2.2: everything up to the next single quote is literal
      if s == "" then None
      else if s[0] == '\'' then Word(s[1..], false)
      else Put([s[0]], Word(s[1..], true))
    else
      if s == "" || EndsWord(s[0]) then Some(("", s))
      else if s[0] == '\'' then Word(s[1..], true)
      else if s[0] == '\\' then
        // section 2.2.1: the next character is literal; an escaped newline disappears
        if |s| == 1 then None
        else if s[1] == '\n' then Word(s[2..], false)
        else Put([s[1]], Word(s[2..], false))
      else if Unmodelled(s[0]) then None
      else Put([s[0]], Word(s[1..], false))
  }

  function Put(front: string, r: Option<(string, string)>): Option<(string, string)> {
    if r.None? then None else Some((front + r.value.0, r.value.1))
  }

  // ---------- The source's side ----------

  function Quoted(dir: string): string {
    if dir == "" then ""
    else (if dir[0] == '\'' then "'\\''" else [dir[0]]) + Quoted(dir[1..])
  }

  function Argument(cwd: string): string {
    if cwd == "" then "/" else "'" + Quoted(cwd) + "'"
  }

  function CommandLine(cwd: string, command: string): string {
    "cd " + Argument(cwd) + " ; " + command
  }

  function Quotes(dir: string): nat {
    if dir == "" then 0 else (if dir[0] == '\'' then 1 else 0) + Quotes(dir[1..])
  }

  /** sizeof("cd '' ; ") counts the terminating zero */
  function BufferSize(cwd: string, command: string): nat {
    |command| + 9 + |cwd| + 3 * Quotes(cwd) + 1 + 1
  }

  lemma {:induction false} QuotedLength(dir: string)
    ensures |Quoted(dir)| == |dir| + 3 * Quotes(dir)
  {
    if dir != "" {
      QuotedLength(dir[1..]);
    }
  }

  /** Closing the quote, escaping one and opening it again reads as one quote */
  lemma {:induction false} EscapeReads(rest: string)
    ensures Word("'\\''" + rest, true) == Put("'", Word(rest, true))
  {
    var s, a, b := "'\\''" + rest, "\\''" + rest, "'" + rest;
    assert s[1..] == a && a[2..] == b && b[1..] == rest;
    assert Word(b, false) == Word(rest, true);
    assert Word(a, false) == Put("'", Word(b, false));
  }

  /** Inside an open quote the escaped directory reads as the directory */
  lemma {:induction false} QuotedReadsBack(dir: string, tail: string)
    requires tail == "" || EndsWord(tail[0])
    ensures Word(Quoted(dir) + "'" + tail, true) == Some((dir, tail))
  {
    var s := Quoted(dir) + "'" + tail;
    if dir == "" {
      assert s == "'" + tail;
      assert s[1..] == tail;
    } else {
      var rest := Quoted(dir[1..]) + "'" + tail;
      QuotedReadsBack(dir[1..], tail);
      assert [dir[0]] + dir[1..] == dir;
      if dir[0] == '\'' {
        EscapeReads(rest);
        assert s == "'\\''" + rest;
      } else {
        assert s == [dir[0]] + rest;
        assert s[1..] == rest;
      }
    }
  }

  lemma {:induction false} RootReads(tail: string)
    requires tail != "" && EndsWord(tail[0])
    ensures Word("/" + tail, false) == Some(("/", tail))
  {
    assert ("/" + tail)[1..] == tail;
    assert Word(tail, false) == Some(("", tail));
    assert "/" + "" == "/";
  }

  lemma {:induction false} ArgumentReads(cwd: string, tail: string)
    requires tail != "" && EndsWord(tail[0])
    ensures Word(Argument(cwd) + tail, false) == Some((if cwd == "" then "/" else cwd, tail))
  {
    if cwd == "" {
      RootReads(tail);
    } else {
      var inner := Quoted(cwd) + "'" + tail;
      assert Argument(cwd) + tail == "'" + inner;
      assert ("'" + inner)[1..] == inner;
      QuotedReadsBack(cwd, tail);
    }
  }

  /** For every directory and command, the shell reads `cd`, the directory itself, and the rest
      untouched */
  lemma {:induction false} QuotingRoundTrip(cwd: string, command: string)
    ensures CommandLine(cwd, command)[..3] == "cd "
    ensures Word(CommandLine(cwd, command)[3..], false) == Some((if cwd == "" then "/" else cwd, " ; " + command))
  {
    var tail := " ; " + command;
    assert CommandLine(cwd, command)[3..] == Argument(cwd) + tail;
    ArgumentReads(cwd, tail);
  }

  /** The bytes of the line and its terminating zero fit the allocation */
  lemma {:induction false} LineFits(cwd: string, command: string)
    ensures |CommandLine(cwd, command)| + 1 <= BufferSize(cwd, command)
  {
    QuotedLength(cwd);
  }

  // ---------- virtual_popen up to its call of popen ----------

  /** The pass that counts what the quotes will cost */
  method CountExtra(cwd: string) returns (extra: nat)
    ensures extra == 3 * Quotes(cwd)
  {
    extra := 0;
    var k := 0;
    assert cwd[0..] == cwd;
    while k < |cwd|
      invariant 0 <= k <= |cwd|
      invariant extra + 3 * Quotes(cwd[k..]) == 3 * Quotes(cwd)
    {
      assert cwd[k..][1..] == cwd[k + 1..];
      if cwd[k] == '\'' {
        extra := extra + 3;
      }
      k := k + 1;
    }
  }

  /** Appends `s` at `ptr` */
  method Write(line: array<char>, ptr: nat, s: string) returns (end: nat)
    requires ptr + |s| <= line.Length
    modifies line
    ensures end == ptr + |s| && line[..end] == old(line[..ptr]) + s
  {
    var k := 0;
    while k < |s|
      invariant 0 <= k <= |s|
      invariant line[..ptr + k] == old(line[..ptr]) + s[..k]
    {
      line[ptr + k] := s[k];
      k := k + 1;
    }
    end := ptr + |s|;
  }

  /** The loop with the fall-through: a quote is closed, escaped and opened again */
  method WriteQuoted(line: array<char>, ptr: nat, dir: string) returns (end: nat)
    requires ptr + |Quoted(dir)| <= line.Length
    modifies line
    ensures end == ptr + |Quoted(dir)| && line[..end] == old(line[..ptr]) + Quoted(dir)
  {
    end := ptr;
    var k := 0;
    assert dir[0..] == dir;
    while k < |dir|
      invariant 0 <= k <= |dir| && ptr <= end
      invariant end + |Quoted(dir[k..])| == ptr + |Quoted(dir)|
      invariant line[..end] + Quoted(dir[k..]) == old(line[..ptr]) + Quoted(dir)
    {
      ghost var rest := Quoted(dir[k + 1..]);
      assert dir[k..][1..] == dir[k + 1..];
      ghost var before := line[..end];
      if dir[k] == '\'' {
        end := Write(line, end, "'\\'");
        end := Write(line, end, [dir[k]]);
        assert line[..end] == before + "'\\''";
        assert before + ("'\\''" + rest) == before + "'\\''" + rest;
      } else {
        end := Write(line, end, [dir[k]]);
        assert before + ([dir[k]] + rest) == before + [dir[k]] + rest;
      }
      k := k + 1;
    }
  }

  method WriteArgument(line: array<char>, ptr: nat, cwd: string) returns (end: nat)
    requires ptr + |Argument(cwd)| <= line.Length
    modifies line
    ensures end == ptr + |Argument(cwd)| && line[..end] == old(line[..ptr]) + Argument(cwd)
  {
    if |cwd| == 0 {
      end := Write(line, ptr, "/");
    } else {
      end := Write(line, ptr, "'");
      end := WriteQuoted(line, end, cwd);
      end := Write(line, end, "'");
      Concat(old(line[..ptr]), "'", Quoted(cwd), "'");
    }
  }

  lemma {:induction false} Concat(a: string, b: string, c: string, d: string)
    ensures a + b + c + d == a + (b + c + d)
  {
  }

  /** Builds the line in a buffer of the computed size; writing outside it would not verify */
  method BuildCommandLine(cwd: string, command: string) returns (line: array<char>, end: nat)
    ensures fresh(line) && line.Length == BufferSize(cwd, command)
    ensures end < line.Length && line[..end] == CommandLine(cwd, command) && line[end] == '\0'
  {
    var extra := CountExtra(cwd);
    QuotedLength(cwd);
    line := new char[|command| + 9 + |cwd| + extra + 1 + 1];
    end := Write(line, 0, "cd ");
    assert line[..end] == "cd ";
    end := WriteArgument(line, end, cwd);
    end := Write(line, end, " ; ");
    end := Write(line, end, command);
    line[end] := '\0';
  }
}
