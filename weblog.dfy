/**
 * The log lists of the web interface (`main.py`): `add_log` keeps the last
 * `MAX_LOG_LINES` messages of a list it changes in place, and
 * `read_process_output` files each line of a child process's output under
 * a plain or an "ERROR" prefix.
 */
module WebLog {

  import opened Wrappers

  /** The number of log lines kept. */
  const MAX_LOG_LINES: nat := 100

  /** Whether `sub` occurs in `s` (Python's `sub in s`): at the start, or somewhere after the first character. */
  predicate Contains(s: string, sub: string)
    decreases |s|
  {
    |sub| <= |s| && (s[..|sub|] == sub || Contains(s[1..], sub))
  }

  /** An occurrence of `sub` at any position makes `sub in s` hold. */
  lemma {:induction false} ContainsAt(s: string, sub: string, i: nat)
    requires i + |sub| <= |s| && s[i..i + |sub|] == sub
    ensures Contains(s, sub)
  {
    if i > 0 {
      assert s[1..][i - 1..i - 1 + |sub|] == s[i..i + |sub|];
      ContainsAt(s[1..], sub, i - 1);
    }
  }

  /** The keyword test of `read_process_output`. */
  predicate IsErrorLine(line: string)
  {
    Contains(line, "Error") || Contains(line, "error") || Contains(line, "Exception") || Contains(line, "exception")
  }

  /** The entry `read_process_output` adds for a (stripped) output line: none for an empty line. */
  function LogEntry(prefix: string, line: string): (r: Option<string>)
    ensures r.None? <==> line == ""
    ensures r.Some? ==> (r.value == prefix + " ERROR: " + line <==> IsErrorLine(line))
    ensures r.Some? ==> (r.value == prefix + ": " + line <==> !IsErrorLine(line))
  {
    if line == "" then None
    else if IsErrorLine(line) then Some(prefix + " ERROR: " + line)
    else Some(prefix + ": " + line)
  }

  /** The test is case-sensitive on the first letter only: "ERROR" in capitals is not an error line, "Errors" is. */
  lemma KeywordCase()
    ensures !IsErrorLine("ERROR")
    ensures IsErrorLine("Errors")
    ensures IsErrorLine("RuntimeException")
  {
    var upper, plural, runtime := "ERROR", "Errors", "RuntimeException";
    assert plural[..5] == "Error";
    assert runtime[7..7 + 9] == "Exception";
    ContainsAt(runtime, "Exception", 7);
    assert upper[..5][1] == 'R';
  }

  /** A log list shared between the reader thread and the page. */
  class LogList {
    var lines: seq<string>

    constructor()
      ensures lines == []
    {
      lines := [];
    }

    /**
     * `add_log`: the message becomes the last line; if that makes the list
     * longer than `MAX_LOG_LINES`, the oldest line is dropped.
     */
    method Add(message: string)
      modifies this
      ensures |lines| > 0 && lines[|lines| - 1] == message
      ensures |lines| == if |old(lines)| >= MAX_LOG_LINES then |old(lines)| else |old(lines)| + 1
      ensures lines[..|lines| - 1] == old(lines)[|old(lines)| + 1 - |lines|..]
      ensures |old(lines)| <= MAX_LOG_LINES ==> |lines| <= MAX_LOG_LINES
    {
      var appended := lines + [message];
      if |appended| > MAX_LOG_LINES {
        appended := appended[1..];
      }
      assert appended[..|appended| - 1] == old(lines)[|old(lines)| + 1 - |appended|..];
      lines := appended;
    }

    /** One non-empty line of `read_process_output`: filed under its prefix, with "ERROR" for an error line. */
    method AddOutputLine(prefix: string, line: string)
      modifies this
      ensures LogEntry(prefix, line).None? ==> lines == old(lines)
      ensures LogEntry(prefix, line).Some? ==>
        && 0 < |lines| <= |old(lines)| + 1 && lines[|lines| - 1] == LogEntry(prefix, line).value
        && lines[..|lines| - 1] == old(lines)[|old(lines)| + 1 - |lines|..]
    {
      var entry := LogEntry(prefix, line);
      if entry.Some? {
        Add(entry.value);
      }
    }
  }
}
