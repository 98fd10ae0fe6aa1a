/**
 * The persistent privileged shell (RootShell.java): one long-lived `su`
 * process that receives command batches on its standard input and answers on
 * standard output, with a marker line closing every batch; and the file
 * helpers built on top of it.
 *
 * The process itself is abstract: a SuProcess holds the lines its shell will
 * write on standard output, the standard-error lines that are ready, and the
 * bytes written to its standard input.
 */
module RootShell {
  import opened Common
  import opened Text
  import opened ShellWords

  type byte = b: int | 0 <= b < 256

  /** The marker line the shell echoes after every batch. */
  const EndMarker := "--END_OF_COMMAND--"
  const EndMarkerEcho := "echo " + EndMarker
  const NotInitialized := "Root shell not initialized or streams are null."
  const InitFailurePrefix := "Failed to initialize root shell: "
  const BatchFailurePrefix := "Exception in executeCommands: "
  const StderrPrefix := "STDERR: "
  const PermissionDenied := "Permission denied"
  const NoSuchFile := "No such file or directory"
  /** The message of the IOException a closed pipe raises. */
  const StreamClosed := "Stream closed"

  // ---------------------------------------------------------------------------
  // Bytes on the wire.

  /** The UTF-16 code units of one character, as a Java string stores it. */
  function Utf16Units(c: char): seq<int>
  {
    var v := c as int;
    if v < 0x1_0000 then [v]
    else [0xD800 + (v - 0x1_0000) / 0x400, 0xDC00 + (v - 0x1_0000) % 0x400]
  }

  /**
   * `DataOutputStream.writeBytes(s)`: every UTF-16 unit of `s` is sent as one
   * byte, its high eight bits discarded.
   */
  function WireBytes(s: string): seq<byte>
    decreases |s|
  {
    if s == [] then []
    else
      var units := Utf16Units(s[0]);
      seq(|units|, i requires 0 <= i < |units| => units[i] % 256) + WireBytes(s[1..])
  }

  lemma {:induction false} WireBytesConcat(a: string, b: string)
    ensures WireBytes(a + b) == WireBytes(a) + WireBytes(b)
    decreases |a|
  {
    if a != [] {
      assert (a + b)[0] == a[0] && (a + b)[1..] == a[1..] + b;
      WireBytesConcat(a[1..], b);
    } else {
      assert a + b == b;
    }
  }

  /** Text made of 8-bit characters reaches the shell byte for byte. */
  lemma {:induction false} WireBytesLatin1(s: string)
    requires forall i :: 0 <= i < |s| ==> s[i] as int < 256
    ensures |WireBytes(s)| == |s|
    ensures forall i :: 0 <= i < |s| ==> WireBytes(s)[i] == s[i] as int
    decreases |s|
  {
    if s != [] {
      WireBytesLatin1(s[1..]);
      assert WireBytes(s) == [s[0] as int] + WireBytes(s[1..]);
    }
  }

  /** A character beyond 8 bits loses its high bits: `Ā` (U+0100) goes out as byte 0. */
  lemma WireBytesTruncates()
    ensures WireBytes("Ā") == [0]
  {
  }

  /** Text whose every character is below U+0100. */
  predicate Narrow(s: string)
  {
    forall c :: c in s ==> c as int < 256
  }

  /** The text a byte-oriented shell reads: one character per byte. */
  function ByteText(bytes: seq<byte>): (r: string)
    ensures |r| == |bytes| && forall i :: 0 <= i < |bytes| ==> r[i] as int == bytes[i]
  {
    seq(|bytes|, i requires 0 <= i < |bytes| => bytes[i] as char)
  }

  /** The shell reads narrow text exactly as it was written. */
  lemma NarrowArrivesIntact(s: string)
    requires Narrow(s)
    ensures ByteText(WireBytes(s)) == s
  {
    assert forall i :: 0 <= i < |s| ==> s[i] in s;
    WireBytesLatin1(s);
  }

  /**
   * `ħ` (U+0127) goes out as byte 0x27, a single quote: where `'ħ'` was
   * written the shell reads `'''`, an unterminated quotation, and not a word
   * whose value is `ħ`.
   */
  lemma WideCharacterBreaksQuoting()
    ensures WireBytes("ħ") == WireBytes("'")
    ensures ByteText(WireBytes(SingleQuoted("ħ"))) == "'''"
    ensures WordValue("'''") == None
  {
    assert SingleQuoted("ħ") == "'ħ'";
    assert WireBytes("'ħ'") == [0x27, 0x27, 0x27];
  }

  // ---------------------------------------------------------------------------
  // Batch framing.

  /** Lines, each followed by a newline. */
  function LinesText(lines: seq<string>): string
    decreases |lines|
  {
    if lines == [] then "" else lines[0] + "\n" + LinesText(lines[1..])
  }

  /** Everything `executeCommands` writes for one batch: each command on its own line, then the marker echo. */
  function Framed(commands: seq<string>): string
  {
    LinesText(commands + [EndMarkerEcho])
  }

  /**
   * How the shell splits what it reads into lines, at each `\n` (a last line
   * may lack its newline). On output without `\r` it is also how
   * `BufferedReader.readLine` splits what the app reads back.
   */
  function Lines(s: string): seq<string>
    decreases |s|
  {
    if s == [] then []
    else
      var k := IndexOf(s, "\n", 0);
      if k == -1 then [s] else [s[..k]] + Lines(s[k + 1..])
  }

  lemma LinesCons(line: string, rest: string)
    requires '\n' !in line
    ensures Lines(line + "\n" + rest) == [line] + Lines(rest)
  {
    var s := line + "\n" + rest;
    assert "\n" <= s[|line|..];
    forall j | 0 <= j < |line|
      ensures !("\n" <= s[j..])
    {
      assert s[j..][0] == line[j];
    }
    FirstMatch(s, "\n", 0, |line|);
    var k := IndexOf(s, "\n", 0);
    assert s[..k] == line && s[k + 1..] == rest;
  }

  /**
   * When no command holds a newline, the shell reads back exactly the
   * commands, in order, followed by the marker echo.
   */
  lemma {:induction false} FramedLines(commands: seq<string>)
    requires forall i :: 0 <= i < |commands| ==> '\n' !in commands[i]
    ensures Lines(Framed(commands)) == commands + [EndMarkerEcho]
    decreases |commands|
  {
    var all := commands + [EndMarkerEcho];
    assert '\n' !in EndMarkerEcho;
    LinesText0(all);
  }

  lemma {:induction false} LinesText0(lines: seq<string>)
    requires forall i :: 0 <= i < |lines| ==> '\n' !in lines[i]
    ensures Lines(LinesText(lines)) == lines
    decreases |lines|
  {
    if lines != [] {
      LinesText0(lines[1..]);
      LinesCons(lines[0], LinesText(lines[1..]));
    }
  }

  /**
   * The read loop of `executeCommands`: the text of every line up to the
   * first one equal to the marker, and the lines left unread after it.  End
   * of stream before the marker ends the loop with what was read.
   */
  function ReadUntilMarker(lines: seq<string>): (r: (string, seq<string>))
    ensures |r.1| <= |lines| && forall k :: 0 <= k < |r.1| ==> r.1[k] == lines[|lines| - |r.1| + k]
    ensures r.1 != [] ==> EndMarker in lines
    decreases |lines|
  {
    if lines == [] then ("", [])
    else if lines[0] == EndMarker then ("", lines[1..])
    else
      var (text, rest) := ReadUntilMarker(lines[1..]);
      (lines[0] + "\n" + text, rest)
  }

  /** The stderr loop of `executeCommands`: each ready line, prefixed. */
  function StderrText(lines: seq<string>): string
    decreases |lines|
  {
    if lines == [] then "" else StderrPrefix + lines[0] + "\n" + StderrText(lines[1..])
  }

  /** The whole reply to a batch whose writes succeeded. */
  function Response(stdout: seq<string>, stderr: seq<string>): string
  {
    ReadUntilMarker(stdout).0 + StderrText(stderr)
  }

  /**
   * With the first marker at index `k`, the reply is exactly the lines
   * before it and the lines after it stay unread.
   */
  lemma {:induction false} ReadUntilMarkerAt(lines: seq<string>, k: nat)
    requires k < |lines| && lines[k] == EndMarker && EndMarker !in lines[..k]
    ensures ReadUntilMarker(lines) == (LinesText(lines[..k]), lines[k + 1..])
    decreases k
  {
    if k == 0 {
      assert lines[..0] == [];
    } else {
      var tail := lines[1..];
      assert lines[0] != EndMarker by { assert lines[0] in lines[..k]; }
      assert tail[..k - 1] == lines[..k][1..] by { assert tail[..k - 1] == lines[1..k]; }
      assert tail[k - 1] == EndMarker && EndMarker !in tail[..k - 1];
      ReadUntilMarkerAt(tail, k - 1);
      assert tail[k..] == lines[k + 1..];
    }
  }

  /** Without a marker line every line is taken into the reply. */
  lemma {:induction false} ReadUntilMarkerAll(lines: seq<string>)
    requires EndMarker !in lines
    ensures ReadUntilMarker(lines) == (LinesText(lines), [])
    decreases |lines|
  {
    if lines != [] {
      assert lines[0] != EndMarker && EndMarker !in lines[1..];
      ReadUntilMarkerAll(lines[1..]);
    }
  }

  /** Lines after the marker are never part of the reply, whatever they say. */
  lemma MarkerHidesLaterLines(before: seq<string>, after: seq<string>)
    requires EndMarker !in before
    ensures Response(before + [EndMarker] + after, []) == LinesText(before)
    ensures ReadUntilMarker(before + [EndMarker] + after).1 == after
  {
    var lines := before + [EndMarker] + after;
    assert lines[|before|] == EndMarker && lines[..|before|] == before;
    ReadUntilMarkerAt(lines, |before|);
    assert lines[|before| + 1..] == after;
  }

  /** The text of lines with one more line at the end. */
  lemma {:induction false} LinesTextSnoc(lines: seq<string>, line: string)
    ensures LinesText(lines + [line]) == LinesText(lines) + (line + "\n")
    decreases |lines|
  {
    if lines == [] {
      assert lines + [line] == [line];
      assert LinesText([line]) == line + "\n" + LinesText([]);
    } else {
      assert (lines + [line])[0] == lines[0] && (lines + [line])[1..] == lines[1..] + [line];
      LinesTextSnoc(lines[1..], line);
      var tail := LinesText(lines[1..]);
      assert lines[0] + "\n" + (tail + (line + "\n")) == (lines[0] + "\n" + tail) + (line + "\n");
    }
  }

  /** The marker is one line of output. */
  lemma MarkerIsOneLine()
    ensures '\n' !in EndMarker
  {
  }

  /** Newline-free lines and a last newline-free line written out are read back as those lines. */
  lemma GluedLines(before: seq<string>, glued: string)
    requires forall i :: 0 <= i < |before| ==> '\n' !in before[i]
    requires '\n' !in glued
    ensures Lines(LinesText(before) + (glued + "\n")) == before + [glued]
  {
    LinesTextSnoc(before, glued);
    var all := before + [glued];
    assert forall i :: 0 <= i < |all| ==> '\n' !in all[i] by {
      forall i | 0 <= i < |all| ensures '\n' !in all[i] {
        if i < |before| { assert all[i] == before[i]; }
      }
    }
    LinesText0(all);
  }

  /**
   * Output whose last line lacks its newline (`cat` of a file written with
   * `printf '%s'`) runs into the marker the echo prints after it: the shell
   * emits one line holding both, no line equals the marker, and the read
   * loop takes every line without finding it. Stated for output without
   * `\r`, which `readLine` would also take as a line end.
   */
  lemma UnterminatedOutputHidesMarker(before: seq<string>, last: string)
    requires forall i :: 0 <= i < |before| ==> '\n' !in before[i] && '\r' !in before[i] && before[i] != EndMarker
    requires last != [] && '\n' !in last && '\r' !in last
    ensures Lines(LinesText(before) + (last + EndMarker + "\n")) == before + [last + EndMarker]
    ensures EndMarker !in before + [last + EndMarker]
    ensures ReadUntilMarker(before + [last + EndMarker]) == (LinesText(before + [last + EndMarker]), [])
  {
    var glued := last + EndMarker;
    MarkerIsOneLine();
    GluedLines(before, glued);
    assert |glued| > |EndMarker|;
    ReadUntilMarkerAll(before + [glued]);
  }

  /**
   * A read loop that also accepts the marker at the end of a line: the text
   * before it on that line is the last of the reply.
   */
  function ReadUntilMarkerSuffix(lines: seq<string>): (string, seq<string>)
    decreases |lines|
  {
    if lines == [] then ("", [])
    else if EndsWith(lines[0], EndMarker) then (lines[0][..|lines[0]| - |EndMarker|], lines[1..])
    else
      var (text, rest) := ReadUntilMarkerSuffix(lines[1..]);
      (lines[0] + "\n" + text, rest)
  }

  /**
   * With the marker accepted at the end of a line, the reply is exactly the
   * command output, whether or not it ends with a newline, and the lines
   * after the marker stay unread. Stated for output without `\r`, which
   * `readLine` would also take as a line end.
   */
  lemma SuffixReadRecoversOutput(before: seq<string>, last: string, after: seq<string>)
    requires forall i :: 0 <= i < |before| ==> '\n' !in before[i] && '\r' !in before[i] && !EndsWith(before[i], EndMarker)
    requires '\n' !in last && '\r' !in last
    ensures ReadUntilMarkerSuffix(Lines(LinesText(before) + (last + EndMarker + "\n")) + after)
         == (LinesText(before) + last, after)
  {
    var glued := last + EndMarker;
    MarkerIsOneLine();
    GluedLines(before, glued);
    assert glued[..|glued| - |EndMarker|] == last;
    SuffixReadLines(before, glued, after);
  }

  lemma {:induction false} SuffixReadLines(before: seq<string>, glued: string, after: seq<string>)
    requires forall i :: 0 <= i < |before| ==> !EndsWith(before[i], EndMarker)
    requires EndsWith(glued, EndMarker)
    ensures ReadUntilMarkerSuffix(before + [glued] + after)
         == (LinesText(before) + glued[..|glued| - |EndMarker|], after)
    decreases |before|
  {
    var lines := before + [glued] + after;
    var kept := glued[..|glued| - |EndMarker|];
    if before == [] {
      assert lines[0] == glued && lines[1..] == after;
      assert LinesText(before) + kept == kept;
    } else {
      assert lines[0] == before[0] && lines[1..] == before[1..] + [glued] + after;
      SuffixReadLines(before[1..], glued, after);
      var tail := LinesText(before[1..]);
      assert LinesText(before) + kept == before[0] + "\n" + (tail + kept);
    }
  }

  // ---------------------------------------------------------------------------
  // What the file helpers send and how they judge the reply.

  function CatCommand(path: string): string
  {
    "cat " + DoubleQuoted(path)
  }

  /** The batch of `writeFileContent`: write the content, then reset mode and owner. */
  function WriteCommands(path: string, content: string): seq<string>
  {
    [ "printf '%s' " + SingleQuoted(content) + " > " + DoubleQuoted(path),
      "chmod 660 " + DoubleQuoted(path),
      "chown system:system " + DoubleQuoted(path) ]
  }

  function CopyCommand(source: string, dest: string): string
  {
    "cp " + DoubleQuoted(source) + " " + DoubleQuoted(dest)
  }

  /** The error phrases every helper looks for in a reply. */
  predicate MentionsFailure(output: string)
  {
    Contains(output, PermissionDenied) || Contains(output, NoSuchFile)
  }

  /** A reply naming an error, with the phrase anywhere in it. */
  lemma FailureNamedAnywhere(before: string, after: string)
    ensures MentionsFailure(before + PermissionDenied + after)
    ensures MentionsFailure(before + NoSuchFile + after)
  {
    assert StartsAt(before + PermissionDenied + after, PermissionDenied, |before|);
    assert StartsAt(before + NoSuchFile + after, NoSuchFile, |before|);
  }

  /**
   * The verdict of `getFileContent` on a reply: the trimmed text, or nothing
   * exactly when the reply names an error or is all blank.
   */
  function ReadOutcome(output: string): (r: Option<string>)
    ensures r.None? <==> MentionsFailure(output) || forall k :: 0 <= k < |output| ==> Blank(output[k])
    ensures r.Some? ==> r.value != [] && !Blank(r.value[0]) && !Blank(r.value[|r.value| - 1])
    ensures r.Some? ==> r.value == Trim(output)
  {
    if MentionsFailure(output) || Trim(output) == [] then None else Some(Trim(output))
  }

  /**
   * Content `getFileContent` accepts is a non-empty, trimmed piece of the
   * reply and holds neither error phrase.
   */
  lemma ReadContentIsClean(output: string)
    requires ReadOutcome(output).Some?
    ensures var v := ReadOutcome(output).value;
      v != [] && !Blank(v[0]) && !Blank(v[|v| - 1])
      && (exists i, j :: 0 <= i <= j <= |output| && v == output[i..j])
      && !Contains(v, PermissionDenied) && !Contains(v, NoSuchFile)
  {
    var v := ReadOutcome(output).value;
    if Contains(v, PermissionDenied) { ContainsTrim(output, PermissionDenied); }
    if Contains(v, NoSuchFile) { ContainsTrim(output, NoSuchFile); }
  }

  /** The reply `cat` gives for a missing file makes `getFileContent` fail. */
  lemma MissingFileIsNotContent()
    ensures ReadOutcome("cat: /no/such: No such file or directory\n") == None
  {
    var out := "cat: /no/such: No such file or directory\n";
    assert out[15..] == NoSuchFile + "\n";
    assert StartsAt(out, NoSuchFile, 15);
  }

  /**
   * The first command of the write batch is `printf '%s' W1 > W2` where, under
   * shell quote removal, W1 stands for the content exactly and W2 for the
   * path (when the path holds no `"`, `$`, backquote or backslash).
   */
  lemma WriteCommandWords(path: string, content: string)
    requires PlainPath(path)
    ensures exists w1, w2 :: WriteCommands(path, content)[0] == "printf '%s' " + w1 + " > " + w2
                          && WordValue(w1) == Some(content) && WordValue(w2) == Some(path)
    ensures Narrow(content) && Narrow(path) ==>
              ByteText(WireBytes(WriteCommands(path, content)[0])) == WriteCommands(path, content)[0]
  {
    SingleQuotedRoundTrip(content);
    DoubleQuotedRoundTrip(path);
    var w1, w2 := SingleQuoted(content), DoubleQuoted(path);
    assert WriteCommands(path, content)[0] == "printf '%s' " + w1 + " > " + w2;
    if Narrow(content) && Narrow(path) {
      ReplaceChars(content, "'", QuoteEscape);
      NarrowArrivesIntact(WriteCommands(path, content)[0]);
    }
  }

  // ---------------------------------------------------------------------------
  // The process and the session.

  /** The elevated `su` process, seen through its three pipes. */
  class SuProcess {
    /** Lines its shell will still write on standard output, in order. */
    var stdout: seq<string>
    /** Standard-error lines that are ready to be read without blocking. */
    var stderr: seq<string>
    /** Every byte written to its standard input so far. */
    var stdin: seq<byte>
    /** When set, every write raises an IOException with this message. */
    var writeFailure: Option<string>
    var destroyed: bool

    constructor (stdout: seq<string>, stderr: seq<string>, writeFailure: Option<string>)
      ensures this.stdout == stdout && this.stderr == stderr && this.writeFailure == writeFailure
      ensures stdin == [] && !destroyed
    {
      this.stdout := stdout;
      this.stderr := stderr;
      this.writeFailure := writeFailure;
      stdin := [];
      destroyed := false;
    }

    /** `writeBytes(s)`: returns the message of the IOException it raises, if any. */
    method WriteBytes(s: string) returns (failure: Option<string>)
      modifies this`stdin
      ensures failure == writeFailure
      ensures stdin == old(stdin) + (if failure.None? then WireBytes(s) else [])
    {
      failure := writeFailure;
      if failure.None? {
        stdin := stdin + WireBytes(s);
      }
    }

    /** `readLine()` on standard output; None at end of stream. */
    method ReadLine() returns (line: Option<string>)
      modifies this`stdout
      ensures old(stdout) == [] ==> line == None && stdout == []
      ensures old(stdout) != [] ==> line == Some(old(stdout)[0]) && stdout == old(stdout)[1..]
    {
      if stdout == [] {
        line := None;
      } else {
        line := Some(stdout[0]);
        stdout := stdout[1..];
      }
    }

    /** `ready()` on standard error. */
    function StderrReady(): bool
      reads this
    {
      stderr != []
    }

    method ReadStderrLine() returns (line: string)
      requires stderr != []
      modifies this`stderr
      ensures line == old(stderr)[0] && stderr == old(stderr)[1..]
    {
      line := stderr[0];
      stderr := stderr[1..];
    }

    /** Closing standard input: later writes fail. */
    method CloseInput()
      modifies this`writeFailure
      ensures writeFailure == Some(StreamClosed)
    {
      writeFailure := Some(StreamClosed);
    }

    method Destroy()
      modifies this`destroyed
      ensures destroyed
    {
      destroyed := true;
    }
  }

  /**
   * The writing half of `executeCommands`: each command and then the marker
   * echo, each followed by a newline; the first IOException stops the batch.
   */
  method WriteBatch(p: SuProcess, commands: seq<string>) returns (failure: Option<string>)
    modifies p`stdin
    ensures failure == p.writeFailure
    ensures failure.Some? ==> p.stdin == old(p.stdin)
    ensures failure.None? ==> p.stdin == old(p.stdin) + WireBytes(Framed(commands))
  {
    failure := None;
    var i := 0;
    while i < |commands| && failure.None?
      invariant 0 <= i <= |commands|
      invariant p.writeFailure.Some? ==> p.stdin == old(p.stdin) && (if i == 0 then failure.None? else failure == p.writeFailure)
      invariant p.writeFailure.None? ==>
        failure.None? && p.stdin + WireBytes(LinesText(commands[i..] + [EndMarkerEcho]))
                         == old(p.stdin) + WireBytes(Framed(commands))
    {
      failure := p.WriteBytes(commands[i] + "\n");
      if failure.None? {
        FramedStep(commands, i);
      }
      i := i + 1;
    }
    if failure.None? {
      failure := p.WriteBytes(EndMarkerEcho + "\n");
      if failure.None? {
        FramedLast(commands);
      }
    }
  }

  /** The bytes still to write before command `i` are that command's line, then the rest. */
  lemma FramedStep(commands: seq<string>, i: nat)
    requires i < |commands|
    ensures WireBytes(LinesText(commands[i..] + [EndMarkerEcho]))
         == WireBytes(commands[i] + "\n") + WireBytes(LinesText(commands[i + 1..] + [EndMarkerEcho]))
  {
    assert commands[i..] + [EndMarkerEcho] == [commands[i]] + (commands[i + 1..] + [EndMarkerEcho]);
    WireBytesConcat(commands[i] + "\n", LinesText(commands[i + 1..] + [EndMarkerEcho]));
  }

  /** After the last command only the marker echo's line is left to write. */
  lemma FramedLast(commands: seq<string>)
    ensures WireBytes(LinesText(commands[|commands|..] + [EndMarkerEcho])) == WireBytes(EndMarkerEcho + "\n")
  {
    assert commands[|commands|..] + [EndMarkerEcho] == [EndMarkerEcho];
    assert LinesText([EndMarkerEcho]) == EndMarkerEcho + "\n" + "";
    assert EndMarkerEcho + "\n" + "" == EndMarkerEcho + "\n";
  }

  /** The reading half: standard-output lines up to the marker line or the end of the stream. */
  method ReadReply(p: SuProcess) returns (text: string)
    modifies p`stdout
    ensures text == ReadUntilMarker(old(p.stdout)).0
    ensures p.stdout == ReadUntilMarker(old(p.stdout)).1
  {
    text := "";
    while true
      invariant text + ReadUntilMarker(p.stdout).0 == ReadUntilMarker(old(p.stdout)).0
      invariant ReadUntilMarker(p.stdout).1 == ReadUntilMarker(old(p.stdout)).1
      decreases |p.stdout|
    {
      ghost var before := p.stdout;
      var line := p.ReadLine();
      if line.None? || line.value == EndMarker {
        assert ReadUntilMarker(before) == ("", p.stdout);
        break;
      }
      assert ReadUntilMarker(before).0 == line.value + "\n" + ReadUntilMarker(p.stdout).0;
      text := text + line.value + "\n";
    }
  }

  /** The standard-error half: every ready line, prefixed, after the standard-output text. */
  method DrainStderr(p: SuProcess, stdoutText: string) returns (output: string)
    modifies p`stderr
    ensures output == stdoutText + StderrText(old(p.stderr))
    ensures p.stderr == []
  {
    output := stdoutText;
    while p.StderrReady()
      invariant output + StderrText(p.stderr) == stdoutText + StderrText(old(p.stderr))
      decreases |p.stderr|
    {
      var line := p.ReadStderrLine();
      output := output + StderrPrefix + line + "\n";
    }
    assert StderrText([]) == "";
    assert output + "" == output;
  }

  /** What `Runtime.exec(suCommand)` gave: an exception message or a process. */
  datatype Exec = ExecFailed(message: string) | Started(process: SuProcess)

  /** A batch reply passes the `uid=0` check when its first line mentions it. */
  predicate IsRootReply(stdout: seq<string>)
  {
    stdout != [] && Contains(stdout[0], "uid=0")
  }

  /**
   * The static state of RootShell.  `rootProcess` stands for the four
   * handles (process, its input and both outputs), which are always set
   * and cleared together.
   */
  class Shell {
    var rootProcess: SuProcess?
    var lastCommandOutput: string

    constructor ()
      ensures rootProcess == null && lastCommandOutput == ""
    {
      rootProcess := null;
      lastCommandOutput := "";
    }

    /** `getLastCommandOutput()`. */
    function LastCommandOutput(): (r: string)
      reads this
      ensures r == lastCommandOutput
    {
      lastCommandOutput
    }

    /**
     * What one call of `executeCommands(commands)` did, between the state on
     * entry and now, given that it returned `output`.
     */
    twostate predicate BatchRan(commands: seq<string>, output: string)
      reads this, rootProcess
    {
      && rootProcess == old(rootProcess)
      && output == lastCommandOutput
      && if rootProcess == null then output == NotInitialized
         else
           var p := rootProcess;
           && p.writeFailure == old(p.writeFailure) && p.destroyed == old(p.destroyed)
           && match old(p.writeFailure)
              case Some(m) =>
                output == BatchFailurePrefix + m
                && p.stdin == old(p.stdin) && p.stdout == old(p.stdout) && p.stderr == old(p.stderr)
              case None =>
                && p.stdin == old(p.stdin) + WireBytes(Framed(commands))
                && output == Response(old(p.stdout), old(p.stderr))
                && p.stdout == ReadUntilMarker(old(p.stdout)).1
                && p.stderr == []
    }

    /**
     * `initRootShell`: with a session already held, succeeds at once and
     * touches nothing.  Otherwise it starts the process, writes `id`, and
     * keeps the session only when the first reply line contains `uid=0`;
     * any other outcome shuts the session down again.
     */
    method InitRootShell(exec: Exec) returns (ok: bool)
      modifies this, if exec.Started? then {exec.process} else {}
      ensures old(rootProcess) != null ==>
        ok && rootProcess == old(rootProcess) && lastCommandOutput == old(lastCommandOutput)
        && (exec.Started? ==> unchanged(exec.process))
      ensures old(rootProcess) == null && exec.ExecFailed? ==>
        !ok && rootProcess == null && lastCommandOutput == InitFailurePrefix + exec.message
      ensures old(rootProcess) == null && exec.Started? && old(exec.process.writeFailure).Some? ==>
        var p := exec.process;
        !ok && rootProcess == null && p.destroyed
        && lastCommandOutput == InitFailurePrefix + old(p.writeFailure).value
        && p.stdin == old(p.stdin) && p.stdout == old(p.stdout)
        && p.stderr == old(p.stderr) && p.writeFailure == old(p.writeFailure)
      ensures old(rootProcess) == null && exec.Started? && old(exec.process.writeFailure).None? ==>
        var p := exec.process;
        && ok == IsRootReply(old(p.stdout))
        && lastCommandOutput == old(lastCommandOutput)
        && p.stdout == (if old(p.stdout) == [] then [] else old(p.stdout)[1..])
        && p.stderr == old(p.stderr)
        && (ok ==> rootProcess == p && p.destroyed == old(p.destroyed) && p.writeFailure.None?
                   && p.stdin == old(p.stdin) + WireBytes("id\n"))
        && (!ok ==> rootProcess == null && p.destroyed && p.writeFailure == Some(StreamClosed)
                    && p.stdin == old(p.stdin) + WireBytes("id\n") + WireBytes("exit\n"))
    {
      if rootProcess != null {
        return true;
      }
      match exec
      case ExecFailed(message) =>
        lastCommandOutput := InitFailurePrefix + message;
        Shutdown();
        return false;
      case Started(p) =>
        rootProcess := p;
        var failure := p.WriteBytes("id\n");
        if failure.Some? {
          lastCommandOutput := InitFailurePrefix + failure.value;
          Shutdown();
          return false;
        }
        var line := p.ReadLine();
        if line.Some? && Contains(line.value, "uid=0") {
          return true;
        } else {
          Shutdown();
          return false;
        }
    }

    /**
     * `shutdown`: with no session, nothing happens.  Otherwise `exit` is
     * written (when the pipe still takes writes), standard input is closed,
     * the process is destroyed, and in every outcome the session is cleared.
     */
    method Shutdown()
      modifies this`rootProcess, rootProcess
      ensures rootProcess == null
      ensures old(rootProcess) != null ==>
        var p := old(rootProcess);
        p.destroyed && p.stdout == old(p.stdout) && p.stderr == old(p.stderr)
        && (old(p.writeFailure).None? ==>
              p.stdin == old(p.stdin) + WireBytes("exit\n") && p.writeFailure == Some(StreamClosed))
        && (old(p.writeFailure).Some? ==>
              p.stdin == old(p.stdin) && p.writeFailure == old(p.writeFailure))
    {
      if rootProcess != null {
        var p := rootProcess;
        var failure := p.WriteBytes("exit\n");
        if failure.None? {
          // flush and close the input; the two readers are closed with it
          p.CloseInput();
        }
        // waitFor() and its interruption are not modelled; `finally` always runs:
        p.Destroy();
        rootProcess := null;
      }
    }

    /**
     * `executeCommands`: writes every command and the marker echo, reads
     * standard output up to the marker line, then drains the ready
     * standard-error lines.
     */
    method ExecuteCommands(commands: seq<string>) returns (output: string)
      modifies this`lastCommandOutput, rootProcess
      ensures BatchRan(commands, output)
    {
      if rootProcess == null {
        lastCommandOutput := NotInitialized;
        return lastCommandOutput;
      }
      var p := rootProcess;
      var failure := WriteBatch(p, commands);
      if failure.Some? {
        lastCommandOutput := BatchFailurePrefix + failure.value;
        return lastCommandOutput;
      }
      var stdoutText := ReadReply(p);
      output := DrainStderr(p, stdoutText);
      lastCommandOutput := output;
    }

    /** `executeCommand(c)`: the batch holding `c` alone. */
    method ExecuteCommand(command: string) returns (output: string)
      modifies this`lastCommandOutput, rootProcess
      ensures BatchRan([command], output)
    {
      output := ExecuteCommands([command]);
    }

    /**
     * `getFileContent`: `cat` the path; no content when the reply names an
     * error or is blank, else the trimmed reply.  Either way the reply is
     * left in `lastCommandOutput`.
     */
    method GetFileContent(path: string) returns (content: Option<string>)
      modifies this`lastCommandOutput, rootProcess
      ensures BatchRan([CatCommand(path)], lastCommandOutput)
      ensures content == ReadOutcome(lastCommandOutput)
    {
      var result := ExecuteCommand(CatCommand(path));
      if MentionsFailure(result) || Trim(result) == [] {
        lastCommandOutput := result;
        return None;
      }
      return Some(Trim(result));
    }

    /**
     * `writeFileContent`: one batch writes the quoted content with `printf`,
     * then sets mode 660 and owner system:system; it fails exactly when the
     * reply names an error.
     */
    method WriteFileContent(path: string, content: string) returns (ok: bool)
      modifies this`lastCommandOutput, rootProcess
      ensures BatchRan(WriteCommands(path, content), lastCommandOutput)
      ensures ok == !MentionsFailure(lastCommandOutput)
    {
      var result := ExecuteCommands(WriteCommands(path, content));
      if MentionsFailure(result) {
        lastCommandOutput := result;
        return false;
      }
      return true;
    }

    /** `copyFile`: `cp` the source to the destination; fails exactly when the reply names an error. */
    method CopyFile(source: string, dest: string) returns (ok: bool)
      modifies this`lastCommandOutput, rootProcess
      ensures BatchRan([CopyCommand(source, dest)], lastCommandOutput)
      ensures ok == !MentionsFailure(lastCommandOutput)
    {
      var result := ExecuteCommand(CopyCommand(source, dest));
      ok := !MentionsFailure(result);
    }
  }

  /** The reply the scenario's session reads, and what it leaves unread. */
  lemma ScenarioReply()
    ensures Response(["hello", EndMarker, "later"], []) == "hello\n"
    ensures ReadUntilMarker(["hello", EndMarker, "later"]).1 == ["later"]
  {
    MarkerHidesLaterLines(["hello"], ["later"]);
    assert ["hello"] + [EndMarker] + ["later"] == ["hello", EndMarker, "later"];
    assert LinesText(["hello"]) == "hello\n" + "";
  }

  /**
   * A session's life: a peer that answers `id` as root is accepted, a batch
   * returns its output line, and after shutdown batches are refused without
   * any write.  Shutting down twice is harmless.
   */
  method SessionScenario() returns (accepted: bool, reply: string, refused: string)
    ensures accepted && reply == "hello\n" && refused == NotInitialized
  {
    var p := new SuProcess(["uid=0(root) gid=0(root)", "hello", EndMarker, "later"], [], None);
    var shell := new Shell();
    assert p.stdout[0][0..] == p.stdout[0] && StartsAt(p.stdout[0], "uid=0", 0);
    accepted := shell.InitRootShell(Started(p));
    assert accepted && shell.rootProcess == p;
    var again := shell.InitRootShell(ExecFailed("not used"));
    assert again && shell.rootProcess == p;
    assert p.stdout == ["hello", EndMarker, "later"] && p.stderr == [] && p.writeFailure.None?;
    ScenarioReply();
    reply := shell.ExecuteCommand("echo hello");
    assert reply == "hello\n";
    assert p.stdout == ["later"];
    shell.Shutdown();
    assert p.destroyed && shell.rootProcess == null;
    ghost var written := p.stdin;
    shell.Shutdown();
    refused := shell.ExecuteCommand("echo hello");
    assert p.stdin == written;
  }
}
