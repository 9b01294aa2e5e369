/** Splitting text into lines, and the inverse: printing lines with a line feed after each. */
module LineText {
  import opened Seqs
  import opened Text

  function StripCarriageReturn(line: string): string {
    if line != "" && line[|line| - 1] == '\r' then line[..|line| - 1] else line
  }

  /** `str::lines`: a carriage return is dropped only in front of a line feed. */
  function Lines(s: string): seq<string> {
    if s == "" then []
    else
      var i := IndexOf(s, '\n');
      if i < |s| then [StripCarriageReturn(s[..i])] + Lines(s[i + 1..]) else [s]
  }

  function Terminated(lines: seq<string>): string {
    if lines == [] then "" else lines[0] + ['\n'] + Terminated(lines[1..])
  }

  lemma {:induction false} TerminatedAppend(lines: seq<string>, last: string)
    ensures Terminated(lines + [last]) == Terminated(lines) + last + ['\n']
  {
    if lines != [] {
      TerminatedAppend(lines[1..], last);
      assert (lines + [last])[1..] == lines[1..] + [last];
    } else {
      assert [last][1..] == [];
    }
  }

  /** A line that the splitter gives back unchanged when a line feed follows it. */
  predicate WholeLine(line: string) {
    '\n' !in line && (line == "" || line[|line| - 1] != '\r')
  }

  lemma LineFeed(line: string, rest: string)
    requires '\n' !in line
    ensures Lines(line + ['\n'] + rest) == [StripCarriageReturn(line)] + Lines(rest)
  {
    var s := line + ['\n'] + rest;
    SplitOnceAt(line, '\n', rest);
    assert IndexOf(s, '\n') == |line|;
    assert s[..|line|] == line && s[|line| + 1..] == rest;
  }

  lemma FirstLine(line: string, rest: string)
    requires WholeLine(line)
    ensures Lines(line + ['\n'] + rest) == [line] + Lines(rest)
  {
    LineFeed(line, rest);
  }

  /** A line ends at a line feed or at the end of the text; one carriage return in front of a line feed belongs to the
      ending, and any other belongs to the line. */
  lemma LineEndings(line: string, rest: string)
    requires '\n' !in line
    ensures Lines(line + "\r\n" + rest) == [line] + Lines(rest)
    ensures (line == "" || line[|line| - 1] != '\r') ==> Lines(line + "\n" + rest) == [line] + Lines(rest)
    ensures Lines(line) == if line == "" then [] else [line]
  {
    assert line + "\r\n" + rest == line + ['\r'] + ['\n'] + rest;
    LineFeed(line + ['\r'], rest);
    LineFeed(line, rest);
  }

  lemma TerminatedSplits(lines: seq<string>, rest: string)
    requires lines != []
    ensures Terminated(lines) + rest == lines[0] + ['\n'] + (Terminated(lines[1..]) + rest)
  {
  }

  /** Printed lines are split again into the same lines, whatever follows them. */
  lemma {:induction false} LinesOfTerminated(lines: seq<string>, rest: string)
    requires forall i :: 0 <= i < |lines| ==> WholeLine(lines[i])
    ensures Lines(Terminated(lines) + rest) == lines + Lines(rest)
  {
    if lines == [] {
      assert Terminated(lines) + rest == rest;
    } else {
      TerminatedSplits(lines, rest);
      LinesOfTerminated(lines[1..], rest);
      FirstLine(lines[0], Terminated(lines[1..]) + rest);
      HeadOfConcat(lines, Lines(rest));
    }
  }
}
