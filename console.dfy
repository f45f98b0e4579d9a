/** The console loop both clients share: read the answer to the path or URL
    prompt, stop on an empty answer or "quit", otherwise act on it and ask
    again.  Other input a pass reads (the GET client's Y/N answer) is not
    among these lines. */
module Console {

  /** The line that ends a client's session.  The test is made on the line
      as read, before any trimming, so a non-empty line with a blank at
      either end does not end it. */
  predicate IsQuit(line: string): (quits: bool)
    ensures line != [] && (line[0] in {' ', '\t'} || line[|line| - 1] in {' ', '\t'}) ==> !quits
  {
    line == [] || line == "quit"
  }

  /** The lines a session acts on: those before the first quitting line. */
  function SessionLines(lines: seq<string>): (acted: seq<string>)
    ensures |acted| <= |lines| && acted == lines[..|acted|]
    ensures forall i :: 0 <= i < |acted| ==> !IsQuit(acted[i])
    ensures |acted| < |lines| ==> IsQuit(lines[|acted|])
  {
    if lines == [] || IsQuit(lines[0]) then [] else [lines[0]] + SessionLines(lines[1..])
  }

  /** A session acts on the lines up to the first quit and never on any line
      after it, whatever those lines are. */
  lemma {:induction false} QuitEndsSession(before: seq<string>, quit: string, after: seq<string>)
    requires forall i :: 0 <= i < |before| ==> !IsQuit(before[i])
    requires IsQuit(quit)
    ensures SessionLines(before + [quit] + after) == before
  {
    if before != [] {
      assert (before + [quit] + after)[1..] == before[1..] + [quit] + after;
      QuitEndsSession(before[1..], quit, after);
    } else {
      assert (before + [quit] + after)[0] == quit;
    }
  }
}
