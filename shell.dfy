/**
 * The error report of GitExporter::executeCommand. The command's output
 * lines (standard error merged into standard output) are joined with
 * "\r\n"; when the joined text contains "fatal:", the error is the first
 * output line with every "fatal: " removed, or "" when that line is
 * PHP-empty; otherwise there is no error. Running the command is outside
 * the model: its output lines are the input.
 */
module Shell {
  import opened Util
  import opened Php

  /** `$output` joined as the tool joins it. */
  function Joined(output: seq<string>): string {
    Implode(CrLf, output)
  }

  /** The `error` entry of executeCommand's result; None stands for `false`. */
  function CommandError(output: seq<string>): (r: Option<string>)
    ensures r.Some? && |output| > 0 ==> |r.value| <= |output[0]|
  {
    if Contains(Joined(output), "fatal:") then
      // `$output[0]` of an empty output is null, which PHP counts as empty
      Some(if |output| > 0 && !Empty(output[0]) then RemoveAll(output[0], "fatal: ") else "")
    else None
  }

  /** There is an error exactly when some output line contains "fatal:". */
  lemma ErrorIffFatalLine(output: seq<string>)
    ensures CommandError(output).Some? <==>
      exists i :: 0 <= i < |output| && Contains(output[i], "fatal:")
  {
    ContainsImplodeLines(output, "fatal:");
  }

  /** A first line `fatal: <message>` reports the message. */
  lemma FatalFirstLine(message: string, rest: seq<string>)
    requires !Contains(message, "fatal: ")
    ensures CommandError(["fatal: " + message] + rest) == Some(message)
  {
    var output := ["fatal: " + message] + rest;
    var line := output[0];
    assert OccursAt(line, "fatal:", 0);
    ContainsImplodeLines(output, "fatal:");
    assert line[..|"fatal: "|] == "fatal: " && line[|"fatal: "|..] == message;
    assert RemoveAll(line, "fatal: ") == message;
  }

  /**
   * The report always comes from the first line: when a warning precedes
   * the fatal line, the warning is reported (unchanged, as it holds no
   * "fatal: ").
   */
  lemma ErrorFromFirstLine(output: seq<string>, i: nat)
    requires 0 < i < |output| && Contains(output[i], "fatal:")
    requires !Empty(output[0]) && !Contains(output[0], "fatal: ")
    ensures CommandError(output) == Some(output[0])
  {
    ErrorIffFatalLine(output);
  }

  /**
   * A PHP-empty first line ("" or "0") reports the empty error whenever some
   * line holds "fatal:".
   */
  lemma ErrorFromEmptyFirstLine(output: seq<string>, i: nat)
    requires |output| > 0 && Empty(output[0])
    requires i < |output| && Contains(output[i], "fatal:")
    ensures CommandError(output) == Some("")
  {
    ErrorIffFatalLine(output);
  }

  /** Output without "fatal:" anywhere is a success, whatever else it says. */
  lemma NoFatalNoError(output: seq<string>)
    requires forall i :: 0 <= i < |output| ==> !Contains(output[i], "fatal:")
    ensures CommandError(output) == None
  {
    ErrorIffFatalLine(output);
  }

  /** GitExporter::isRepository: `git status` reports no error. */
  predicate IsRepository(statusOutput: seq<string>) {
    CommandError(statusOutput).None?
  }
}
