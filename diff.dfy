/**
 * GitExporter::makeDiff as a whole: the repository check, the choice of the
 * missing parameter, the commit list, the aggregation of the per-commit
 * name-status output, the check of the export directory, the export of the
 * modified paths and the changelog.
 *
 * Everything the tool asks of git, the filesystem and the console is an
 * input (an Environment); everything it does to the filesystem is a
 * Command, in order.
 */
module Diff {
  import opened Util
  import opened Php
  import opened NameStatus
  import Changelog
  import opened Shell
  import opened ExportDirectory
  import opened Exporter

  /** The parameter reported missing. */
  datatype Param = Since | Until

  /** `!empty($params[i]) ? $params[i] : ''`. */
  function ParamAt(params: seq<string>, i: nat): string {
    if i < |params| && !Empty(params[i]) then params[i] else ""
  }

  /**
   * Which parameter makeDiff reports missing, if any: `<since>` when the first
   * parameter is absent or PHP-empty, otherwise `<until>` when the second one
   * is.
   */
  function MissingParameter(params: seq<string>): (r: Option<Param>)
    ensures r == None <==> |params| >= 2 && !Empty(params[0]) && !Empty(params[1])
    ensures r == Some(Since) <==> |params| == 0 || Empty(params[0])
  {
    var since, until := ParamAt(params, 0), ParamAt(params, 1);
    if Empty(since) || Empty(until) then Some(if Empty(since) then Since else Until)
    else None
  }

  /** What the environment answers, fixed for one run. */
  datatype Environment = Environment(
    cwd: string,                         // getcwd()
    statusOutput: seq<string>,           // output of `git status`
    logOutput: seq<string>,              // output of `git log <since>..<until> -m --pretty=format:%H`
    show: string -> seq<string>,         // output of `git show <commit> --name-status --pretty=format:`
    exportPresent: bool,                 // is_readable(<export root>) before the run
    answer: string,                      // the line read from standard input
    presentAfterRemoval: bool)           // is_readable(<export root>) after `rm -rf`

  /** How a run of makeDiff ends. */
  datatype Outcome =
    | NoRepository
    | MissingParam(which: Param)
    | LogFailed(error: string)
    | DirectoryKept
    | DirectoryNotRemoved
    | Exported(commits: nat, modified: seq<string>, deleted: seq<string>)

  /** The name-status output of each commit, in commit order. */
  function Outputs(show: string -> seq<string>, commits: seq<string>): (r: seq<seq<string>>)
    ensures |r| == |commits|
    ensures forall i :: 0 <= i < |r| ==> r[i] == show(commits[i])
  {
    seq(|commits|, i requires 0 <= i < |commits| => show(commits[i]))
  }

  /** `<export root>/_changelog.txt`. */
  function ChangelogPath(root: string): string {
    root + "/" + "_changelog.txt"
  }

  /** The commands of a successful run after the directory check. */
  function ExportCommands(root: string, since: string, until: string, commits: nat,
                          modified: seq<string>, deleted: seq<string>): seq<Command>
  {
    [MakeDirectory(root)] + ExportRun(root, until, modified)
      + [WriteFile(ChangelogPath(root), Changelog.Text(since, until, commits, modified, deleted))]
  }

  /**
   * The checks before any work, in the tool's order: the repository first,
   * then the parameters, then the commit list.
   */
  function Precheck(params: seq<string>, env: Environment): (r: Option<Outcome>)
    // the run goes on iff all three checks pass
    ensures r.None? <==>
      IsRepository(env.statusOutput) && MissingParameter(params).None? && CommandError(env.logOutput).None?
    // a failure is one of the three check outcomes
    ensures r.Some? ==> r.value.NoRepository? || r.value.MissingParam? || r.value.LogFailed?
    // the repository check comes first
    ensures r == Some(NoRepository) <==> !IsRepository(env.statusOutput)
    // a missing parameter is reported only in a repository
    ensures r.Some? && r.value.MissingParam? ==>
      IsRepository(env.statusOutput) && MissingParameter(params) == Some(r.value.which)
    // a log failure is reported only when both earlier checks passed
    ensures r.Some? && r.value.LogFailed? ==>
      IsRepository(env.statusOutput) && MissingParameter(params).None? &&
      CommandError(env.logOutput) == Some(r.value.error)
  {
    if !IsRepository(env.statusOutput) then Some(NoRepository)
    else if MissingParameter(params).Some? then Some(MissingParam(MissingParameter(params).value))
    else if CommandError(env.logOutput).Some? then Some(LogFailed(CommandError(env.logOutput).value))
    else None
  }

  /** `makeDiff()`, given the parameters after the command. */
  method MakeDiff(params: seq<string>, env: Environment) returns (outcome: Outcome, commands: seq<Command>)
    ensures Precheck(params, env).Some? ==> outcome == Precheck(params, env).value && commands == []
    ensures Precheck(params, env).None? ==> |params| >= 2
    ensures Precheck(params, env).None? ==>
      var c := Classify(Flatten(Outputs(env.show, env.logOutput)));
      (outcome, commands) == Finish(ExportPath(env.cwd),
        CheckExportDirectory(env.exportPresent, env.answer, env.presentAfterRemoval),
        params[0], params[1], |env.logOutput|, c.modified, c.deleted)
  {
    var since := ParamAt(params, 0);
    var until := ParamAt(params, 1);
    commands := [];
    if !IsRepository(env.statusOutput) {
      return NoRepository, commands;
    }
    if Empty(since) || Empty(until) {
      return MissingParam(if Empty(since) then Since else Until), commands;
    }
    var commits := env.logOutput;
    var error := CommandError(commits);
    if error.Some? {
      return LogFailed(error.value), commands;
    }
    var outputs := Outputs(env.show, commits);
    var modified, deleted := Aggregate(outputs);
    var root := ExportPath(env.cwd);
    var check := CheckExportDirectory(env.exportPresent, env.answer, env.presentAfterRemoval);
    // `rm -rf` runs once the user has confirmed, whatever its result
    commands := if RemovalRuns(check) then [RemoveTree(root)] else [];
    if check == Declined {
      return DirectoryKept, commands;
    }
    if check == StillPresent {
      return DirectoryNotRemoved, commands;
    }
    var exports := ExportFiles(root, until, modified);
    var text := Changelog.Text(since, until, |commits|, modified, deleted);
    commands := commands + ([MakeDirectory(root)] + exports + [WriteFile(ChangelogPath(root), text)]);
    outcome := Exported(|commits|, modified, deleted);
  }

  /**
   * After the directory check: a declined or failed removal ends the run;
   * otherwise the export root is created, the modified paths exported and
   * the changelog written.
   */
  function Finish(root: string, check: DirectoryCheck, since: string, until: string, commits: nat,
                  modified: seq<string>, deleted: seq<string>): (Outcome, seq<Command>)
  {
    var removal := if RemovalRuns(check) then [RemoveTree(root)] else [];
    if check == Declined then (DirectoryKept, removal)
    else if check == StillPresent then (DirectoryNotRemoved, removal)
    else (Exported(commits, modified, deleted), removal + ExportCommands(root, since, until, commits, modified, deleted))
  }

  /**
   * The directory check decides: a declined answer touches nothing, a
   * removal that leaves the directory behind stops after `rm -rf`, and
   * otherwise the export runs, after the removal when there was one.
   */
  lemma FinishCases(root: string, present: bool, answer: string, presentAfterRemoval: bool,
                    since: string, until: string, commits: nat, modified: seq<string>, deleted: seq<string>)
    ensures var r := Finish(root, CheckExportDirectory(present, answer, presentAfterRemoval),
                            since, until, commits, modified, deleted);
      && (present && !ConfirmsDeletion(answer) ==> r == (DirectoryKept, []))
      && (present && ConfirmsDeletion(answer) && presentAfterRemoval ==> r == (DirectoryNotRemoved, [RemoveTree(root)]))
      && (!present ==> r == (Exported(commits, modified, deleted), ExportCommands(root, since, until, commits, modified, deleted)))
      && (present && ConfirmsDeletion(answer) && !presentAfterRemoval ==>
            r == (Exported(commits, modified, deleted), [RemoveTree(root)] + ExportCommands(root, since, until, commits, modified, deleted)))
  {
    assert [] + ExportCommands(root, since, until, commits, modified, deleted)
      == ExportCommands(root, since, until, commits, modified, deleted);
  }

  /** A successful run creates the export root first and writes the changelog last. */
  lemma ExportCommandsEnds(root: string, since: string, until: string, commits: nat,
                           modified: seq<string>, deleted: seq<string>)
    ensures var cs := ExportCommands(root, since, until, commits, modified, deleted);
      && cs[0] == MakeDirectory(root)
      && cs[|cs| - 1] == WriteFile(ChangelogPath(root), Changelog.Text(since, until, commits, modified, deleted))
      && cs[1..|cs| - 1] == ExportRun(root, until, modified)
  {
  }

  /**
   * A successful run exports every modified path once, in order, from
   * `<until>`; it creates each directory under the export root before the
   * files in it.
   */
  lemma ExportedFiles(root: string, since: string, until: string, commits: nat,
                      modified: seq<string>, deleted: seq<string>)
    ensures var cs := ExportCommands(root, since, until, commits, modified, deleted);
      && Exports(cs) == Expected(root, until, modified)
      && ExportsAfterDirectories(root, cs[1..|cs| - 1])
      && CreatesUnder(root, cs[1..|cs| - 1])
  {
    var run := ExportRun(root, until, modified);
    var last := [WriteFile(ChangelogPath(root), Changelog.Text(since, until, commits, modified, deleted))];
    ExportCommandsEnds(root, since, until, commits, modified, deleted);
    ExportsAreTheFiles(root, until, modified);
    DirectoryBeforeFile(root, until, modified);
    DirectoriesUnderRoot(root, until, modified);
    ExportsAppend([MakeDirectory(root)], run);
    ExportsAppend([MakeDirectory(root)] + run, last);
    assert Exports([MakeDirectory(root)]) == Exports([]) + [];
    assert Exports(last) == Exports([]) + [];
  }

  /** No deleted path is ever exported: every exported path is a modified one. */
  lemma NoDeletedPathExported(root: string, since: string, until: string, commits: nat,
                              modified: seq<string>, deleted: seq<string>)
    requires WellFormed(Classification(modified, deleted))
    ensures var cs := ExportCommands(root, since, until, commits, modified, deleted);
      forall i :: 0 <= i < |cs| && cs[i].ExportFile? ==> cs[i].file in modified && cs[i].file !in deleted
  {
    var cs := ExportCommands(root, since, until, commits, modified, deleted);
    ExportedFiles(root, since, until, commits, modified, deleted);
    forall i | 0 <= i < |cs| && cs[i].ExportFile?
      ensures cs[i].file in modified && cs[i].file !in deleted
    {
      ExportInExports(cs, i);
      var k := ExportIndex(cs, i);
      assert cs[i] == Exports(cs)[k];
      assert cs[i].file == modified[k];
    }
  }

  /** The position among the exports of a command that is an export. */
  function ExportIndex(cs: seq<Command>, i: nat): nat
    requires i < |cs|
  {
    |Exports(cs[..i])|
  }

  lemma ExportInExports(cs: seq<Command>, i: nat)
    requires i < |cs| && cs[i].ExportFile?
    ensures ExportIndex(cs, i) < |Exports(cs)| && Exports(cs)[ExportIndex(cs, i)] == cs[i]
  {
    assert cs == cs[..i] + [cs[i]] + cs[i + 1..];
    ExportsAppend(cs[..i] + [cs[i]], cs[i + 1..]);
    ExportsAppend(cs[..i], [cs[i]]);
    assert Exports([cs[i]]) == Exports([]) + [cs[i]];
  }
}
