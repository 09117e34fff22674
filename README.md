# GitExporter, modelled in Dafny

GitExporter is a command-line PHP tool. Run as `<program> diff <since> <until>`, it does the following:

1. It checks that the working directory is a git repository.
2. It lists the commits between the two references.
3. It reads each commit's `--name-status` output and builds two ordered path lists: modified paths (status A or M) and deleted paths (status D). The first counted line that mentions a path decides its list.
4. If a previous `.export` directory exists, it asks the user whether to remove it.
5. It exports every modified path, as it is at `<until>`, into `.export`. When the path's directory has not been created by this run yet, a `mkdir` is first issued for every prefix of its dirname, parent to child, including prefixes that already exist.
6. It writes `_changelog.txt`, which holds the counts and both lists.

This project models that core:

- argument parsing and the choice of action;
- the parameter and repository checks;
- the error report of a shell command;
- the name-status parsing and the first-wins aggregation;
- the deletion confirmation;
- the directory and export commands, in order;
- the changelog text.

Every question the tool asks git, the filesystem or the console is an input (`Diff.Environment`). The one exception is the `is_dir` probe of the export loop, which is worked out from the commands already issued (see the `Exporter.IsDirectory` line under "## Left out"). Every change the tool makes to the filesystem is an `Exporter.Command` value, in the order the tool issues it.

Modules:

- `Php`: the PHP builtins the tool relies on, with their edge cases:
  - `empty("0")` is true;
  - `explode` and `implode`;
  - `str_replace` removing occurrences left to right;
  - `trim`, ASCII `strtolower`, and integer-to-text conversion.
- `NameStatus`: one name-status line, and the aggregation loop.
- `Changelog`: the eleven entries of `_changelog.txt`.
- `CommandLine`: `parseCommandLineParameters` and the dispatch in `exec`.
- `Shell`: the error report of `executeCommand`, and `isRepository`.
- `ExportDirectory`: `checkExportDirectory`.
- `Exporter`: the export root, the directory loop and the export loop.
- `Diff`: `makeDiff` from start to end.

## Model

| member | source | states |
|---|---|---|
| NameStatus.MatchesStatusPattern | GitExporter.php:115 | `preg_match('/^[AMD]{1}$/', …)`: exactly one of the letters A, M, D, optionally followed by one final line feed, which PCRE's `$` accepts. |
| NameStatus.ParseLine | GitExporter.php:114-117 | A line is counted only if its first tab field is exactly one letter A, M or D and its second field is non-empty (in PHP's sense) and holds no tab. The status and path come from those two fields. |
| NameStatus.ParseCountedLine | GitExporter.php:114-124 | Converse of ParseLine: a status letter, a tab and a non-empty tab-free path is counted with that status and path. |
| NameStatus.ParseCountedLineWithTail | GitExporter.php:114-116 | Fields after the second do not matter: the line is counted as if they were absent. |
| NameStatus.IgnoredWithoutTab | GitExporter.php:116 | A line without a tab has no path and is ignored. |
| NameStatus.IgnoredStatus | GitExporter.php:115 | A status field that is not exactly "A", "M" or "D" makes the line ignored. |
| NameStatus.IgnoredZeroPath | GitExporter.php:116-121 | The path "0" counts as empty, so the line is ignored. |
| NameStatus.IgnoredRenameAndCopy | GitExporter.php:115 | Rename and copy lines (`R<score>`, `C<score>`) are never counted. |
| NameStatus.IgnoredLineFeedStatus | GitExporter.php:115-121 | "D" followed by a line feed matches `/^[AMD]{1}$/`, but it equals neither letter, so such a line would be ignored. This is a property of the pattern only: `exec` splits its output at line feeds, so no line the loop reads holds one. |
| NameStatus.IgnoredShortLines | GitExporter.php:114-117 | A blank line, a bare status, and a line whose path is "0" are ignored. |
| NameStatus.Record | GitExporter.php:117-124 | One counted line keeps the lists duplicate-free and disjoint, only appends to them, and leaves its path classified. Paths are compared as text (see "## Findings"). |
| NameStatus.Step | GitExporter.php:114-124 | One output line: a counted line is recorded, any other line changes nothing. |
| NameStatus.RecordAsWritten | GitExporter.php:117-124 | The guards as written, with the non-strict `in_array` followed for paths that are runs of digits: the lists only grow by appending, and a path already listed as it is changes nothing. |
| NameStatus.LooseEquals | GitExporter.php:117-121 | PHP's `==` between two paths, followed only where both paths are runs of digits: then they are equal iff their decimal values are. Any other pair is compared as text. |
| NameStatus.LooseIn | GitExporter.php:117-121 | `in_array($path, $list)` without the strict flag: some element of the list is LooseEquals to the path. |
| NameStatus.LooseComparisonDropsPath | GitExporter.php:117-124 | For two digit paths with the same value (such as "1" and "01"), both lines are counted. As written, only the first path is kept. Record keeps both. |
| NameStatus.OneAndZeroOne | GitExporter.php:117-121 | "1" and "01" are two different texts with the same numeric value. |
| NameStatus.Classify | GitExporter.php:107-126 | After any sequence of lines, the two lists are duplicate-free and disjoint. |
| NameStatus.Aggregate | GitExporter.php:107-126 | The nested loop over commits and lines yields exactly the classification of all lines in commit order. The two lists are duplicate-free and disjoint. |
| NameStatus.ClassifyFirstWins | GitExporter.php:117-124 | A path is modified iff the first counted line mentioning it has status A or M. It is deleted iff that line has status D. |
| NameStatus.RecordFirstWins | GitExporter.php:117-124 | One counted line keeps every path's list equal to the status of the first change that mentions it. |
| NameStatus.ClassifyGrows | GitExporter.php:119-123 | The lists only grow by appending: the lists after some lines are prefixes of the lists after more lines. |
| NameStatus.LaterLinesChangeNothing | GitExporter.php:117-121 | Later lines never move a classified path to the other list or drop it. |
| NameStatus.CommitOrderDecides | GitExporter.php:109-124 | For two commits touching one path, the earlier commit decides its list. |
| NameStatus.ClassifyInFirstSeenOrder | GitExporter.php:107-126 | Each list holds its paths in order of first mention: the paths whose first counted status is A/M, or D, respectively. |
| NameStatus.FirstKindSnoc | GitExporter.php:117-121 | A line after a path's first mention does not change that path's deciding status. |
| NameStatus.DistinctSnoc | GitExporter.php:117-123 | Only a line whose path is new extends the first-mention sequence. |
| Changelog.Text | GitExporter.php:162-175 | The file opens with `Diff from "<since>" to "<until>"` and "\r\n". It closes with "\r\n", a separator, "\r\n", "Deleted files:", "\r\n" and the deleted paths joined by "\r\n". |
| Changelog.Entries | GitExporter.php:162-174 | The changelog has eleven entries. |
| Changelog.Counts | GitExporter.php:162-168 | Counting from 0, entries 1, 5 and 8 are the separator of forty '-' characters, and entries 2 to 4 begin with decimal numerals (no leading zero) whose values are the commit count, the modified count and the deleted count. |
| Changelog.ChangelogLines | GitExporter.php:162-175 | The file text, line by line joined with "\r\n": the header, every modified path in order, a separator, "Deleted files:", and every deleted path in order. An empty list leaves one empty line. |
| Changelog.ImplodeLast | GitExporter.php:170-175 | For a non-empty list of earlier entries and a non-empty path list, an imploded path list as the last entry is the same as the paths as separate entries. |
| Changelog.SeparatorShape | GitExporter.php:30 | The separator is forty '-' characters. |
| CommandLine.Absorb | GitExporter.php:223-236 | One argument: an option sets its name's value; otherwise it becomes the command while the command is PHP-empty, or else it is appended to the parameters. |
| CommandLine.Parse | GitExporter.php:220-238 | The arguments after the program name, absorbed left to right from an empty input. |
| CommandLine.ParseCommandLineParameters | GitExporter.php:217-239 | The loop drops the program name and absorbs each remaining argument in order. |
| CommandLine.IsOption | GitExporter.php:223 | `strpos($value, '--') === 0`: the argument starts with "--". |
| CommandLine.OptionOf | GitExporter.php:225-227 | With every "--" removed from the argument, the option name holds no '='. Name, '=' and value glue back to that text. Without an '=', the text is the name and the value is empty. |
| CommandLine.OptionValue | GitExporter.php:225-227 | `--name=value` gives that name and value, so `--k=v1=v2` gives `v1=v2`. |
| CommandLine.OptionFlag | GitExporter.php:225-227 | `--name` gives that name and an empty value. |
| CommandLine.ParsePositionals | GitExporter.php:229-236 | The command is the first non-option argument that is not PHP-empty. The parameters are the non-option arguments after it, in order. If every non-option argument is empty, the last one is the command and there are no parameters. |
| CommandLine.ParseOptions | GitExporter.php:223-228 | An option is set iff some argument names it, and the last such argument gives its value. |
| CommandLine.Dispatch | GitExporter.php:39-54 | Help is shown iff a `help` option is present. A diff is made iff no help is asked for and the command is "diff". |
| CommandLine.HelpWins | GitExporter.php:39-42 | A `--help` argument anywhere shows the help. |
| CommandLine.DiffInvocation | GitExporter.php:47-49 | `<program> diff <since> <until>` makes a diff with the parameters `[since, until]`. |
| Shell.CommandError | GitExporter.php:258-263 | The reported error is never longer than the first output line. |
| Shell.ErrorIffFatalLine | GitExporter.php:259-261 | There is an error iff some output line contains "fatal:". |
| Shell.FatalFirstLine | GitExporter.php:261 | A first line `fatal: <message>` reports the message. |
| Shell.ErrorFromFirstLine | GitExporter.php:261 | The report always comes from the first line, even when the "fatal:" line is a later one. |
| Shell.ErrorFromEmptyFirstLine | GitExporter.php:261 | A PHP-empty first line ("" or "0") reports the error "" whenever some line contains "fatal:". |
| Shell.IsRepository | GitExporter.php:245-249 | The directory is a repository iff `git status` reports no error. |
| Shell.NoFatalNoError | GitExporter.php:259-261 | Output without "fatal:" is a success. |
| ExportDirectory.ConfirmsDeletion | GitExporter.php:191-192 | The answer confirms iff, trimmed and lower-cased, it is "y" or "yes". |
| ExportDirectory.ConfirmsDeletionIff | GitExporter.php:191-192 | The removal is confirmed iff the trimmed answer is "y" or "yes" in any mix of cases. |
| ExportDirectory.ConfirmsDeletionPadded | GitExporter.php:191 | Blanks around the answer (the line feed kept by `fgets`, spaces, tabs) do not matter. |
| ExportDirectory.CheckExportDirectory | GitExporter.php:185-210 | An absent directory is not touched. An unconfirmed answer keeps the directory. The export goes on iff the directory was absent, or it was confirmed, removed and is gone. `rm -rf` runs iff the user confirmed. |
| Exporter.TrimTrailingSlashes | GitExporter.php:29 | `rtrim(…, '/')` gives a prefix with no trailing '/', and only '/' characters are dropped. |
| Exporter.ExportPathIgnoresTrailingSlashes | GitExporter.php:29 | Trailing slashes of the working directory do not change the export root. |
| Exporter.ExportPathAtRoot | GitExporter.php:29 | From the filesystem root, the export root is "/.export". |
| Exporter.ExportPath | GitExporter.php:29 | The export root is the working directory without its trailing slashes, then "/.export". |
| Exporter.DirName | GitExporter.php:140 | A path without '/' lies in ".". Otherwise the dirname is the text before the last '/'. |
| Exporter.IsDirectory | GitExporter.php:141 | `is_dir(<root>/<dirname>)` holds iff the dirname is "." or this run already issued `mkdir` for that directory. |
| Exporter.DirNameOfJoin | GitExporter.php:140 | The dirname of `dir/name` is `dir`. The dirname of a bare name is ".". |
| Exporter.DirectoryChain | GitExporter.php:143-151 | The loop builds one directory per component of the dirname. |
| Exporter.ChainShape | GitExporter.php:143-151 | The chain has one directory per component, at least one. The first is the first component under the root. Each next one extends the previous by one component. The last is the whole dirname. |
| Exporter.ChainUnderRoot | GitExporter.php:144-150 | Every directory of a chain lies under the export root. |
| Exporter.ExportRun | GitExporter.php:138-158 | The commands for the modified paths, in order. For each path whose directory this run has not created yet (and is not "."), a `mkdir` for every prefix of its dirname, parent to child, re-issuing those that already exist. Then its export. |
| Exporter.ExportFiles | GitExporter.php:138-158 | The export loop issues exactly ExportRun: per modified path whose directory this run has not created yet, a `mkdir` for every prefix of its dirname, parent to child (re-issuing those that already exist), then its export. |
| Exporter.ExportsAreTheFiles | GitExporter.php:138-154 | The exports of the run are exactly the modified paths, in order. Each comes from the given revision and goes to the same relative place under the root. |
| Exporter.DirectoryForFile | GitExporter.php:141-153 | After a path's directories are created, its directory exists. |
| Exporter.DirectoryBeforeFile | GitExporter.php:141-154 | Every export comes after its directory exists. |
| Exporter.DirectoriesUnderRoot | GitExporter.php:141-151 | Every directory the run creates lies under the export root. |
| Diff.ParamAt | GitExporter.php:82-83 | `!empty($params[i]) ? $params[i] : ''`: the i-th parameter when it exists and is not PHP-empty, otherwise "". |
| Diff.MissingParameter | GitExporter.php:82-91 | Nothing is missing iff both parameters exist and are not PHP-empty. `<since>` is reported iff the first parameter is absent or empty. |
| Diff.Precheck | GitExporter.php:84-103 | The run goes on iff the directory is a repository, no parameter is missing and `git log` reports no error. A failure is one of those three outcomes. Outside a repository the outcome is always NoRepository. A missing parameter is reported only inside a repository, and a log error only when both earlier checks passed. |
| Diff.MakeDiff | GitExporter.php:79-179 | A failed check ends the run with that outcome and no filesystem change. Otherwise the outcome and commands follow from the aggregation of all commits' outputs and the directory check. |
| Diff.Finish | GitExporter.php:130-175 | After the directory check: a declined or failed removal ends the run; otherwise the export root is created, the modified paths exported and the changelog written. |
| Diff.FinishCases | GitExporter.php:130-136 | A declined answer changes nothing. A removal that fails stops after `rm -rf`. Otherwise the export runs, after the removal if there was one. |
| Diff.ExportCommandsEnds | GitExporter.php:136-175 | A successful run creates the export root first and writes `_changelog.txt` last. The export loop's commands come in between. |
| Diff.ExportedFiles | GitExporter.php:136-175 | A successful run exports every modified path once, in order, from `<until>`. Each directory under the root is created before the files in it. |
| Diff.NoDeletedPathExported | GitExporter.php:117-154 | No deleted path is ever exported. |
| Php.Empty | GitExporter.php:82-83 | PHP's `empty()` on a string: true exactly for "" and "0". |
| Php.Implode | GitExporter.php:259 | `implode($glue, $pieces)`: the pieces in order with the glue between neighbours, "" for no pieces. The same builtin joins the lists and the entries of the changelog at lines 170, 175 and 173. |
| Php.Explode | GitExporter.php:114 | `explode` with a one-character delimiter: at least one piece, no piece holds the delimiter, and the pieces glued back give the text. |
| Php.ExplodeImplode | GitExporter.php:143 | `explode` undoes `implode` on delimiter-free pieces. |
| Php.ImplodeInjective | GitExporter.php:114 | Imploding delimiter-free pieces loses nothing, so Explode's contract fixes its result. |
| Php.RemoveDoubleDash | GitExporter.php:225 | `str_replace('--', '', …)` leaves no "--" behind. |
| Php.RemoveAll | GitExporter.php:225 | `str_replace` never lengthens a text, and a text without the needle is unchanged. |
| Php.Contains | GitExporter.php:261 | `strpos($s, $n) !== false`: `n` occurs in `s` at some index. |
| Php.ContainsImplodeLines | GitExporter.php:259-261 | A text without line breaks occurs in lines joined by "\r\n" iff it occurs in one line. |
| Php.Trim | GitExporter.php:191 | `trim` with its default characters: TrimLeft then TrimRight, whose contracts say the result starts and ends with no blank and only blanks at the ends are dropped. |
| Php.TrimPadded | GitExporter.php:191 | `trim` returns the core of any text padded with blanks. |
| Php.ToLowerLowers | GitExporter.php:191 | After `strtolower` no upper-case ASCII letter is left, every other character is kept, and lower-casing again changes nothing. |
| ExportDirectory.LowerCharIs | GitExporter.php:191 | A character lower-cases to a given letter iff it is that letter in either case. |
| Php.IntToString | GitExporter.php:165-167 | A count is printed as decimal digits, with no leading zero, whose value is the count. |

## Findings

| source | as written | input that shows it | evidently intended | confidence | as-written member | corrected member |
|---|---|---|---|---|---|---|
| GitExporter.php:117-121 | `in_array($path, $deleted_files)` and `in_array($path, $modified_files)` without the strict flag, so PHP compares numeric paths by value | the lines "M\t1" then "M\t01": "01" == "1" holds, so "01" is never recorded or exported | distinct paths are distinct files: both are exported and both appear in the changelog | high, not executed | NameStatus.RecordAsWritten, NameStatus.LooseComparisonDropsPath | NameStatus.Record |

## Left out

- NameStatus.RecordAsWritten: `NameStatus.LooseEquals` follows PHP's `==` only where both paths are runs of digits. Other numeric forms are compared as text, although PHP compares them by value: signs, fractions ("1" == "1.0"), exponents ("10" == "1e1"), surrounding blanks (" 1" == "1"), and integers too large to be exact.
- NameStatus.Record: its membership guards compare paths as text. The source's `in_array` without the strict flag compares two numeric strings by value (see "## Findings" and the `NameStatus.RecordAsWritten` line). So the duplicate-free and first-wins results (`NameStatus.ClassifyFirstWins`, `NameStatus.ClassifyInFirstSeenOrder`) are stated for comparison as text.
- NameStatus.Aggregate: its `!in` guards compare as text, for the same reason as `NameStatus.Record`. The export commands and changelog counts of `Diff.MakeDiff` follow from it.

- Running commands, the filesystem and the console are not performed. These are inputs of `Diff.Environment`:
  - the output of `git status`, `git log` and each `git show --name-status`;
  - whether the export root is readable, before and after `rm -rf`;
  - the answer line.
- The effects are `Exporter.Command` values:
  - `mkdir`;
  - `git show <until>:<file> > <target>`;
  - `rm -rf`;
  - the changelog write.
- Whether those effects succeed is not modelled, and the tool does not check them either, with one exception: after `rm -rf` the tool checks with `is_readable` whether the export root is gone. The model keeps that check: the input `Environment.presentAfterRemoval`, the check result `StillPresent` and the outcome `DirectoryNotRemoved`.
- Shell quoting of paths and references inside these commands is not modelled.
- Exporter.IsDirectory: `is_dir(<root>/<dirname>)` in the export loop is worked out from the commands issued so far, not asked of the filesystem. A dirname is a directory when it is "." or when this run created it. Before the loop, the export root was either absent or removed, then created empty, so no other directory can be there. Only the exact spelling the run created counts, so spellings such as `a/./b` are not recognised.
- `Exporter.DirName` models `pathinfo()['dirname']` only for the relative paths git prints (no leading, trailing or doubled '/'). `DIRECTORY_SEPARATOR` is taken to be '/'.
- The progress line, with its floating-point percentage, `substr` and padding, is not modelled. Nor are the other console messages, the help text and the version text (`output`, `outputHelp`, `outputVersion`).
- `CommandLine.Dispatch`: `in_array('help', array_keys(…))` is modelled as membership of the name "help". PHP turns option names such as "0" into integer keys, and PHP 7 compares the integer 0 loosely with "help" and finds them equal. The option `--0` therefore also shows the help. This integer-key and loose-comparison behaviour is not modelled.
- `fgets` at end of input returns `false`, which `trim` turns into "". The model takes the answer as a string, so end of input is the answer "".
- Changelog.Text is a sequence of characters. File encoding and `file_put_contents` are not modelled.
- Lines of `git show` that report an error are treated like any other line. The tool does not check that command's error either, so such lines are simply not counted.
- The check at the top of the script that it runs from the command line is not modelled.
