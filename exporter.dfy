/**
 * The export step of GitExporter::makeDiff: the export root
 * `<cwd>/.export`, and for each modified path, in order, the creation of its
 * directory chain (when the directory does not exist yet) followed by
 * `git show <until>:<path> > <root>/<path>`.
 *
 * The filesystem is outside the model. Each effect is a Command value, in
 * the order the tool causes it. The `is_dir` probe is answered from the
 * commands already issued: the export root has just been created empty, so a
 * directory below it exists exactly when this run has created it.
 */
module Exporter {
  import opened Util
  import opened Php

  /** A side effect of the tool, in the order it happens. */
  datatype Command =
    | MakeDirectory(path: string)                              // `mkdir()` or the shell's `mkdir <path>`
    | ExportFile(revision: string, file: string, target: string) // `git show <revision>:<file> > <target>`
    | RemoveTree(path: string)                                 // `rm -rf <path>`
    | WriteFile(path: string, contents: string)                // `file_put_contents()`

  /** The name of the export directory, GitExporter::EXPORT_DIR. */
  const ExportDirName: string := ".export"

  /** `rtrim($s, '/')`: drops every trailing '/'. */
  function TrimTrailingSlashes(s: string): (r: string)
    ensures r <= s
    ensures r == [] || r[|r| - 1] != '/'
    ensures forall i :: |r| <= i < |s| ==> s[i] == '/'
    decreases |s|
  {
    if s == [] || s[|s| - 1] != '/' then s
    else TrimTrailingSlashes(s[..|s| - 1])
  }

  /**
   * `rtrim(getcwd(), '/') . '/' . '.export'`: the working directory without
   * its trailing slashes, then "/.export".
   */
  function ExportPath(cwd: string): (r: string)
    ensures var n := |r| - |ExportDirName| - 1;
      && n >= 0
      && r[n..] == "/" + ExportDirName
      && r[..n] <= cwd
      && (n == 0 || r[n - 1] != '/')
      && forall i :: n <= i < |cwd| ==> cwd[i] == '/'
  {
    TrimTrailingSlashes(cwd) + "/" + ExportDirName
  }

  /** Trailing slashes of the working directory do not change the export root. */
  lemma {:induction false} ExportPathIgnoresTrailingSlashes(cwd: string, slashes: string)
    requires forall i :: 0 <= i < |slashes| ==> slashes[i] == '/'
    ensures ExportPath(cwd + slashes) == ExportPath(cwd)
    decreases |slashes|
  {
    if slashes != [] {
      var s := cwd + slashes;
      assert s[|s| - 1] == '/';
      assert s[..|s| - 1] == cwd + slashes[..|slashes| - 1];
      ExportPathIgnoresTrailingSlashes(cwd, slashes[..|slashes| - 1]);
    } else {
      assert cwd + slashes == cwd;
    }
  }

  /** Run from the filesystem root, the tool exports into "/.export". */
  lemma ExportPathAtRoot()
    ensures ExportPath("/") == "/" + ExportDirName
  {
    assert "/"[..0] == [];
    assert TrimTrailingSlashes([]) == [];
  }

  /** The position of the last '/' of a path, if any. */
  function LastSlash(path: string): (r: Option<nat>)
    ensures r.None? ==> '/' !in path
    ensures r.Some? ==> r.value < |path| && path[r.value] == '/' && '/' !in path[r.value + 1..]
    decreases |path|
  {
    if path == [] then None
    else if path[|path| - 1] == '/' then Some(|path| - 1)
    else
      var r := LastSlash(path[..|path| - 1]);
      assert path == path[..|path| - 1] + [path[|path| - 1]];
      r
  }

  /**
   * `pathinfo($path)['dirname']` for the relative paths git prints: the text
   * before the last '/', or "." when there is none.
   */
  function DirName(path: string): (r: string)
    ensures '/' !in path ==> r == "."
    ensures '/' in path ==> |r| < |path| && r == path[..|r|] && path[|r|] == '/' && '/' !in path[|r| + 1..]
  {
    match LastSlash(path)
    case None => "."
    case Some(i) => path[..i]
  }

  /** The last '/' of `dir/name`, for a slash-free name, is the one before the name. */
  lemma {:induction false} LastSlashOfJoin(dir: string, name: string)
    requires '/' !in name
    ensures LastSlash(dir + "/" + name) == Some(|dir|)
    decreases |name|
  {
    var p := dir + "/" + name;
    if name != [] {
      var init := name[..|name| - 1];
      assert p[|p| - 1] == name[|name| - 1];
      assert p[..|p| - 1] == dir + "/" + init;
      LastSlashOfJoin(dir, init);
    }
  }

  /** A path is its directory, a '/' and a slash-free name; a bare name lies in ".". */
  lemma DirNameOfJoin(dir: string, name: string)
    requires '/' !in name
    ensures DirName(dir + "/" + name) == dir
    ensures DirName(name) == "."
  {
    LastSlashOfJoin(dir, name);
    assert (dir + "/" + name)[..|dir|] == dir;
  }

  /** Each directory name followed by '/', concatenated: `$dir .= $subdir . '/'`. */
  function Terminated(parts: seq<string>): string
    decreases |parts|
  {
    if parts == [] then "" else Terminated(parts[..|parts| - 1]) + parts[|parts| - 1] + "/"
  }

  /** The directories to create for the components of a dirname, parent first, each ending in '/'. */
  function Dirs(root: string, parts: seq<string>): (dirs: seq<string>)
    ensures |dirs| == |parts|
  {
    seq(|parts|, k requires 0 <= k < |parts| => root + "/" + Terminated(parts[..k + 1]))
  }

  /** The directories to create for a dirname: one per '/'-separated component. */
  function Chain(root: string, dirname: string): (dirs: seq<string>)
    ensures |dirs| == |Explode('/', dirname)|
  {
    Dirs(root, Explode('/', dirname))
  }

  /** The directory loop of makeDiff: `$dir` grows by one component per step. */
  method DirectoryChain(root: string, dirname: string) returns (dirs: seq<string>)
    ensures dirs == Chain(root, dirname)
  {
    var subdirs := Explode('/', dirname);
    var dir := root + "/";
    dirs := [];
    // `count($subdirs) > 0` always holds: explode returns at least one piece
    for i := 0 to |subdirs|
      invariant dir == root + "/" + Terminated(subdirs[..i])
      invariant dirs == Dirs(root, subdirs)[..i]
    {
      DirsPrefixNext(root, subdirs, i);
      TerminatedNext(subdirs, i);
      dir := dir + subdirs[i] + "/";
      dirs := dirs + [dir];
    }
    assert Dirs(root, subdirs)[..|subdirs|] == Dirs(root, subdirs);
  }

  /** The components joined with '/', and a final '/'. */
  lemma {:induction false} TerminatedImplode(parts: seq<string>)
    requires |parts| >= 1
    ensures Terminated(parts) == Implode("/", parts) + "/"
    decreases |parts|
  {
    if |parts| > 1 {
      var init := parts[..|parts| - 1];
      TerminatedImplode(init);
      ImplodeAppend("/", init, [parts[|parts| - 1]]);
      assert init + [parts[|parts| - 1]] == parts;
    }
  }

  lemma TerminatedNext(parts: seq<string>, k: nat)
    requires k < |parts|
    ensures Terminated(parts[..k + 1]) == Terminated(parts[..k]) + parts[k] + "/"
  {
    assert parts[..k + 1][..k] == parts[..k];
  }

  /** One more step of the directory loop adds one directory. */
  lemma DirsPrefixNext(root: string, parts: seq<string>, i: nat)
    requires i < |parts|
    ensures Dirs(root, parts)[..i + 1] ==
      Dirs(root, parts)[..i] + [root + "/" + Terminated(parts[..i]) + parts[i] + "/"]
  {
    TerminatedNext(parts, i);
    var dirs, t := Dirs(root, parts), Terminated(parts[..i]);
    assert dirs[i] == root + "/" + (t + parts[i] + "/");
    assert root + "/" + (t + parts[i] + "/") == root + "/" + t + parts[i] + "/";
    assert dirs[..i + 1] == dirs[..i] + [dirs[i]];
  }

  /** Parent to child: each directory extends the previous one by one component. */
  lemma DirsStep(root: string, parts: seq<string>)
    ensures var dirs := Dirs(root, parts);
      && (|parts| >= 1 ==> dirs[0] == root + "/" + parts[0] + "/")
      && forall k :: 0 <= k < |dirs| - 1 ==> dirs[k + 1] == dirs[k] + parts[k + 1] + "/"
  {
    var dirs := Dirs(root, parts);
    if |parts| >= 1 {
      TerminatedNext(parts, 0);
      assert parts[..0] == [];
    }
    forall k | 0 <= k < |dirs| - 1
      ensures dirs[k + 1] == dirs[k] + parts[k + 1] + "/"
    {
      TerminatedNext(parts, k + 1);
      var t := Terminated(parts[..k + 1]);
      assert root + "/" + (t + parts[k + 1] + "/") == (root + "/" + t) + parts[k + 1] + "/";
    }
  }

  /** The last directory is the components joined with '/'. */
  lemma DirsLast(root: string, parts: seq<string>)
    requires |parts| >= 1
    ensures Dirs(root, parts)[|parts| - 1] == root + "/" + Implode("/", parts) + "/"
  {
    var t := Terminated(parts);
    assert parts[..|parts|] == parts;
    assert Dirs(root, parts)[|parts| - 1] == root + "/" + t;
    TerminatedImplode(parts);
    assert root + "/" + t == root + "/" + Implode("/", parts) + "/";
  }

  /**
   * One directory per component of the dirname, parent to child: the first
   * is the first component under the root, each next one extends the
   * previous one by one component, and the last is the dirname itself.
   */
  lemma ChainShape(root: string, dirname: string)
    ensures var dirs, parts := Chain(root, dirname), Explode('/', dirname);
      && |dirs| == |parts| >= 1
      && dirs[0] == root + "/" + parts[0] + "/"
      && (forall k :: 0 <= k < |dirs| - 1 ==> dirs[k + 1] == dirs[k] + parts[k + 1] + "/")
      && dirs[|dirs| - 1] == root + "/" + dirname + "/"
  {
    var parts := Explode('/', dirname);
    DirsStep(root, parts);
    DirsLast(root, parts);
  }

  /** Every directory of a chain lies under the root. */
  lemma ChainUnderRoot(root: string, dirname: string)
    ensures forall k :: 0 <= k < |Chain(root, dirname)| ==> root + "/" <= Chain(root, dirname)[k]
  {
    var dirs, parts := Chain(root, dirname), Explode('/', dirname);
    forall k | 0 <= k < |dirs|
      ensures root + "/" <= dirs[k]
    {
      var t := Terminated(parts[..k + 1]);
      assert dirs[k] == root + "/" + t;
      assert dirs[k][..|root| + 1] == root + "/";
    }
  }

  /** Whether `is_dir(<root>/<dirname>)` holds after the given commands. */
  predicate IsDirectory(root: string, dirname: string, done: seq<Command>) {
    dirname == "." || MakeDirectory(root + "/" + dirname + "/") in done
  }

  function MakeDirectories(dirs: seq<string>): (r: seq<Command>)
    ensures |r| == |dirs|
    ensures forall i :: 0 <= i < |r| ==> r[i] == MakeDirectory(dirs[i])
  {
    seq(|dirs|, i requires 0 <= i < |dirs| => MakeDirectory(dirs[i]))
  }

  /** The directories to create before exporting `file`, after the commands already issued. */
  function DirectoriesFor(root: string, file: string, done: seq<Command>): seq<Command> {
    var d := DirName(file);
    if IsDirectory(root, d, done) then [] else MakeDirectories(Chain(root, d))
  }

  /** The commands for one modified path, after the commands already issued. */
  function ExportOne(root: string, revision: string, file: string, done: seq<Command>): seq<Command> {
    DirectoriesFor(root, file, done) + [ExportFile(revision, file, root + "/" + file)]
  }

  /** The commands for the modified paths, in order. */
  function ExportRun(root: string, revision: string, files: seq<string>): seq<Command>
    decreases |files|
  {
    if files == [] then []
    else
      var done := ExportRun(root, revision, files[..|files| - 1]);
      done + ExportOne(root, revision, files[|files| - 1], done)
  }

  lemma ExportRunNext(root: string, revision: string, files: seq<string>, i: nat)
    requires i < |files|
    ensures var done := ExportRun(root, revision, files[..i]);
      ExportRun(root, revision, files[..i + 1]) == done + ExportOne(root, revision, files[i], done)
  {
    assert files[..i + 1][..i] == files[..i];
  }

  /** The export loop of makeDiff. */
  method ExportFiles(root: string, revision: string, files: seq<string>) returns (commands: seq<Command>)
    ensures commands == ExportRun(root, revision, files)
  {
    commands := [];
    for i := 0 to |files|
      invariant commands == ExportRun(root, revision, files[..i])
    {
      var file := files[i];
      var dirname := DirName(file);
      var created := [];
      if !IsDirectory(root, dirname, commands) {
        var dirs := DirectoryChain(root, dirname);
        created := MakeDirectories(dirs);
      }
      ExportRunNext(root, revision, files, i);
      commands := commands + (created + [ExportFile(revision, file, root + "/" + file)]);
    }
    assert files[..|files|] == files;
  }

  /** The file exports among some commands, in order. */
  function Exports(commands: seq<Command>): seq<Command>
    decreases |commands|
  {
    if commands == [] then []
    else
      var c := commands[|commands| - 1];
      Exports(commands[..|commands| - 1]) + (if c.ExportFile? then [c] else [])
  }

  lemma {:induction false} ExportsAppend(xs: seq<Command>, ys: seq<Command>)
    ensures Exports(xs + ys) == Exports(xs) + Exports(ys)
    decreases |ys|
  {
    if ys == [] {
      assert xs + ys == xs;
    } else {
      var init := ys[..|ys| - 1];
      ExportsAppend(xs, init);
      assert (xs + ys)[..|xs + ys| - 1] == xs + init;
    }
  }

  lemma {:induction false} ExportsOfDirectories(dirs: seq<string>)
    ensures Exports(MakeDirectories(dirs)) == []
    decreases |dirs|
  {
    if dirs != [] {
      var init := dirs[..|dirs| - 1];
      ExportsOfDirectories(init);
      assert MakeDirectories(dirs)[..|dirs| - 1] == MakeDirectories(init);
    }
  }

  /** One path's commands export exactly that path. */
  lemma ExportsOfOne(root: string, revision: string, file: string, done: seq<Command>)
    ensures Exports(ExportOne(root, revision, file, done)) == [ExportFile(revision, file, root + "/" + file)]
  {
    var mk := DirectoriesFor(root, file, done);
    var ex := [ExportFile(revision, file, root + "/" + file)];
    ExportsAppend(mk, ex);
    if mk != [] {
      ExportsOfDirectories(Chain(root, DirName(file)));
    }
    assert ex[..0] == [];
  }

  /** One export per path, in order, from `revision` into the same place under `root`. */
  function Expected(root: string, revision: string, files: seq<string>): (r: seq<Command>)
    ensures |r| == |files|
  {
    seq(|files|, i requires 0 <= i < |files| => ExportFile(revision, files[i], root + "/" + files[i]))
  }

  lemma ExpectedSnoc(root: string, revision: string, files: seq<string>)
    requires files != []
    ensures var n := |files| - 1;
      Expected(root, revision, files) ==
        Expected(root, revision, files[..n]) + [ExportFile(revision, files[n], root + "/" + files[n])]
  {
    var n := |files| - 1;
    var xs, ys := Expected(root, revision, files), Expected(root, revision, files[..n]);
    assert forall i :: 0 <= i < n ==> xs[i] == ys[i];
  }

  /**
   * Every modified path is exported once, in order, from the given revision
   * into the same relative place under the export root.
   */
  lemma {:induction false} ExportsAreTheFiles(root: string, revision: string, files: seq<string>)
    ensures Exports(ExportRun(root, revision, files)) == Expected(root, revision, files)
    decreases |files|
  {
    if files != [] {
      var init, file := files[..|files| - 1], files[|files| - 1];
      var done := ExportRun(root, revision, init);
      ExportsAreTheFiles(root, revision, init);
      ExportsAppend(done, ExportOne(root, revision, file, done));
      ExportsOfOne(root, revision, file, done);
      ExpectedSnoc(root, revision, files);
    }
  }

  /** After a path's directories are created, its directory exists. */
  lemma DirectoryForFile(root: string, file: string, done: seq<Command>)
    ensures IsDirectory(root, DirName(file), done + DirectoriesFor(root, file, done))
  {
    var d := DirName(file);
    var mk := DirectoriesFor(root, file, done);
    if !IsDirectory(root, d, done) {
      ChainShape(root, d);
      assert (done + mk)[|done| + |mk| - 1] == MakeDirectory(root + "/" + d + "/");
    }
  }

  /** Each file export comes after its directory exists. */
  predicate ExportsAfterDirectories(root: string, cs: seq<Command>) {
    forall i :: 0 <= i < |cs| && cs[i].ExportFile? ==> IsDirectory(root, DirName(cs[i].file), cs[..i])
  }

  /** Every directory created lies under the root. */
  predicate CreatesUnder(root: string, cs: seq<Command>) {
    forall i :: 0 <= i < |cs| && cs[i].MakeDirectory? ==> root + "/" <= cs[i].path
  }

  /** In one path's commands, the export comes after its directory exists. */
  lemma DirectoryBeforeOwnFile(root: string, revision: string, file: string, done: seq<Command>)
    requires ExportsAfterDirectories(root, done)
    ensures ExportsAfterDirectories(root, done + ExportOne(root, revision, file, done))
  {
    var mk := DirectoriesFor(root, file, done);
    var e := ExportOne(root, revision, file, done);
    var cs := done + e;
    DirectoryForFile(root, file, done);
    forall i | 0 <= i < |cs| && cs[i].ExportFile?
      ensures IsDirectory(root, DirName(cs[i].file), cs[..i])
    {
      if i < |done| {
        assert cs[i] == done[i] && cs[..i] == done[..i];
      } else if i == |done| + |mk| {
        assert cs[..i] == done + mk;
        assert cs[i] == ExportFile(revision, file, root + "/" + file);
      }
    }
  }

  /**
   * When a path is exported, its directory already exists: it is the export
   * root itself, or this run created it before.
   */
  lemma {:induction false} DirectoryBeforeFile(root: string, revision: string, files: seq<string>)
    ensures ExportsAfterDirectories(root, ExportRun(root, revision, files))
    decreases |files|
  {
    if files != [] {
      var init := files[..|files| - 1];
      DirectoryBeforeFile(root, revision, init);
      DirectoryBeforeOwnFile(root, revision, files[|files| - 1], ExportRun(root, revision, init));
    }
  }

  /** The commands for one path create directories under the root only. */
  lemma OwnDirectoriesUnderRoot(root: string, revision: string, file: string, done: seq<Command>)
    requires CreatesUnder(root, done)
    ensures CreatesUnder(root, done + ExportOne(root, revision, file, done))
  {
    var d := DirName(file);
    var mk := DirectoriesFor(root, file, done);
    var cs := done + ExportOne(root, revision, file, done);
    ChainUnderRoot(root, d);
    forall i | 0 <= i < |cs| && cs[i].MakeDirectory?
      ensures root + "/" <= cs[i].path
    {
      if i < |done| {
        assert cs[i] == done[i];
      } else if i < |done| + |mk| {
        assert mk == MakeDirectories(Chain(root, d));
        assert cs[i] == MakeDirectory(Chain(root, d)[i - |done|]);
      }
    }
  }

  /** Every directory the export creates lies under the export root. */
  lemma {:induction false} DirectoriesUnderRoot(root: string, revision: string, files: seq<string>)
    ensures CreatesUnder(root, ExportRun(root, revision, files))
    decreases |files|
  {
    if files != [] {
      var init := files[..|files| - 1];
      DirectoriesUnderRoot(root, revision, init);
      OwnDirectoriesUnderRoot(root, revision, files[|files| - 1], ExportRun(root, revision, init));
    }
  }
}
