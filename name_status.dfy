/**
 * Aggregation of the per-commit `git show <commit> --name-status` output into
 * the two path lists of GitExporter::makeDiff: `modified` (status A or M) and
 * `deleted` (status D). A path keeps the classification of the first counted
 * line that mentions it, in commit order and then line order; lines of any
 * other shape (renames, copies, blank lines) are ignored.
 */
module NameStatus {
  import opened Util
  import opened Php

  /** The status letters the tool recognises. */
  datatype Kind = Added | Modified | Deleted

  /** A counted name-status line: its status and its path. */
  datatype Change = Change(kind: Kind, path: string)

  function Letter(k: Kind): char {
    match k
    case Added => 'A'
    case Modified => 'M'
    case Deleted => 'D'
  }

  /** The pattern `/^[AMD]{1}$/`; PCRE's `$` also matches before one final "\n". */
  predicate MatchesStatusPattern(f: string) {
    (|f| == 1 || (|f| == 2 && f[1] == '\n')) && f[0] in "AMD"
  }

  /**
   * One output line, split on tabs: the status field must be exactly one of
   * A, M, D and the path field (the text between the first and the second
   * tab) must not be PHP-empty, so a path "0" is ignored like a missing one.
   * A status "D\n" would pass the pattern but equals neither letter, so it
   * would be ignored too (output lines never hold a line feed).
   */
  function ParseLine(line: string): (r: Option<Change>)
    ensures r.Some? ==> !Empty(r.value.path) && '\t' !in r.value.path
    ensures r.Some? ==>
      var head := [Letter(r.value.kind), '\t'] + r.value.path;
      line == head || head + "\t" <= line
  {
    var fields := Explode('\t', line);
    if |fields| > 1 then
      ShapeOfFields(fields);
      ParseFields(fields)
    else ParseFields(fields)
  }

  /** The decision of ParseLine on the tab-separated fields of the line. */
  function ParseFields(fields: seq<string>): (r: Option<Change>)
    requires |fields| >= 1
    ensures r.Some? ==> |fields| > 1 && fields[0] == [Letter(r.value.kind)] && fields[1] == r.value.path
  {
    // `$type` is the status field when it matches the pattern and `false` (here "") otherwise
    var status := if !Empty(fields[0]) && MatchesStatusPattern(fields[0]) then fields[0] else "";
    var path := if |fields| > 1 && !Empty(fields[1]) then fields[1] else "";
    if Empty(status) || Empty(path) then None
    else if status == "D" then Some(Change(Deleted, path))
    else if status == "M" then Some(Change(Modified, path))
    else if status == "A" then Some(Change(Added, path))
    else None
  }

  /** The first two tab-separated fields sit at the head of the imploded line. */
  lemma ShapeOfFields(fields: seq<string>)
    requires |fields| > 1
    ensures var head := fields[0] + "\t" + fields[1];
      Implode("\t", fields) == head || head + "\t" <= Implode("\t", fields)
  {
    var tail := fields[1..];
    assert Implode("\t", fields) == fields[0] + "\t" + Implode("\t", tail);
    if |fields| > 2 {
      assert tail[1..] == fields[2..];
      assert Implode("\t", tail) == fields[1] + "\t" + Implode("\t", fields[2..]);
      HeadPrefix(fields[0], fields[1], Implode("\t", fields[2..]));
    }
  }

  lemma HeadPrefix(a: string, b: string, t: string)
    ensures a + "\t" + b + "\t" <= a + "\t" + (b + "\t" + t)
  {
    var s := a + "\t" + (b + "\t" + t);
    assert s[..|a| + |b| + 2] == a + "\t" + b + "\t";
  }

  /** A line whose first two fields are a status letter and a non-empty path is counted. */
  lemma ParseOfFields(line: string, k: Kind, path: string)
    requires !Empty(path)
    requires |Explode('\t', line)| > 1
    requires Explode('\t', line)[0] == [Letter(k)] && Explode('\t', line)[1] == path
    ensures ParseLine(line) == Some(Change(k, path))
  {
  }

  /**
   * The converse of ParseLine's contract: a status letter, a tab and a
   * non-empty tab-free path is counted with that status and path.
   */
  lemma ParseCountedLine(k: Kind, path: string)
    requires !Empty(path) && '\t' !in path
    ensures ParseLine([Letter(k), '\t'] + path) == Some(Change(k, path))
  {
    ExplodeImplode('\t', [path]);
    ExplodeCons('\t', [Letter(k)], path);
    assert [Letter(k)] + ['\t'] + path == [Letter(k), '\t'] + path;
    ParseOfFields([Letter(k), '\t'] + path, k, path);
  }

  /** The same line followed by a tab and anything is counted the same way. */
  lemma ParseCountedLineWithTail(k: Kind, path: string, tail: string)
    requires !Empty(path) && '\t' !in path
    ensures ParseLine([Letter(k), '\t'] + path + "\t" + tail) == Some(Change(k, path))
  {
    var line := [Letter(k), '\t'] + path + "\t" + tail;
    ExplodeCons('\t', path, tail);
    ExplodeCons('\t', [Letter(k)], path + "\t" + tail);
    assert [Letter(k)] + ['\t'] + (path + "\t" + tail) == line;
    ParseOfFields(line, k, path);
  }

  /** A line without a tab has no path field and is ignored. */
  lemma IgnoredWithoutTab(line: string)
    requires '\t' !in line
    ensures ParseLine(line) == None
  {
    ExplodeImplode('\t', [line]);
  }

  /** A line whose status field is not exactly one of A, M, D is ignored. */
  lemma IgnoredStatus(status: string, rest: string)
    requires '\t' !in status && status != "A" && status != "M" && status != "D"
    ensures ParseLine(status + "\t" + rest) == None
  {
    ExplodeCons('\t', status, rest);
  }

  /** A status letter followed by the path "0", which PHP counts as empty, is ignored. */
  lemma IgnoredZeroPath(k: Kind)
    ensures ParseLine([Letter(k), '\t'] + "0") == None
  {
    ExplodeImplode('\t', ["0"]);
    ExplodeCons('\t', [Letter(k)], "0");
    assert [Letter(k)] + ['\t'] + "0" == [Letter(k), '\t'] + "0";
  }

  /**
   * Renames and copies (`R<score>` or `C<score>`, then the old and the new
   * path) are ignored: the status field is not a single A, M or D.
   */
  lemma IgnoredRenameAndCopy(letter: char, score: string, from: string, to: string)
    requires letter == 'R' || letter == 'C'
    requires '\t' !in score
    ensures ParseLine([letter] + score + "\t" + from + "\t" + to) == None
  {
    var status := [letter] + score;
    assert status[0] == letter;
    IgnoredStatus(status, from + "\t" + to);
    assert status + "\t" + (from + "\t" + to) == [letter] + score + "\t" + from + "\t" + to;
  }

  /**
   * A status "D" followed by a line feed passes the pattern but is no letter.
   * This concerns the pattern alone: `exec` splits its output at line feeds,
   * so no output line the loop reads holds one.
   */
  lemma IgnoredLineFeedStatus()
    ensures MatchesStatusPattern("D\n")
    ensures ParseLine("D\n\tfile.txt") == None
  {
    IgnoredStatus("D\n", "file.txt");
    assert "D\n" + "\t" + "file.txt" == "D\n\tfile.txt";
  }

  /** A blank line, a bare status and a path "0" are ignored. */
  lemma IgnoredShortLines()
    ensures ParseLine("") == None
    ensures ParseLine("M") == None
    ensures ParseLine("M\t0") == None
  {
    IgnoredWithoutTab("");
    IgnoredWithoutTab("M");
    IgnoredZeroPath(Modified);
    assert [Letter(Modified), '\t'] + "0" == "M\t0";
  }

  /** The two ordered path lists built by the aggregation. */
  datatype Classification = Classification(modified: seq<string>, deleted: seq<string>)

  predicate Classified(c: Classification, p: string) {
    p in c.modified || p in c.deleted
  }

  predicate NoDuplicates(s: seq<string>) {
    forall i, j :: 0 <= i < j < |s| ==> s[i] != s[j]
  }

  /** No path twice in a list, and no path in both lists. */
  predicate WellFormed(c: Classification) {
    && NoDuplicates(c.modified)
    && NoDuplicates(c.deleted)
    && forall p :: p in c.modified ==> p !in c.deleted
  }

  /**
   * A counted line: a path already in either list is left alone; otherwise it
   * is appended to `deleted` for D and to `modified` for A or M.
   */
  function Record(c: Classification, ch: Change): (r: Classification)
    ensures WellFormed(c) ==> WellFormed(r)
    ensures c.modified <= r.modified && c.deleted <= r.deleted
    ensures Classified(r, ch.path)
  {
    if Classified(c, ch.path) then c
    else if ch.kind == Deleted then c.(deleted := c.deleted + [ch.path])
    else c.(modified := c.modified + [ch.path])
  }

  /** A non-empty run of decimal digits: a numeric string in PHP. */
  predicate IsDigits(s: string) {
    |s| >= 1 && forall i :: 0 <= i < |s| ==> '0' <= s[i] <= '9'
  }

  /**
   * PHP's `==` between two strings, as far as the model follows it: two runs
   * of digits compare by value ("01" == "1"); any other pair compares as
   * text.
   */
  predicate LooseEquals(a: string, b: string) {
    if IsDigits(a) && IsDigits(b) then DecimalValue(a) == DecimalValue(b) else a == b
  }

  /** `in_array($p, $xs)` without the strict flag. */
  predicate LooseIn(p: string, xs: seq<string>)
    decreases |xs|
  {
    xs != [] && (LooseEquals(p, xs[0]) || LooseIn(p, xs[1..]))
  }

  /** A path listed as it is is also found by the non-strict search. */
  lemma {:induction false} InLooseIn(p: string, xs: seq<string>)
    requires p in xs
    ensures LooseIn(p, xs)
    decreases |xs|
  {
    if xs[0] != p {
      assert p in xs[1..];
      InLooseIn(p, xs[1..]);
    }
  }

  /**
   * One counted line with the guards of lines 117 and 121 as written: a path
   * that PHP's `==` finds in either list is left alone. Like Record it only
   * appends, and a path already listed as it is changes nothing.
   */
  function RecordAsWritten(c: Classification, ch: Change): (r: Classification)
    ensures c.modified <= r.modified && c.deleted <= r.deleted
    ensures Classified(c, ch.path) ==> r == c
  {
    if ch.path in c.modified then InLooseIn(ch.path, c.modified); c
    else if ch.path in c.deleted then InLooseIn(ch.path, c.deleted); c
    else if LooseIn(ch.path, c.modified) || LooseIn(ch.path, c.deleted) then c
    else if ch.kind == Deleted then c.(deleted := c.deleted + [ch.path])
    else c.(modified := c.modified + [ch.path])
  }

  /**
   * Two runs of digits with the same value, such as "1" and "01", name two
   * files. As written, the line for the second is taken for the first, which
   * is already recorded, so the second path is never exported; Record, which
   * the rest of the model uses, keeps both.
   */
  lemma LooseComparisonDropsPath(p: string, q: string)
    requires IsDigits(p) && IsDigits(q) && !Empty(p) && !Empty(q)
    requires p != q && DecimalValue(p) == DecimalValue(q)
    ensures var first, second := [Letter(Modified), '\t'] + p, [Letter(Modified), '\t'] + q;
      && ParseLine(first) == Some(Change(Modified, p))
      && ParseLine(second) == Some(Change(Modified, q))
      && RecordAsWritten(RecordAsWritten(Classification([], []), Change(Modified, p)), Change(Modified, q))
           == Classification([p], [])
      && Classify([first, second]) == Classification([p, q], [])
  {
    var first, second := [Letter(Modified), '\t'] + p, [Letter(Modified), '\t'] + q;
    assert '\t' !in p && '\t' !in q by {
      assert forall i :: 0 <= i < |p| ==> p[i] != '\t';
      assert forall i :: 0 <= i < |q| ==> q[i] != '\t';
    }
    ParseCountedLine(Modified, p);
    ParseCountedLine(Modified, q);
    var one := Classification([p], []);
    assert LooseEquals(q, one.modified[0]);
    ClassifyTwoNew(first, second, p, q);
  }

  /** Two counted lines for two different modified paths keep both, in order. */
  lemma ClassifyTwoNew(first: string, second: string, p: string, q: string)
    requires ParseLine(first) == Some(Change(Modified, p))
    requires ParseLine(second) == Some(Change(Modified, q))
    requires p != q
    ensures Classify([first, second]) == Classification([p, q], [])
  {
    var empty := Classification([], []);
    ClassifySnoc([], first);
    assert [] + [first] == [first];
    assert Step(empty, first) == Record(empty, Change(Modified, p));
    var one := Classification([p], []);
    ClassifySnoc([first], second);
    assert [first] + [second] == [first, second];
    assert Step(one, second) == Record(one, Change(Modified, q));
  }

  /** "1" and "01" are such a pair: both runs of digits, both of value one. */
  lemma OneAndZeroOne()
    ensures IsDigits("1") && IsDigits("01") && !Empty("1") && !Empty("01")
    ensures "1" != "01" && DecimalValue("01") == DecimalValue("1") == 1
  {
    assert "01"[..1] == "0" && "0"[..0] == "" && "1"[..0] == "";
  }

  function Step(c: Classification, line: string): Classification {
    match ParseLine(line)
    case None => c
    case Some(ch) => Record(c, ch)
  }

  /** The classification after a run of output lines, processed in order. */
  function Classify(lines: seq<string>): (r: Classification)
    ensures WellFormed(r)
    decreases |lines|
  {
    if lines == [] then Classification([], [])
    else Step(Classify(lines[..|lines| - 1]), lines[|lines| - 1])
  }

  lemma ClassifySnoc(lines: seq<string>, line: string)
    ensures Classify(lines + [line]) == Step(Classify(lines), line)
  {
    assert (lines + [line])[..|lines|] == lines;
  }

  /** The output lines of every commit, in commit order. */
  function Flatten(outputs: seq<seq<string>>): seq<string>
    decreases |outputs|
  {
    if outputs == [] then [] else Flatten(outputs[..|outputs| - 1]) + outputs[|outputs| - 1]
  }

  /**
   * The nested loop of GitExporter::makeDiff: commits in order, each commit's
   * lines in order, two membership-guarded appends per line.
   */
  method Aggregate(outputs: seq<seq<string>>) returns (modified: seq<string>, deleted: seq<string>)
    ensures Classification(modified, deleted) == Classify(Flatten(outputs))
    ensures WellFormed(Classification(modified, deleted))
  {
    modified, deleted := [], [];
    for i := 0 to |outputs|
      invariant Classification(modified, deleted) == Classify(Flatten(outputs[..i]))
    {
      var files := outputs[i];
      ghost var done := Flatten(outputs[..i]);
      assert done + files[..0] == done;
      for j := 0 to |files|
        invariant Classification(modified, deleted) == Classify(done + files[..j])
      {
        ghost var before := Classification(modified, deleted);
        var change := ParseLine(files[j]);
        if change.Some? {
          var path := change.value.path;
          if change.value.kind == Deleted && path !in deleted && path !in modified {
            deleted := deleted + [path];
          }
          if (change.value.kind == Modified || change.value.kind == Added) && path !in deleted && path !in modified {
            modified := modified + [path];
          }
        }
        assert Classification(modified, deleted) == Step(before, files[j]);
        NextLine(done, files, j);
      }
      FlattenSnoc(outputs, i);
    }
    assert outputs[..|outputs|] == outputs;
  }

  lemma NextLine(done: seq<string>, files: seq<string>, j: nat)
    requires j < |files|
    ensures Classify(done + files[..j + 1]) == Step(Classify(done + files[..j]), files[j])
  {
    assert done + files[..j + 1] == (done + files[..j]) + [files[j]];
    ClassifySnoc(done + files[..j], files[j]);
  }

  lemma FlattenSnoc(outputs: seq<seq<string>>, i: nat)
    requires i < |outputs|
    ensures Flatten(outputs[..i + 1]) == Flatten(outputs[..i]) + outputs[i][..|outputs[i]|]
  {
    assert outputs[..i + 1][..i] == outputs[..i];
    assert outputs[i][..|outputs[i]|] == outputs[i];
  }

  /** The counted lines of a run, in order. */
  function Changes(lines: seq<string>): seq<Change>
    decreases |lines|
  {
    if lines == [] then []
    else
      var last := ParseLine(lines[|lines| - 1]);
      Changes(lines[..|lines| - 1]) + (if last.Some? then [last.value] else [])
  }

  /** The status of the first change that mentions `p`, if any. */
  function FirstKind(cs: seq<Change>, p: string): Option<Kind>
    decreases |cs|
  {
    if cs == [] then None
    else if cs[0].path == p then Some(cs[0].kind)
    else FirstKind(cs[1..], p)
  }

  /** An optional status is absent or one of the three letters. */
  lemma KindCases(o: Option<Kind>)
    ensures o == None || o == Some(Added) || o == Some(Modified) || o == Some(Deleted)
  {
    match o
    case None =>
    case Some(k) =>
      match k
      case Added =>
      case Modified =>
      case Deleted =>
  }

  /** A change appended after the first mention of `p` does not alter it. */
  lemma {:induction false} FirstKindSnoc(cs: seq<Change>, c: Change, p: string)
    ensures FirstKind(cs + [c], p) ==
      if FirstKind(cs, p).Some? then FirstKind(cs, p)
      else if c.path == p then Some(c.kind)
      else None
    decreases |cs|
  {
    if cs == [] {
      assert [] + [c] == [c];
    } else {
      assert (cs + [c])[1..] == cs[1..] + [c];
      FirstKindSnoc(cs[1..], c, p);
    }
  }

  /**
   * First wins: a path ends in `modified` exactly when the first counted line
   * mentioning it has status A or M, and in `deleted` exactly when that line
   * has status D. A path no counted line mentions is in neither list.
   */
  lemma {:induction false} ClassifyFirstWins(lines: seq<string>, p: string)
    ensures p in Classify(lines).modified <==>
      FirstKind(Changes(lines), p) == Some(Added) || FirstKind(Changes(lines), p) == Some(Modified)
    ensures p in Classify(lines).deleted <==> FirstKind(Changes(lines), p) == Some(Deleted)
    decreases |lines|
  {
    if lines != [] {
      var init, line := lines[..|lines| - 1], lines[|lines| - 1];
      ClassifyFirstWins(init, p);
      assert lines == init + [line];
      ClassifySnoc(init, line);
      match ParseLine(line)
      case None =>
        assert Step(Classify(init), line) == Classify(init);
        assert Changes(lines) == Changes(init) + [];
        assert Changes(init) + [] == Changes(init);
      case Some(ch) =>
        assert Changes(lines) == Changes(init) + [ch];
        assert Classify(lines) == Record(Classify(init), ch);
        ClassifyFirstWins(init, ch.path);
        RecordFirstWins(Classify(init), Changes(init), ch, p);
    }
  }

  /** The classification of `p` agrees with the first change that mentions it. */
  predicate DecidedByFirst(c: Classification, cs: seq<Change>, p: string) {
    && (p in c.modified <==> FirstKind(cs, p) == Some(Added) || FirstKind(cs, p) == Some(Modified))
    && (p in c.deleted <==> FirstKind(cs, p) == Some(Deleted))
  }

  /** Recording one more change keeps the agreement for every path. */
  lemma RecordFirstWins(c: Classification, cs: seq<Change>, ch: Change, p: string)
    requires DecidedByFirst(c, cs, p) && DecidedByFirst(c, cs, ch.path)
    ensures DecidedByFirst(Record(c, ch), cs + [ch], p)
  {
    FirstKindSnoc(cs, ch, p);
    if p == ch.path {
      if Classified(c, p) {
        assert FirstKind(cs, p).Some?;
      } else {
        var fk := FirstKind(cs, p);
        assert fk != Some(Added) && fk != Some(Modified) && fk != Some(Deleted);
        KindCases(fk);
      }
    } else {
      assert p in Record(c, ch).modified <==> p in c.modified;
      assert p in Record(c, ch).deleted <==> p in c.deleted;
    }
  }

  /** Lists only grow by appending: an earlier state is a prefix of a later one. */
  lemma {:induction false} ClassifyGrows(xs: seq<string>, ys: seq<string>)
    ensures Classify(xs).modified <= Classify(xs + ys).modified
    ensures Classify(xs).deleted <= Classify(xs + ys).deleted
    decreases |ys|
  {
    if ys == [] {
      assert xs + ys == xs;
    } else {
      var init := ys[..|ys| - 1];
      ClassifyGrows(xs, init);
      assert xs + ys == (xs + init) + [ys[|ys| - 1]];
      ClassifySnoc(xs + init, ys[|ys| - 1]);
    }
  }

  /** Later lines never move or drop a classified path. */
  lemma LaterLinesChangeNothing(xs: seq<string>, ys: seq<string>, p: string)
    ensures p in Classify(xs).modified ==>
      p in Classify(xs + ys).modified && p !in Classify(xs + ys).deleted
    ensures p in Classify(xs).deleted ==>
      p in Classify(xs + ys).deleted && p !in Classify(xs + ys).modified
  {
    ClassifyGrows(xs, ys);
  }

  /**
   * Two commits touching the same path: the earlier commit decides, so a
   * path modified and then deleted stays in `modified`, and the reverse
   * leaves it in `deleted`.
   */
  lemma CommitOrderDecides(first: Kind, second: Kind, p: string)
    requires !Empty(p) && '\t' !in p
    ensures var lines := Flatten([[[Letter(first), '\t'] + p], [[Letter(second), '\t'] + p]]);
      Classify(lines) == if first == Deleted then Classification([], [p]) else Classification([p], [])
  {
    var l1, l2 := [Letter(first), '\t'] + p, [Letter(second), '\t'] + p;
    ParseCountedLine(first, p);
    ParseCountedLine(second, p);
    FlattenTwo([l1], [l2]);
    ClassifySnoc([], l1);
    assert [] + [l1] == [l1];
    ClassifySnoc([l1], l2);
  }

  lemma FlattenTwo(a: seq<string>, b: seq<string>)
    ensures Flatten([a, b]) == a + b
  {
    assert [a, b][..1] == [a];
    assert [a][..0] == [];
    assert Flatten([a]) == [] + a;
  }

  /** The changes that do not mention `p`. */
  function Without(cs: seq<Change>, p: string): (r: seq<Change>)
    ensures |r| <= |cs|
    decreases |cs|
  {
    if cs == [] then [] else (if cs[0].path == p then [] else [cs[0]]) + Without(cs[1..], p)
  }

  /**
   * The first change for each path, in order of first mention: keep the head,
   * drop every later change to the same path, continue with the rest.
   */
  function Distinct(cs: seq<Change>): seq<Change>
    decreases |cs|
  {
    if cs == [] then [] else [cs[0]] + Distinct(Without(cs[1..], cs[0].path))
  }

  /** The paths of the changes whose status is (or is not) D, in order. */
  function PathsOf(cs: seq<Change>, deleted: bool): seq<string>
    decreases |cs|
  {
    if cs == [] then []
    else (if (cs[0].kind == Deleted) == deleted then [cs[0].path] else []) + PathsOf(cs[1..], deleted)
  }

  lemma {:induction false} WithoutSnoc(cs: seq<Change>, c: Change, p: string)
    ensures Without(cs + [c], p) == Without(cs, p) + (if c.path == p then [] else [c])
    decreases |cs|
  {
    if cs == [] {
      assert [] + [c] == [c];
    } else {
      assert (cs + [c])[1..] == cs[1..] + [c];
      WithoutSnoc(cs[1..], c, p);
    }
  }

  lemma {:induction false} PathsOfSnoc(cs: seq<Change>, c: Change, deleted: bool)
    ensures PathsOf(cs + [c], deleted) ==
      PathsOf(cs, deleted) + (if (c.kind == Deleted) == deleted then [c.path] else [])
    decreases |cs|
  {
    if cs == [] {
      assert [] + [c] == [c];
    } else {
      assert (cs + [c])[1..] == cs[1..] + [c];
      PathsOfSnoc(cs[1..], c, deleted);
    }
  }

  lemma {:induction false} FirstKindWithout(cs: seq<Change>, q: string, p: string)
    requires p != q
    ensures FirstKind(Without(cs, q), p) == FirstKind(cs, p)
    decreases |cs|
  {
    if cs != [] {
      FirstKindWithout(cs[1..], q, p);
      if cs[0].path != q {
        assert Without(cs, q) == [cs[0]] + Without(cs[1..], q);
        assert ([cs[0]] + Without(cs[1..], q))[1..] == Without(cs[1..], q);
      } else {
        assert Without(cs, q) == [] + Without(cs[1..], q);
        assert [] + Without(cs[1..], q) == Without(cs[1..], q);
      }
    }
  }

  /** Appending a change extends Distinct only when its path is new. */
  lemma {:induction false} DistinctSnoc(cs: seq<Change>, c: Change)
    ensures Distinct(cs + [c]) ==
      if FirstKind(cs, c.path).Some? then Distinct(cs) else Distinct(cs) + [c]
    decreases |cs|
  {
    if cs == [] {
      assert [] + [c] == [c];
    } else {
      var q := cs[0].path;
      assert (cs + [c])[1..] == cs[1..] + [c];
      WithoutSnoc(cs[1..], c, q);
      var w := Without(cs[1..], q);
      if c.path != q {
        DistinctSnoc(w, c);
        FirstKindWithout(cs[1..], q, c.path);
        assert w + [c] == Without(cs[1..] + [c], q);
      } else {
        assert w + [] == w;
      }
    }
  }

  /**
   * The order of the lists: `modified` holds the first-seen paths whose first
   * status is A or M, and `deleted` those whose first status is D, each in
   * order of first mention.
   */
  lemma {:induction false} ClassifyInFirstSeenOrder(lines: seq<string>)
    ensures Classify(lines) == Classification(
      PathsOf(Distinct(Changes(lines)), false),
      PathsOf(Distinct(Changes(lines)), true))
    decreases |lines|
  {
    if lines != [] {
      var init, line := lines[..|lines| - 1], lines[|lines| - 1];
      assert lines == init + [line];
      ClassifySnoc(init, line);
      ClassifyInFirstSeenOrder(init);
      match ParseLine(line)
      case None =>
        assert Step(Classify(init), line) == Classify(init);
        assert Changes(lines) == Changes(init) + [];
        assert Changes(init) + [] == Changes(init);
      case Some(ch) =>
        assert Changes(lines) == Changes(init) + [ch];
        assert Classify(lines) == Record(Classify(init), ch);
        var cs := Changes(init);
        ClassifyFirstWins(init, ch.path);
        DistinctSnoc(cs, ch);
        PathsOfSnoc(Distinct(cs), ch, false);
        PathsOfSnoc(Distinct(cs), ch, true);
        var fk := FirstKind(cs, ch.path);
        KindCases(fk);
        if !fk.Some? {
          assert !Classified(Classify(init), ch.path);
          assert PathsOf(Distinct(cs), ch.kind != Deleted) + [] == PathsOf(Distinct(cs), ch.kind != Deleted);
        }
    }
  }
}
