/**
 * The `_changelog.txt` file written at the end of GitExporter::makeDiff:
 * eleven entries joined by "\r\n" — a title, the counts of commits and of
 * modified and deleted files, and the two path lists, each list itself
 * joined by "\r\n" — with a line of forty dashes between the sections.
 */
module Changelog {
  import opened Php

  /** The line between sections: forty '-' characters. */
  const Separator: string := "----------------------------------------"

  lemma SeparatorShape()
    ensures |Separator| == 40
    ensures forall i :: 0 <= i < |Separator| ==> Separator[i] == '-'
  {
  }

  /** The seven entries before the list of modified paths. */
  function Header(since: string, until: string, commits: nat, modified: nat, deleted: nat): seq<string>
  {
    [ "Diff from \"" + since + "\" to \"" + until + "\""
    , Separator
    , IntToString(commits) + " commits"
    , IntToString(modified) + " modified file(s)"
    , IntToString(deleted) + " deleted file(s)"
    , Separator
    , "Modified files:"
    ]
  }

  /** The eleven entries of the changelog, in order. */
  function Entries(since: string, until: string, commits: nat, modified: seq<string>, deleted: seq<string>): (r: seq<string>)
    ensures |r| == 11
  {
    Header(since, until, commits, |modified|, |deleted|)
      + [Implode(CrLf, modified), Separator, "Deleted files:", Implode(CrLf, deleted)]
  }

  /**
   * The text of `_changelog.txt`: it opens with the line naming the two
   * references and closes with a separator, "Deleted files:" and the deleted
   * paths, each line ended by "\r\n" but the last.
   */
  function Text(since: string, until: string, commits: nat, modified: seq<string>, deleted: seq<string>): (r: string)
    ensures "Diff from \"" + since + "\" to \"" + until + "\"" + CrLf <= r
    ensures var last := CrLf + Separator + CrLf + "Deleted files:" + CrLf + Implode(CrLf, deleted);
      |last| <= |r| && r[|r| - |last|..] == last
  {
    var e := Entries(since, until, commits, modified, deleted);
    ImplodeEnds(CrLf, e);
    Implode(CrLf, e)
  }

  /** An empty path list still occupies one (empty) line. */
  function Listed(paths: seq<string>): (r: seq<string>)
    ensures |r| >= 1
  {
    if paths == [] then [""] else paths
  }

  /**
   * The counts: the third to fifth entries start with decimal numerals whose
   * values are the number of commits, of modified paths and of deleted paths.
   */
  lemma Counts(since: string, until: string, commits: nat, modified: seq<string>, deleted: seq<string>)
    ensures var r := Entries(since, until, commits, modified, deleted);
      && r[1] == r[5] == r[8] == Separator
      && (exists d :: IsNumeral(d) && DecimalValue(d) == commits && r[2] == d + " commits")
      && (exists d :: IsNumeral(d) && DecimalValue(d) == |modified| && r[3] == d + " modified file(s)")
      && (exists d :: IsNumeral(d) && DecimalValue(d) == |deleted| && r[4] == d + " deleted file(s)")
  {
    var r := Entries(since, until, commits, modified, deleted);
    assert IsNumeral(IntToString(commits)) && r[2] == IntToString(commits) + " commits";
    assert IsNumeral(IntToString(|modified|)) && r[3] == IntToString(|modified|) + " modified file(s)";
    assert IsNumeral(IntToString(|deleted|)) && r[4] == IntToString(|deleted|) + " deleted file(s)";
  }

  /** Decimal digits without a leading zero, as PHP prints a count. */
  predicate IsNumeral(d: string) {
    && |d| >= 1
    && (forall i :: 0 <= i < |d| ==> '0' <= d[i] <= '9')
    && (|d| > 1 ==> d[0] != '0')
  }

  /**
   * Line by line: the changelog is the header, then every modified path on a
   * line of its own in aggregation order, a separator, "Deleted files:", and
   * every deleted path on a line of its own; an empty list leaves one empty
   * line.
   */
  lemma ChangelogLines(since: string, until: string, commits: nat, modified: seq<string>, deleted: seq<string>)
    ensures Text(since, until, commits, modified, deleted) == Implode(CrLf,
      Header(since, until, commits, |modified|, |deleted|) + Listed(modified)
        + [Separator, "Deleted files:"] + Listed(deleted))
  {
    var h := Header(since, until, commits, |modified|, |deleted|);
    var m, d := Listed(modified), Listed(deleted);
    ImplodeListed(modified);
    ImplodeListed(deleted);
    var tail := [Separator, "Deleted files:", Implode(CrLf, d)];
    assert Entries(since, until, commits, modified, deleted) == h + [Implode(CrLf, m)] + tail;
    ImplodeFlatten(CrLf, h, m, tail);
    var front := h + m + [Separator, "Deleted files:"];
    assert h + m + tail == front + [Implode(CrLf, d)];
    ImplodeLast(CrLf, front, d);
    assert front + d == h + m + [Separator, "Deleted files:"] + d;
  }

  lemma ImplodeListed(paths: seq<string>)
    ensures Implode(CrLf, Listed(paths)) == Implode(CrLf, paths)
  {
  }

  /**
   * An implode of four or more pieces opens with the first piece and the
   * glue, and closes with the last three pieces, each after a glue.
   */
  lemma ImplodeEnds(glue: string, xs: seq<string>)
    requires |xs| >= 4
    ensures xs[0] + glue <= Implode(glue, xs)
    ensures var n, t := |xs|, Implode(glue, xs);
      var last := glue + xs[n - 3] + glue + xs[n - 2] + glue + xs[n - 1];
      |last| <= |t| && t[|t| - |last|..] == last
  {
    var n := |xs|;
    var a, b, c := xs[n - 3], xs[n - 2], xs[n - 1];
    var last := glue + a + glue + b + glue + c;
    ImplodeCloses(glue, xs[..n - 3], a, b, c);
    assert xs[..n - 3] + [a, b, c] == xs;
    SuffixOfJoin(Implode(glue, xs[..n - 3]), last);
  }

  lemma ImplodeCloses(glue: string, front: seq<string>, a: string, b: string, c: string)
    requires |front| >= 1
    ensures Implode(glue, front + [a, b, c]) == Implode(glue, front) + (glue + a + glue + b + glue + c)
  {
    ImplodeAppend(glue, front, [a, b, c]);
    ImplodeThree(glue, a, b, c);
  }

  lemma SuffixOfJoin(s: string, t: string)
    ensures (s + t)[|s + t| - |t|..] == t
  {
  }

  lemma ImplodeThree(glue: string, a: string, b: string, c: string)
    ensures Implode(glue, [a, b, c]) == a + glue + (b + glue + c)
  {
    assert [b, c][1..] == [c];
    assert Implode(glue, [b, c]) == b + glue + c;
    assert [a, b, c][1..] == [b, c];
  }

  /** Imploding a last piece that is itself imploded with the same glue. */
  lemma ImplodeLast(glue: string, xs: seq<string>, ys: seq<string>)
    requires |xs| >= 1 && |ys| >= 1
    ensures Implode(glue, xs + [Implode(glue, ys)]) == Implode(glue, xs + ys)
  {
    ImplodeAppend(glue, xs, [Implode(glue, ys)]);
    ImplodeAppend(glue, xs, ys);
  }
}
