/**
 * The PHP string built-ins GitExporter relies on, over strings seen as
 * sequences of characters: `empty`, `explode` (with a one-character
 * delimiter, the only kind the tool uses), `implode`, `strpos(...) !== false`,
 * `str_replace($needle, '', ...)`, `trim`, `strtolower` and the conversion of
 * a count to its decimal text.
 */
module Php {

  /** "\r\n", the glue GitExporter joins command output and changelog lines with. */
  const CrLf: string := "\r\n"

  /** PHP's `empty()` on a string value: true for "" and, notoriously, for "0". */
  predicate Empty(s: string) {
    s == "" || s == "0"
  }

  /** `implode($glue, $pieces)`: the pieces with the glue between neighbours. */
  function Implode(glue: string, pieces: seq<string>): string
  {
    if |pieces| == 0 then ""
    else if |pieces| == 1 then pieces[0]
    else pieces[0] + glue + Implode(glue, pieces[1..])
  }

  /**
   * `explode($sep, $s)` for a one-character delimiter. The contract pins the
   * result down completely (see ImplodeInjective): at least one piece, no
   * piece holds the delimiter, and gluing the pieces back gives `s`.
   */
  function Explode(sep: char, s: string): (r: seq<string>)
    ensures |r| >= 1
    ensures forall i :: 0 <= i < |r| ==> sep !in r[i]
    ensures Implode([sep], r) == s
    decreases |s|
  {
    if s == [] then [""]
    else
      var rest := Explode(sep, s[1..]);
      if s[0] == sep then
        assert ([""] + rest)[1..] == rest;
        [""] + rest
      else
        var r := [[s[0]] + rest[0]] + rest[1..];
        assert |rest| > 1 ==> r[1..] == rest[1..];
        r
  }

  /** Implode over a concatenation: the two halves are joined by one more glue. */
  lemma {:induction false} ImplodeAppend(glue: string, xs: seq<string>, ys: seq<string>)
    requires |xs| >= 1 && |ys| >= 1
    ensures Implode(glue, xs + ys) == Implode(glue, xs) + glue + Implode(glue, ys)
    decreases |xs|
  {
    if |xs| == 1 {
      assert (xs + ys)[1..] == ys;
    } else {
      assert (xs + ys)[1..] == xs[1..] + ys;
      ImplodeAppend(glue, xs[1..], ys);
    }
  }

  /** Imploding an imploded run of pieces is the same as imploding the run in place. */
  lemma ImplodeFlatten(glue: string, xs: seq<string>, ys: seq<string>, zs: seq<string>)
    requires |xs| >= 1 && |ys| >= 1 && |zs| >= 1
    ensures Implode(glue, xs + [Implode(glue, ys)] + zs) == Implode(glue, xs + ys + zs)
  {
    ImplodeAppend(glue, xs, [Implode(glue, ys)]);
    ImplodeAppend(glue, xs + [Implode(glue, ys)], zs);
    ImplodeAppend(glue, xs, ys);
    ImplodeAppend(glue, xs + ys, zs);
  }

  /** A delimiter-free text followed by the delimiter is determined by the whole. */
  lemma SplitAtFirst(c: char, a: string, b: string, a': string, b': string)
    requires c !in a && c !in a'
    requires a + [c] + b == a' + [c] + b'
    ensures a == a' && b == b'
  {
    var s, s' := a + [c] + b, a' + [c] + b';
    FirstOccurrence(a, c, b);
    FirstOccurrence(a', c, b');
    assert |a| == |a'|;
    assert a == s[..|a|] && a' == s'[..|a'|];
    assert b == s[|a| + 1..] && b' == s'[|a'| + 1..];
  }

  /** In `x + [c] + y` with `c` not in `x`, the first `c` sits at index `|x|`. */
  lemma FirstOccurrence(x: string, c: char, y: string)
    requires c !in x
    ensures (x + [c] + y)[|x|] == c
    ensures forall k :: 0 <= k < |x| ==> (x + [c] + y)[k] != c
  {
    var s := x + [c] + y;
    forall k | 0 <= k < |x| ensures s[k] != c {
      assert s[k] == x[k];
    }
  }

  /** Imploding two or more pieces puts the delimiter right after the first. */
  lemma ImplodeFirstGlue(sep: char, xs: seq<string>)
    requires |xs| > 1
    ensures Implode([sep], xs) == xs[0] + [sep] + Implode([sep], xs[1..])
    ensures sep in Implode([sep], xs)
  {
    assert Implode([sep], xs)[|xs[0]|] == sep;
  }

  /** Imploding delimiter-free pieces with that delimiter loses nothing. */
  lemma {:induction false} ImplodeInjective(sep: char, xs: seq<string>, ys: seq<string>)
    requires |xs| >= 1 && |ys| >= 1
    requires forall i :: 0 <= i < |xs| ==> sep !in xs[i]
    requires forall i :: 0 <= i < |ys| ==> sep !in ys[i]
    requires Implode([sep], xs) == Implode([sep], ys)
    ensures xs == ys
    decreases |xs|
  {
    if |xs| > 1 {
      ImplodeFirstGlue(sep, xs);
    }
    if |ys| > 1 {
      ImplodeFirstGlue(sep, ys);
    }
    if |xs| == 1 {
      assert |ys| == 1;
    } else {
      assert |ys| > 1;
      SplitAtFirst(sep, xs[0], Implode([sep], xs[1..]), ys[0], Implode([sep], ys[1..]));
      ImplodeInjective(sep, xs[1..], ys[1..]);
      assert xs == [xs[0]] + xs[1..] && ys == [ys[0]] + ys[1..];
    }
  }

  /** `explode` undoes `implode` on delimiter-free pieces. */
  lemma ExplodeImplode(sep: char, xs: seq<string>)
    requires |xs| >= 1
    requires forall i :: 0 <= i < |xs| ==> sep !in xs[i]
    ensures Explode(sep, Implode([sep], xs)) == xs
  {
    ImplodeInjective(sep, Explode(sep, Implode([sep], xs)), xs);
  }

  /** Exploding splits off the text before the first delimiter as the first piece. */
  lemma ExplodeCons(sep: char, a: string, b: string)
    requires sep !in a
    ensures Explode(sep, a + [sep] + b) == [a] + Explode(sep, b)
  {
    var rest := Explode(sep, b);
    ImplodeAppend([sep], [a], rest);
    ExplodeImplode(sep, [a] + rest);
  }

  /** `substr($s, $i, |n|) == $n`: `n` occurs in `s` starting at index `i`. */
  predicate OccursAt(s: string, n: string, i: int) {
    0 <= i && i + |n| <= |s| && s[i..i + |n|] == n
  }

  /** `strpos($s, $n) !== false`: `n` occurs somewhere in `s`. */
  predicate Contains(s: string, n: string) {
    exists i | 0 <= i <= |s| - |n| :: OccursAt(s, n, i)
  }

  /**
   * An occurrence of `n` in `a + g + b` cannot overlap the middle part when `n`
   * shares no character with it, so it lies within `a` or within `b`.
   */
  lemma ContainsAround(a: string, g: string, b: string, n: string)
    requires |n| >= 1 && |g| >= 1
    requires forall k :: 0 <= k < |n| ==> n[k] !in g
    ensures Contains(a + g + b, n) <==> Contains(a, n) || Contains(b, n)
  {
    if Contains(a + g + b, n) {
      ContainsSplits(a, g, b, n);
    }
    if Contains(a, n) {
      ContainsInPart([], a, g + b, n);
      assert [] + a + (g + b) == a + g + b;
    }
    if Contains(b, n) {
      ContainsInPart(a + g, b, [], n);
      assert a + g + b + [] == a + g + b;
    }
  }

  /** An occurrence in a part is an occurrence in the whole. */
  lemma ContainsInPart(pre: string, x: string, post: string, n: string)
    requires Contains(x, n)
    ensures Contains(pre + x + post, n)
  {
    var s := pre + x + post;
    var j :| 0 <= j <= |x| - |n| && OccursAt(x, n, j);
    var i := j + |pre|;
    assert s[i..i + |n|] == x[j..j + |n|];
    assert OccursAt(s, n, i);
  }

  /** An occurrence that cannot overlap the glue lies in one of the two sides. */
  lemma ContainsSplits(a: string, g: string, b: string, n: string)
    requires |n| >= 1 && |g| >= 1
    requires forall k :: 0 <= k < |n| ==> n[k] !in g
    requires Contains(a + g + b, n)
    ensures Contains(a, n) || Contains(b, n)
  {
    var s := a + g + b;
    var i :| 0 <= i <= |s| - |n| && OccursAt(s, n, i);
    // the first position of the occurrence that is not in `a` cannot be in `g`
    var p := if i < |a| then |a| else i;
    assert p < i + |n| ==> s[p] == n[p - i] && n[p - i] !in g;
    assert p < |a| + |g| ==> s[p] == g[p - |a|] && s[p] in g;
    if i + |n| <= |a| {
      assert a[i..i + |n|] == s[i..i + |n|];
      assert OccursAt(a, n, i);
    } else {
      assert p < i + |n|;
      assert p < |a| + |g| ==> false;
      assert i >= |a| + |g|;
      var j := i - |a| - |g|;
      assert s[|a| + |g|..] == b;
      var inB, inS := b[j..j + |n|], s[i..i + |n|];
      forall k | 0 <= k < |n|
        ensures inB[k] == inS[k]
      {
        assert s[i + k] == s[|a| + |g|..][j + k];
      }
      assert inB == inS;
      assert OccursAt(b, n, j);
    }
  }

  /**
   * A text free of carriage returns and line feeds occurs in lines joined by
   * "\r\n" exactly when it occurs in one of the lines.
   */
  lemma {:induction false} ContainsImplodeLines(lines: seq<string>, n: string)
    requires |n| >= 1
    requires '\r' !in n && '\n' !in n
    ensures Contains(Implode(CrLf, lines), n) <==> exists i :: 0 <= i < |lines| && Contains(lines[i], n)
    decreases |lines|
  {
    if |lines| == 0 {
      assert !Contains("", n);
    } else if |lines| == 1 {
      assert Contains(lines[0], n) ==> Contains(lines[0], n) && 0 < |lines|;
    } else {
      var rest := lines[1..];
      ContainsAround(lines[0], CrLf, Implode(CrLf, rest), n);
      ContainsImplodeLines(rest, n);
      if exists i :: 0 <= i < |rest| && Contains(rest[i], n) {
        var i :| 0 <= i < |rest| && Contains(rest[i], n);
        assert lines[i + 1] == rest[i];
      }
      if exists i :: 0 <= i < |lines| && Contains(lines[i], n) {
        var i :| 0 <= i < |lines| && Contains(lines[i], n);
        if i > 0 {
          assert rest[i - 1] == lines[i];
        }
      }
    }
  }

  /**
   * `str_replace($n, '', $s)`: scans left to right and drops every
   * non-overlapping occurrence of `n`; an empty needle changes nothing.
   */
  function RemoveAll(s: string, n: string): (r: string)
    ensures |r| <= |s|
    ensures !Contains(s, n) ==> r == s
    decreases |s|
  {
    if n == [] || |s| < |n| then s
    else if s[..|n|] == n then
      assert OccursAt(s, n, 0);
      RemoveAll(s[|n|..], n)
    else
      ContainsInTail(s, n);
      assert s == [s[0]] + s[1..];
      [s[0]] + RemoveAll(s[1..], n)
  }

  /** An occurrence in the tail of a text is an occurrence in the text. */
  lemma ContainsInTail(s: string, n: string)
    requires s != []
    ensures Contains(s[1..], n) ==> Contains(s, n)
  {
    if Contains(s[1..], n) {
      var i :| 0 <= i <= |s[1..]| - |n| && OccursAt(s[1..], n, i);
      assert s[i + 1..i + 1 + |n|] == s[1..][i..i + |n|];
      assert OccursAt(s, n, i + 1);
    }
  }

  /** Removing "--" leaves no "--" behind: a kept '-' is never followed by another. */
  lemma {:induction false} RemoveDoubleDash(s: string)
    ensures !Contains(RemoveAll(s, "--"), "--")
    decreases |s|
  {
    var r := RemoveAll(s, "--");
    if |s| < 2 {
    } else if s[..2] == "--" {
      RemoveDoubleDash(s[2..]);
    } else {
      var t := RemoveAll(s[1..], "--");
      RemoveDoubleDash(s[1..]);
      assert r == [s[0]] + t;
      forall i | 0 <= i <= |r| - 2
        ensures !OccursAt(r, "--", i)
      {
        if i == 0 {
          if s[0] == '-' {
            // the kept '-' is not followed by another: t starts with s[1]
            assert s[1] != '-';
            TailKeepsHead(s[1..]);
          }
        } else {
          assert r[i..i + 2] == t[i - 1..i + 1];
          assert !OccursAt(t, "--", i - 1);
        }
      }
    }
  }

  /** A text that does not start with '-' keeps its first character. */
  lemma TailKeepsHead(s: string)
    requires s != [] && s[0] != '-'
    ensures RemoveAll(s, "--") != [] && RemoveAll(s, "--")[0] == s[0]
  {
    if |s| >= 2 {
      assert s[..2] != "--";
    }
  }

  /** The characters PHP's `trim` strips by default: " \t\n\r\0\x0B". */
  predicate IsTrimmed(c: char) {
    c == ' ' || c == '\t' || c == '\n' || c == '\r' || c == '\0' || c == '\U{0B}'
  }

  predicate AllTrimmed(s: string) {
    forall i :: 0 <= i < |s| ==> IsTrimmed(s[i])
  }

  /** `ltrim`: drops the leading trimmed characters. */
  function TrimLeft(s: string): (r: string)
    ensures |r| <= |s| && r == s[|s| - |r|..]
    ensures AllTrimmed(s[..|s| - |r|])
    ensures r != [] ==> !IsTrimmed(r[0])
    decreases |s|
  {
    if s != [] && IsTrimmed(s[0]) then TrimLeft(s[1..]) else s
  }

  /** `rtrim`: drops the trailing trimmed characters. */
  function TrimRight(s: string): (r: string)
    ensures |r| <= |s| && r == s[..|r|]
    ensures AllTrimmed(s[|r|..])
    ensures r != [] ==> !IsTrimmed(r[|r| - 1])
    decreases |s|
  {
    if s != [] && IsTrimmed(s[|s| - 1]) then TrimRight(s[..|s| - 1]) else s
  }

  /** `trim`: both ends. */
  function Trim(s: string): string {
    TrimRight(TrimLeft(s))
  }

  /**
   * Trim recovers the core of any padded text: whatever trimmed characters
   * surround a core that neither starts nor ends with one, Trim returns that core.
   */
  lemma TrimPadded(pre: string, core: string, post: string)
    requires AllTrimmed(pre) && AllTrimmed(post)
    requires core == [] || (!IsTrimmed(core[0]) && !IsTrimmed(core[|core| - 1]))
    ensures Trim(pre + core + post) == core
  {
    if core == [] {
      assert pre + core + post == (pre + post) + [];
      TrimLeftPadded(pre + post, []);
    } else {
      assert pre + core + post == pre + (core + post);
      TrimLeftPadded(pre, core + post);
      TrimRightPadded(core, post);
    }
  }

  lemma {:induction false} TrimLeftPadded(pre: string, s: string)
    requires AllTrimmed(pre)
    requires s == [] || !IsTrimmed(s[0])
    ensures TrimLeft(pre + s) == s
    decreases |pre|
  {
    if pre == [] {
      assert pre + s == s;
    } else {
      assert (pre + s)[1..] == pre[1..] + s;
      TrimLeftPadded(pre[1..], s);
    }
  }

  lemma {:induction false} TrimRightPadded(s: string, post: string)
    requires AllTrimmed(post)
    requires s == [] || !IsTrimmed(s[|s| - 1])
    ensures TrimRight(s + post) == s
    decreases |post|
  {
    if post == [] {
      assert s + post == s;
    } else {
      var t := s + post;
      assert t[..|t| - 1] == s + post[..|post| - 1];
      TrimRightPadded(s, post[..|post| - 1]);
    }
  }

  /** ASCII lower-casing of one character. */
  function LowerChar(c: char): char {
    if 'A' <= c <= 'Z' then (c as int - 'A' as int + 'a' as int) as char else c
  }

  /** `strtolower`, ASCII letters only. */
  function ToLower(s: string): (r: string)
    ensures |r| == |s|
    ensures forall i :: 0 <= i < |s| ==> r[i] == LowerChar(s[i])
  {
    seq(|s|, i requires 0 <= i < |s| => LowerChar(s[i]))
  }

  /**
   * The result holds no upper-case ASCII letter, lower-casing it again changes
   * nothing, and a character that is not an upper-case letter is kept.
   */
  lemma ToLowerLowers(s: string)
    ensures forall i :: 0 <= i < |s| ==> !('A' <= ToLower(s)[i] <= 'Z')
    ensures forall i :: 0 <= i < |s| && !('A' <= s[i] <= 'Z') ==> ToLower(s)[i] == s[i]
    ensures ToLower(ToLower(s)) == ToLower(s)
  {
  }

  /** The decimal digit of a value below ten. */
  function Digit(d: nat): (c: char)
    requires d < 10
    ensures '0' <= c <= '9' && c as int - '0' as int == d
  {
    "0123456789"[d]
  }

  /** The value of a string of decimal digits. */
  function DecimalValue(s: string): nat
    requires forall i :: 0 <= i < |s| ==> '0' <= s[i] <= '9'
  {
    if s == [] then 0
    else 10 * DecimalValue(s[..|s| - 1]) + (s[|s| - 1] as int - '0' as int)
  }

  /**
   * PHP's conversion of a non-negative integer to text (as in
   * `count($x) . ' commits'`): decimal digits without leading zeros whose
   * value is `n`.
   */
  function IntToString(n: nat): (r: string)
    ensures |r| >= 1
    ensures forall i :: 0 <= i < |r| ==> '0' <= r[i] <= '9'
    ensures |r| > 1 ==> r[0] != '0'
    ensures DecimalValue(r) == n
    decreases n
  {
    if n < 10 then [Digit(n)]
    else
      var init := IntToString(n / 10);
      var r := init + [Digit(n % 10)];
      assert r[..|r| - 1] == init;
      assert DecimalValue(r) == 10 * (n / 10) + n % 10;
      r
  }
}
