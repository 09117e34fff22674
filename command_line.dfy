/**
 * GitExporter::parseCommandLineParameters and the choice made by
 * GitExporter::exec. The program name is dropped; an argument starting with
 * "--" is an option, whose every "--" is removed before it is split on '='
 * into a name and a value (the later pieces joined again with '='); the
 * other arguments fill the command, while it is PHP-empty, and then the
 * parameters, in order.
 */
module CommandLine {
  import opened Util
  import opened Php

  /** The parsed arguments: a command, positional parameters and named options. */
  datatype UserInput = UserInput(command: string, params: seq<string>, options: map<string, string>)

  /** `strpos($value, '--') === 0`. */
  predicate IsOption(arg: string) {
    |arg| >= 2 && arg[..2] == "--"
  }

  /**
   * The name and the value of an option argument. Gluing them back with '='
   * gives the argument without its "--" runs; the name holds no '='.
   */
  function OptionOf(arg: string): (r: (string, string))
    ensures '=' !in r.0
    ensures var bare := RemoveAll(arg, "--");
      if '=' in bare then bare == r.0 + "=" + r.1 else bare == r.0 && r.1 == ""
  {
    var pieces := Explode('=', RemoveAll(arg, "--"));
    if |pieces| > 1 then ImplodeFirstGlue('=', pieces); (pieces[0], Implode("=", pieces[1..]))
    else (pieces[0], Implode("=", pieces[1..]))
  }

  /** An option argument that names option `k`. */
  predicate SetsOption(arg: string, k: string) {
    IsOption(arg) && OptionOf(arg).0 == k
  }

  /** One argument of the loop. */
  function Absorb(input: UserInput, arg: string): UserInput {
    if IsOption(arg) then
      input.(options := input.options[OptionOf(arg).0 := OptionOf(arg).1])
    else if Empty(input.command) then input.(command := arg)
    else input.(params := input.params + [arg])
  }

  /** The arguments after the program name, absorbed in order. */
  function Parse(args: seq<string>): UserInput
    decreases |args|
  {
    if args == [] then UserInput("", [], map[])
    else Absorb(Parse(args[..|args| - 1]), args[|args| - 1])
  }

  lemma ParseSnoc(args: seq<string>, arg: string)
    ensures Parse(args + [arg]) == Absorb(Parse(args), arg)
  {
    assert (args + [arg])[..|args|] == args;
  }

  /** `parseCommandLineParameters($argv)`: drop the program name, then one pass. */
  method ParseCommandLineParameters(argv: seq<string>) returns (input: UserInput)
    ensures input == Parse(if argv == [] then [] else argv[1..])
  {
    // array_shift on an empty array leaves it empty
    var args := if argv == [] then [] else argv[1..];
    input := UserInput("", [], map[]);
    for i := 0 to |args|
      invariant input == Parse(args[..i])
    {
      var value := args[i];
      if IsOption(value) {
        var pieces := Explode('=', RemoveAll(value, "--"));
        var option := pieces[0];
        input := input.(options := input.options[option := Implode("=", pieces[1..])]);
      } else if Empty(input.command) {
        input := input.(command := value);
      } else {
        input := input.(params := input.params + [value]);
      }
      ParseSnoc(args[..i], args[i]);
      assert args[..i + 1] == args[..i] + [args[i]];
    }
    assert args[..|args|] == args;
  }

  /**
   * `--name=value` yields that name and value when the name holds neither
   * '=' nor "--" and the value holds no "--"; in particular `--k=v1=v2` gives
   * the value `v1=v2`.
   */
  lemma OptionValue(name: string, value: string)
    requires '=' !in name
    requires !Contains(name, "--") && !Contains(value, "--")
    ensures OptionOf("--" + name + "=" + value) == (name, value)
  {
    var arg := "--" + name + "=" + value;
    var rest := name + "=" + value;
    assert arg == "--" + rest;
    assert arg[..2] == "--" && arg[2..] == rest;
    ContainsAround(name, "=", value, "--");
    assert RemoveAll(arg, "--") == rest;
    ExplodeCons('=', name, value);
    assert name + ['='] + value == rest;
  }

  /** A flag `--name` yields that name and an empty value. */
  lemma OptionFlag(name: string)
    requires '=' !in name && !Contains(name, "--")
    ensures OptionOf("--" + name) == (name, "")
  {
    var arg := "--" + name;
    assert arg[..2] == "--" && arg[2..] == name;
    assert RemoveAll(arg, "--") == name;
  }

  /** The non-option arguments, in order. */
  function Positionals(args: seq<string>): seq<string>
    decreases |args|
  {
    if args == [] then []
    else Positionals(args[..|args| - 1]) + (if IsOption(args[|args| - 1]) then [] else [args[|args| - 1]])
  }

  /** The index of the first argument PHP does not count as empty. */
  function FirstNonEmpty(ps: seq<string>): (r: Option<nat>)
    ensures r.None? <==> forall j :: 0 <= j < |ps| ==> Empty(ps[j])
    ensures r.Some? ==> r.value < |ps| && !Empty(ps[r.value])
    ensures r.Some? ==> forall j :: 0 <= j < r.value ==> Empty(ps[j])
    decreases |ps|
  {
    if ps == [] then None
    else if !Empty(ps[0]) then Some(0)
    else
      var t := FirstNonEmpty(ps[1..]);
      assert forall j :: 1 <= j < |ps| ==> ps[j] == ps[1..][j - 1];
      if t.None? then None else Some(t.value + 1)
  }

  lemma {:induction false} FirstNonEmptySnoc(ps: seq<string>, a: string)
    ensures FirstNonEmpty(ps + [a]) ==
      if FirstNonEmpty(ps).Some? then FirstNonEmpty(ps)
      else if !Empty(a) then Some(|ps|)
      else None
    decreases |ps|
  {
    if ps != [] {
      assert (ps + [a])[1..] == ps[1..] + [a];
      FirstNonEmptySnoc(ps[1..], a);
    }
  }

  /**
   * The command is the first non-option argument that is not PHP-empty and
   * the parameters are all the non-option arguments after it, in order. When
   * every non-option argument is empty ("" or "0"), each one overwrote the
   * command in turn, so the last one is the command and there are no
   * parameters.
   */
  lemma {:induction false} ParsePositionals(args: seq<string>)
    ensures var ps, r := Positionals(args), Parse(args);
      match FirstNonEmpty(ps)
      case Some(f) => r.command == ps[f] && r.params == ps[f + 1..]
      case None => r.params == [] && r.command == (if ps == [] then "" else ps[|ps| - 1])
    decreases |args|
  {
    if args != [] {
      var init, arg := args[..|args| - 1], args[|args| - 1];
      assert args == init + [arg];
      ParseSnoc(init, arg);
      ParsePositionals(init);
      if IsOption(arg) {
        assert Positionals(args) == Positionals(init) + [];
        assert Positionals(init) + [] == Positionals(init);
      } else {
        assert Positionals(args) == Positionals(init) + [arg];
        PositionalStep(Positionals(init), Parse(init), arg);
      }
    }
  }

  /** One more non-option argument keeps the relation of ParsePositionals. */
  lemma PositionalStep(ps: seq<string>, r: UserInput, arg: string)
    requires !IsOption(arg)
    requires match FirstNonEmpty(ps)
      case Some(f) => r.command == ps[f] && r.params == ps[f + 1..]
      case None => r.params == [] && r.command == (if ps == [] then "" else ps[|ps| - 1])
    ensures var ps', r' := ps + [arg], Absorb(r, arg);
      match FirstNonEmpty(ps')
      case Some(f) => r'.command == ps'[f] && r'.params == ps'[f + 1..]
      case None => r'.params == [] && r'.command == ps'[|ps'| - 1]
  {
    var ps' := ps + [arg];
    FirstNonEmptySnoc(ps, arg);
    match FirstNonEmpty(ps)
    case Some(f) =>
      assert ps'[f] == ps[f];
      assert ps'[f + 1..] == ps[f + 1..] + [arg];
    case None =>
      assert ps'[|ps|] == arg;
      assert ps'[|ps| + 1..] == [];
  }

  /** The position of the last option argument naming `k`, if any. */
  function LastOption(args: seq<string>, k: string): (r: Option<nat>)
    ensures r.None? <==> forall i :: 0 <= i < |args| ==> !SetsOption(args[i], k)
    ensures r.Some? ==> r.value < |args| && SetsOption(args[r.value], k)
    ensures r.Some? ==> forall j :: r.value < j < |args| ==> !SetsOption(args[j], k)
    decreases |args|
  {
    if args == [] then None
    else
      var init, last := args[..|args| - 1], args[|args| - 1];
      assert args == init + [last];
      if SetsOption(last, k) then Some(|args| - 1) else LastOption(init, k)
  }

  /** The last option argument for a name wins; an option absent from the arguments is unset. */
  lemma {:induction false} ParseOptions(args: seq<string>, k: string)
    ensures k in Parse(args).options <==> LastOption(args, k).Some?
    ensures k in Parse(args).options ==>
      Parse(args).options[k] == OptionOf(args[LastOption(args, k).value]).1
    decreases |args|
  {
    if args != [] {
      var init, arg := args[..|args| - 1], args[|args| - 1];
      assert args == init + [arg];
      ParseSnoc(init, arg);
      ParseOptions(init, k);
      if !SetsOption(arg, k) && LastOption(init, k).Some? {
        assert args[LastOption(init, k).value] == init[LastOption(init, k).value];
      }
    }
  }

  /** What GitExporter::exec does with the parsed arguments. */
  datatype Action = ShowHelp | ShowVersion | MakeDiff | NothingToDo

  /** Help wins over any command; then "version", then "diff". */
  function Dispatch(input: UserInput): (a: Action)
    ensures a == ShowHelp <==> "help" in input.options
    ensures a == MakeDiff <==> "help" !in input.options && input.command == "diff"
  {
    if "help" in input.options then ShowHelp
    else if input.command == "version" then ShowVersion
    else if input.command == "diff" then MakeDiff
    else NothingToDo
  }

  /** Any `--help` (or `--help=...`) argument, anywhere, shows the help. */
  lemma HelpWins(argv: seq<string>, i: nat)
    requires 1 <= i < |argv| && SetsOption(argv[i], "help")
    ensures Dispatch(Parse(argv[1..])) == ShowHelp
  {
    var args := argv[1..];
    assert SetsOption(args[i - 1], "help");
    ParseOptions(args, "help");
  }

  /**
   * `<program> diff <since> <until>` with no options makes a diff between
   * the two given references, in the given order.
   */
  lemma DiffInvocation(program: string, since: string, until: string)
    requires !IsOption(since) && !IsOption(until)
    ensures var input := Parse([program, "diff", since, until][1..]);
      && Dispatch(input) == MakeDiff
      && input.params == [since, until]
  {
    assert [program, "diff", since, until][1..] == [] + ["diff"] + [since] + [until];
    assert "diff"[..2] == "di";
    ParseSnoc([], "diff");
    ParseSnoc([] + ["diff"], since);
    ParseSnoc([] + ["diff"] + [since], until);
  }
}
