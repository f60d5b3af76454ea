/**
 The argument parser: the command-line words, program name first, are
 folded into a `Config` holding the directory to list and nine
 independent one-letter flags.
 */
module Arguments {
  import opened Basics
  import opened Text

  /** The parsed command line: the directory to list and one boolean per flag letter. */
  datatype Config = Config(
    path: string,
    l: bool,
    a: bool,
    F: bool,
    h: bool,
    S: bool,
    R: bool,
    r: bool,
    t: bool,
    d: bool
  )

  /** The nine options of a `Config`, one per boolean field. */
  datatype Flag =
    | LongListing | ShowAll | Classify | HumanSizes | SortBySize
    | Recursive | ReverseOrder | SortByTime | ListDirectories

  /** The letter that selects each option on the command line. */
  function Letter(f: Flag): char {
    match f
    case LongListing => 'l'
    case ShowAll => 'a'
    case Classify => 'F'
    case HumanSizes => 'h'
    case SortBySize => 'S'
    case Recursive => 'R'
    case ReverseOrder => 'r'
    case SortByTime => 't'
    case ListDirectories => 'd'
  }

  /** The option a character selects, by the match of `Config::set_flag`; `None` for every other character. */
  function FlagOf(ch: char): (r: Option<Flag>)
    ensures r.Some? ==> Letter(r.value) == ch
  {
    match ch
    case 'l' => Some(LongListing)
    case 'a' => Some(ShowAll)
    case 'F' => Some(Classify)
    case 'h' => Some(HumanSizes)
    case 'S' => Some(SortBySize)
    case 'R' => Some(Recursive)
    case 'r' => Some(ReverseOrder)
    case 't' => Some(SortByTime)
    case 'd' => Some(ListDirectories)
    case _ => None
  }

  /** Every option's letter selects that option, so `FlagOf` and `Letter` are inverse. */
  lemma FlagOfLetter(f: Flag)
    ensures FlagOf(Letter(f)) == Some(f)
  {
  }

  /** A character selects option `f` exactly when it is `f`'s letter. */
  lemma FlagOfIff(ch: char, f: Flag)
    ensures FlagOf(ch) == Some(f) <==> ch == Letter(f)
  {
    FlagOfLetter(f);
  }

  /** The characters `set_flag` recognises. */
  predicate IsFlagLetter(ch: char) {
    FlagOf(ch).Some?
  }

  /** Whether option `f` is set in `c`. */
  predicate Has(c: Config, f: Flag) {
    match f
    case LongListing => c.l
    case ShowAll => c.a
    case Classify => c.F
    case HumanSizes => c.h
    case SortBySize => c.S
    case Recursive => c.R
    case ReverseOrder => c.r
    case SortByTime => c.t
    case ListDirectories => c.d
  }

  /** `c` with option `f` set: the field of `f` becomes true. */
  function Set(c: Config, f: Flag): (c': Config)
    ensures c'.path == c.path
    ensures Has(c', f)
  {
    match f
    case LongListing => c.(l := true)
    case ShowAll => c.(a := true)
    case Classify => c.(F := true)
    case HumanSizes => c.(h := true)
    case SortBySize => c.(S := true)
    case Recursive => c.(R := true)
    case ReverseOrder => c.(r := true)
    case SortByTime => c.(t := true)
    case ListDirectories => c.(d := true)
  }

  /** After setting option `f`, exactly `f` and the options set before are set. */
  lemma SetHas(c: Config, f: Flag, g: Flag)
    ensures Has(Set(c, f), g) == (Has(c, g) || g == f)
  {
    match f
    case LongListing =>
    case ShowAll =>
    case Classify =>
    case HumanSizes =>
    case SortBySize =>
    case Recursive =>
    case ReverseOrder =>
    case SortByTime =>
    case ListDirectories =>
  }

  /** A config is determined by its path and the options it has. */
  lemma ConfigExtensionality(c1: Config, c2: Config)
    requires c1.path == c2.path
    requires forall f :: Has(c1, f) == Has(c2, f)
    ensures c1 == c2
  {
    assert Has(c1, LongListing) == Has(c2, LongListing) && Has(c1, ShowAll) == Has(c2, ShowAll);
    assert Has(c1, Classify) == Has(c2, Classify) && Has(c1, HumanSizes) == Has(c2, HumanSizes);
    assert Has(c1, SortBySize) == Has(c2, SortBySize) && Has(c1, Recursive) == Has(c2, Recursive);
    assert Has(c1, ReverseOrder) == Has(c2, ReverseOrder) && Has(c1, SortByTime) == Has(c2, SortByTime);
    assert Has(c1, ListDirectories) == Has(c2, ListDirectories);
  }

  /** `Config::new`: the current directory, no option set. */
  function New(): (c: Config)
    ensures c.path == "."
    ensures forall f :: !Has(c, f)
  {
    Config(".", false, false, false, false, false, false, false, false, false)
  }

  /**
   `Config::set_flag`: a recognised letter sets its own option and
   nothing else; any other character is ignored.
   */
  function SetFlag(c: Config, flag: char): (c': Config)
    ensures c'.path == c.path
    ensures forall f :: Has(c', f) == (Has(c, f) || Letter(f) == flag)
    ensures !IsFlagLetter(flag) ==> c' == c
  {
    assert forall f :: Has(if FlagOf(flag).Some? then Set(c, FlagOf(flag).value) else c, f) == (Has(c, f) || Letter(f) == flag) by {
      forall f ensures Has(if FlagOf(flag).Some? then Set(c, FlagOf(flag).value) else c, f) == (Has(c, f) || Letter(f) == flag) {
        FlagOfIff(flag, f);
        if FlagOf(flag).Some? {
          SetHas(c, FlagOf(flag).value, f);
        }
      }
    }
    match FlagOf(flag)
    case Some(f) => Set(c, f)
    case None => c
  }

  /** `Config::set_path`: replaces the path, keeps the options. */
  function SetPath(c: Config, path: string): (c': Config)
    ensures c'.path == path
    ensures forall f :: Has(c', f) == Has(c, f)
  {
    c.(path := path)
  }

  /** Setting a flag twice is setting it once. */
  lemma SetFlagIdempotent(c: Config, ch: char)
    ensures SetFlag(SetFlag(c, ch), ch) == SetFlag(c, ch)
  {
    ConfigExtensionality(SetFlag(SetFlag(c, ch), ch), SetFlag(c, ch));
  }

  /** Flags may be set in either order. */
  lemma SetFlagCommutes(c: Config, ch1: char, ch2: char)
    ensures SetFlag(SetFlag(c, ch1), ch2) == SetFlag(SetFlag(c, ch2), ch1)
  {
    ConfigExtensionality(SetFlag(SetFlag(c, ch1), ch2), SetFlag(SetFlag(c, ch2), ch1));
  }

  /** An argument that starts with `-` is a group of flag letters; any other is a path. */
  predicate IsFlagArg(arg: string) {
    StartsWith(arg, "-")
  }

  /** The loop over `arg.chars().skip(1)`, setting each character as a flag. */
  function ApplyFlags(c: Config, flags: seq<char>): Config
    decreases |flags|
  {
    if |flags| == 0 then c else ApplyFlags(SetFlag(c, flags[0]), flags[1..])
  }

  /** One turn of the parsing loop. */
  function ApplyArg(c: Config, arg: string): Config {
    if IsFlagArg(arg) then ApplyFlags(c, arg[1..]) else SetPath(c, arg)
  }

  /** The parsing loop over the remaining arguments. */
  function ApplyArgs(c: Config, args: seq<string>): Config
    decreases |args|
  {
    if |args| == 0 then c else ApplyArgs(ApplyArg(c, args[0]), args[1..])
  }

  // ---------------------------------------------------------------------
  // What the parsed config means, stated over the whole argument list.
  // ---------------------------------------------------------------------

  /** Some flag argument among `args` holds the letter of option `f`. */
  predicate FlagGiven(args: seq<string>, f: Flag) {
    exists i :: 0 <= i < |args| && IsFlagArg(args[i]) && Letter(f) in args[i][1..]
  }

  /** No argument among `args` is a path. */
  predicate NoPathArg(args: seq<string>) {
    forall i :: 0 <= i < |args| ==> IsFlagArg(args[i])
  }

  /** `p` is the last argument among `args` that is a path. */
  predicate IsLastPathArg(args: seq<string>, p: string) {
    exists i :: 0 <= i < |args| && !IsFlagArg(args[i]) && args[i] == p
      && forall j :: i < j < |args| ==> IsFlagArg(args[j])
  }

  lemma LastPathArgUnique(args: seq<string>, p: string, q: string)
    requires IsLastPathArg(args, p) && IsLastPathArg(args, q)
    ensures p == q
  {
    var i :| 0 <= i < |args| && !IsFlagArg(args[i]) && args[i] == p
      && forall j :: i < j < |args| ==> IsFlagArg(args[j]);
    var k :| 0 <= k < |args| && !IsFlagArg(args[k]) && args[k] == q
      && forall j :: k < j < |args| ==> IsFlagArg(args[j]);
    assert !(i < k) && !(k < i);
  }

  /** Every option whose letter is in a group is set, in addition to the options already set. */
  lemma {:induction false} ApplyFlagsSpec(c: Config, flags: seq<char>)
    ensures ApplyFlags(c, flags).path == c.path
    ensures forall f :: Has(ApplyFlags(c, flags), f) == (Has(c, f) || Letter(f) in flags)
    decreases |flags|
  {
    if |flags| > 0 {
      ApplyFlagsSpec(SetFlag(c, flags[0]), flags[1..]);
      assert forall ch :: ch in flags <==> ch == flags[0] || ch in flags[1..] by {
        assert flags == [flags[0]] + flags[1..];
      }
    }
  }

  /**
   The parsing loop sets exactly the recognised letters of the flag
   arguments, and leaves the path at the last path argument, or
   unchanged when there is none.
   */
  lemma {:induction false} ApplyArgsSpec(c: Config, args: seq<string>)
    ensures forall f :: Has(ApplyArgs(c, args), f) == (Has(c, f) || FlagGiven(args, f))
    ensures NoPathArg(args) ==> ApplyArgs(c, args).path == c.path
    ensures !NoPathArg(args) ==> IsLastPathArg(args, ApplyArgs(c, args).path)
    decreases |args|
  {
    if |args| > 0 {
      var c' := ApplyArg(c, args[0]);
      var rest := args[1..];
      ApplyArgsSpec(c', rest);
      if IsFlagArg(args[0]) {
        ApplyFlagsSpec(c, args[0][1..]);
      }
      forall f
        ensures FlagGiven(args, f) == ((IsFlagArg(args[0]) && Letter(f) in args[0][1..]) || FlagGiven(rest, f))
      {
        if FlagGiven(args, f) {
          var i :| 0 <= i < |args| && IsFlagArg(args[i]) && Letter(f) in args[i][1..];
          if i > 0 {
            assert rest[i - 1] == args[i];
          }
        }
        if FlagGiven(rest, f) {
          var i :| 0 <= i < |rest| && IsFlagArg(rest[i]) && Letter(f) in rest[i][1..];
          assert args[i + 1] == rest[i];
        }
      }
      var p := ApplyArgs(c', rest).path;
      if NoPathArg(rest) {
        if !IsFlagArg(args[0]) {
          assert IsLastPathArg(args, p) by {
            assert forall j :: 0 < j < |args| ==> IsFlagArg(args[j]) by {
              forall j | 0 < j < |args| ensures IsFlagArg(args[j]) {
                assert args[j] == rest[j - 1];
              }
            }
          }
        } else {
          forall i | 0 <= i < |args| ensures IsFlagArg(args[i]) {
            if i > 0 {
              assert args[i] == rest[i - 1];
            }
          }
        }
      } else {
        var i :| 0 <= i < |rest| && !IsFlagArg(rest[i]) && rest[i] == p
          && forall j :: i < j < |rest| ==> IsFlagArg(rest[j]);
        assert args[i + 1] == rest[i];
        forall j | i + 1 < j < |args| ensures IsFlagArg(args[j]) {
          assert args[j] == rest[j - 1];
        }
        assert IsLastPathArg(args, p);
      }
    }
  }

  /** The words after the program name. */
  function Operands(args: seq<string>): seq<string> {
    if |args| == 0 then [] else args[1..]
  }

  /**
   `Config::build`: skips the program name and folds the remaining
   words into a config. It never fails. A flag is set exactly when one
   of the flag arguments names it, and the path is the last argument
   that is not a flag group, or `.` if there is none.
   */
  function Build(args: seq<string>): (r: Result<Config, string>)
    ensures r.Ok?
    ensures forall f :: Has(r.value, f) <==> FlagGiven(Operands(args), f)
    ensures NoPathArg(Operands(args)) ==> r.value.path == "."
    ensures !NoPathArg(Operands(args)) ==> IsLastPathArg(Operands(args), r.value.path)
  {
    ApplyArgsSpec(New(), Operands(args));
    Ok(ApplyArgs(New(), Operands(args)))
  }

  /** Two command lines that name the same flags and the same last path parse to the same config. */
  lemma BuildDeterminedByFlagsAndPath(args1: seq<string>, args2: seq<string>)
    requires forall f :: FlagGiven(Operands(args1), f) == FlagGiven(Operands(args2), f)
    requires NoPathArg(Operands(args1)) == NoPathArg(Operands(args2))
    requires forall p :: IsLastPathArg(Operands(args1), p) == IsLastPathArg(Operands(args2), p)
    ensures Build(args1) == Build(args2)
  {
    var c1 := Build(args1).value;
    var c2 := Build(args2).value;
    if !NoPathArg(Operands(args1)) {
      LastPathArgUnique(Operands(args2), c1.path, c2.path);
    }
    ConfigExtensionality(c1, c2);
  }

  /** With only the program name, the result is `Config::new()`. */
  lemma BuildProgramNameOnly(program: string)
    ensures Build([program]) == Ok(New())
  {
    ConfigExtensionality(Build([program]).value, New());
  }

  /** A letter is given in a concatenation of argument lists exactly when it is given in one of them. */
  lemma FlagGivenAppend(xs: seq<string>, ys: seq<string>, f: Flag)
    ensures FlagGiven(xs + ys, f) == (FlagGiven(xs, f) || FlagGiven(ys, f))
  {
    var zs := xs + ys;
    if FlagGiven(zs, f) {
      var i :| 0 <= i < |zs| && IsFlagArg(zs[i]) && Letter(f) in zs[i][1..];
      if i < |xs| {
        assert zs[i] == xs[i];
      } else {
        assert zs[i] == ys[i - |xs|];
      }
    }
    if FlagGiven(xs, f) {
      var i :| 0 <= i < |xs| && IsFlagArg(xs[i]) && Letter(f) in xs[i][1..];
      assert zs[i] == xs[i];
    }
    if FlagGiven(ys, f) {
      var i :| 0 <= i < |ys| && IsFlagArg(ys[i]) && Letter(f) in ys[i][1..];
      assert zs[|xs| + i] == ys[i];
    }
  }

  /** A path argument followed only by flag arguments is the last path argument. */
  lemma LastPathBeforeFlags(xs: seq<string>, path: string, flags: seq<string>)
    requires !IsFlagArg(path)
    requires NoPathArg(flags)
    ensures IsLastPathArg(xs + [path] + flags, path)
  {
    var zs := xs + [path] + flags;
    assert zs[|xs|] == path;
    forall j | |xs| < j < |zs| ensures IsFlagArg(zs[j]) {
      assert zs[j] == flags[j - |xs| - 1];
    }
  }

  /**
   Where a path argument stands among flag arguments does not matter:
   moving it to the front gives the same config.
   */
  lemma BuildPathPositionIrrelevant(program: string, before: seq<string>, path: string, after: seq<string>)
    requires !IsFlagArg(path)
    requires NoPathArg(before + after)
    ensures Build([program] + before + [path] + after) == Build([program, path] + before + after)
  {
    var args1 := [program] + before + [path] + after;
    var args2 := [program, path] + before + after;
    var ops1 := Operands(args1);
    var ops2 := Operands(args2);
    assert ops1 == before + [path] + after;
    assert ops2 == [] + [path] + (before + after);
    forall f
      ensures FlagGiven(ops1, f) == FlagGiven(ops2, f)
    {
      FlagGivenAppend(before + [path], after, f);
      FlagGivenAppend(before, [path], f);
      FlagGivenAppend([] + [path], before + after, f);
      FlagGivenAppend(before, after, f);
      assert !FlagGiven([path], f);
      assert [] + [path] == [path];
    }
    assert NoPathArg(after) by {
      forall j | 0 <= j < |after| ensures IsFlagArg(after[j]) {
        assert after[j] == (before + after)[|before| + j];
      }
    }
    LastPathBeforeFlags(before, path, after);
    LastPathBeforeFlags([], path, before + after);
    assert !NoPathArg(ops1) && !NoPathArg(ops2) by {
      assert ops1[|before|] == path;
      assert ops2[0] == path;
    }
    forall p
      ensures IsLastPathArg(ops1, p) == IsLastPathArg(ops2, p)
    {
      if IsLastPathArg(ops1, p) {
        LastPathArgUnique(ops1, p, path);
      }
      if IsLastPathArg(ops2, p) {
        LastPathArgUnique(ops2, p, path);
      }
    }
    BuildDeterminedByFlagsAndPath(args1, args2);
  }

  /** A command line with one group of flags sets the flags of that group, in order. */
  lemma BuildOneFlagGroup(program: string, group: string)
    requires IsFlagArg(group)
    ensures Build([program, group]) == Ok(ApplyFlags(New(), group[1..]))
  {
    assert Operands([program, group]) == [group];
    assert [group][1..] == [];
    var c := ApplyArg(New(), group);
    assert c == ApplyFlags(New(), group[1..]);
    assert ApplyArgs(New(), [group]) == ApplyArgs(c, []);
  }

  /** `mini-ls`'s unit tests `parse_l`, `parse_la`, `parse_al` and `parse_a_l`. */
  lemma BuildFlagExamples()
    ensures Build(["mini-ls", "-l"]) == Ok(SetFlag(New(), 'l'))
    ensures Build(["mini-ls", "-la"]) == Ok(SetFlag(SetFlag(New(), 'l'), 'a'))
    ensures Build(["mini-ls", "-al"]) == Ok(SetFlag(SetFlag(New(), 'l'), 'a'))
    ensures Build(["mini-ls", "-a", "-l"]) == Ok(SetFlag(SetFlag(New(), 'l'), 'a'))
  {
    assert "-l"[..1] == "-" && "-l"[1..] == "l";
    BuildOneFlagGroup("mini-ls", "-l");
    assert "-la"[..1] == "-" && "-la"[1..] == "la" && "la"[1..] == "a";
    BuildOneFlagGroup("mini-ls", "-la");
    assert "-al"[..1] == "-" && "-al"[1..] == "al" && "al"[1..] == "l";
    BuildOneFlagGroup("mini-ls", "-al");
    SetFlagCommutes(New(), 'l', 'a');
    var args := ["mini-ls", "-a", "-l"];
    assert Operands(args) == ["-a", "-l"] && ["-a", "-l"][1..] == ["-l"];
    assert "-a"[..1] == "-" && "-a"[1..] == "a";
  }

  /** `mini-ls`'s unit test `parse_path_al`. */
  lemma BuildPathFirstExample()
    ensures Build(["mini-ls", "projects/", "-al"]) == Ok(SetFlag(SetFlag(SetPath(New(), "projects/"), 'l'), 'a'))
  {
    var c := SetPath(New(), "projects/");
    assert "projects/"[..1] == "p";
    assert ApplyArg(New(), "projects/") == c;
    assert "-al"[1..] == "al";
    assert ApplyArg(c, "-al") == SetFlag(SetFlag(c, 'a'), 'l');
    assert Operands(["mini-ls", "projects/", "-al"]) == ["projects/", "-al"];
    assert ["projects/", "-al"][1..] == ["-al"];
    SetFlagCommutes(c, 'l', 'a');
  }

  /** `mini-ls`'s unit test `parse_a_path_l`: the same config with the path between the flags. */
  lemma BuildPathMiddleExample()
    ensures Build(["mini-ls", "-a", "projects/", "-l"]) == Ok(SetFlag(SetFlag(SetPath(New(), "projects/"), 'l'), 'a'))
  {
    assert "projects/"[..1] == "p";
    assert "-a"[..1] == "-" && "-l"[..1] == "-";
    assert NoPathArg(["-a"] + ["-l"]);
    BuildPathPositionIrrelevant("mini-ls", ["-a"], "projects/", ["-l"]);
    assert ["mini-ls"] + ["-a"] + ["projects/"] + ["-l"] == ["mini-ls", "-a", "projects/", "-l"];
    assert ["mini-ls", "projects/"] + ["-a"] + ["-l"] == ["mini-ls", "projects/", "-a", "-l"];
    BuildPathThenTwoGroups();
  }

  lemma BuildPathThenTwoGroups()
    ensures Build(["mini-ls", "projects/", "-a", "-l"]) == Ok(SetFlag(SetFlag(SetPath(New(), "projects/"), 'l'), 'a'))
  {
    var c := SetPath(New(), "projects/");
    assert "projects/"[..1] == "p";
    assert ApplyArg(New(), "projects/") == c;
    assert "-a"[..1] == "-" && "-a"[1..] == "a";
    assert "-l"[..1] == "-" && "-l"[1..] == "l";
    assert ApplyArg(c, "-a") == SetFlag(c, 'a');
    assert ApplyArg(SetFlag(c, 'a'), "-l") == SetFlag(SetFlag(c, 'a'), 'l');
    var ops := ["projects/", "-a", "-l"];
    assert Operands(["mini-ls", "projects/", "-a", "-l"]) == ops;
    assert ops[1..] == ["-a", "-l"] && ops[1..][1..] == ["-l"] && ops[1..][1..][1..] == [];
    SetFlagCommutes(c, 'l', 'a');
  }
}
