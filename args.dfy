/** The command-line parsers of assignment-6/utils.cpp and
    assignment-9/test_generator.cpp.  Both walk argv from index 1; every
    argument starting with '-' names a key (one leading dash stripped, or
    two when the second character is also a dash), and the key's value is
    the argument after it or "true".  Entries go in with emplace, which keeps
    the value a key already has.  The two parsers differ when a flag is
    followed by another flag. */
module ConsoleArgs {

  /** An argument that starts with '-'. */
  predicate IsFlag(arg: string)
  {
    |arg| > 0 && arg[0] == '-'
  }

  /** The key a flag names: the flag without "--" when its second character
      is a dash, without '-' otherwise. */
  function Key(arg: string): string
    requires IsFlag(arg)
  {
    if |arg| >= 2 && arg[1] == '-' then arg[2..] else arg[1..]
  }

  /** The flag is its dashes followed by its key. */
  lemma KeyStrips(arg: string)
    requires IsFlag(arg)
    ensures arg == (if |arg| >= 2 && arg[1] == '-' then "--" else "-") + Key(arg)
  {
  }

  /** std::unordered_map::emplace: a key already present keeps its value. */
  function Emplace(m: map<string, string>, k: string, v: string): (r: map<string, string>)
    ensures k in r && r[k] == (if k in m then m[k] else v)
    ensures forall k' | k' != k :: (k' in r <==> k' in m) && (k' in m ==> r[k'] == m[k'])
  {
    if k in m then m else m[k := v]
  }

  /** argv[j] is a flag among the arguments 1 .. n - 1. */
  predicate FlagAt(argv: seq<string>, n: int, j: int)
  {
    1 <= j < n && j < |argv| && IsFlag(argv[j])
  }

  /** argv[j] is the first flag, from index 1 on, that names its key. */
  ghost predicate FirstFlag(argv: seq<string>, n: int, j: int)
  {
    FlagAt(argv, n, j) &&
    forall j' | 1 <= j' < j :: !(IsFlag(argv[j']) && Key(argv[j']) == Key(argv[j]))
  }

  /** The keys of args are exactly those named by the flags before n. */
  ghost predicate KeysOf(argv: seq<string>, n: int, args: map<string, string>)
  {
    forall k :: k in args <==> exists j :: FlagAt(argv, n, j) && Key(argv[j]) == k
  }

  /** The value assignment-6 gives the flag at j: whatever follows it, even
      another flag, or "true" after the last argument. */
  function FollowingValue(argv: seq<string>, j: int): (v: string)
    requires 0 <= j < |argv|
    ensures j + 1 < |argv| ==> v == argv[j + 1]
  {
    if j + 1 < |argv| then argv[j + 1] else "true"
  }

  /** The value assignment-9 gives the flag at j: the next argument unless
      that is a flag too, "true" otherwise. */
  function OptionValue(argv: seq<string>, j: int): (v: string)
    requires 0 <= j < |argv|
    ensures v == "true" || (j + 1 < |argv| && v == argv[j + 1] && !IsFlag(v))
    ensures j + 1 < |argv| && !IsFlag(argv[j + 1]) ==> v == argv[j + 1]
  {
    if j + 1 < |argv| && !IsFlag(argv[j + 1]) then argv[j + 1] else "true"
  }

  /** Every key named before n has the value its first flag gives it. */
  ghost predicate ValuesOf(argv: seq<string>, n: int, args: map<string, string>, follows: bool)
  {
    forall j | FirstFlag(argv, n, j) ::
      Key(argv[j]) in args &&
      args[Key(argv[j])] == ValueFor(argv, j, follows)
  }

  /** The value the flag at j gives its key: FollowingValue for
      assignment-6, OptionValue for assignment-9. */
  function ValueFor(argv: seq<string>, j: int, follows: bool): string
    requires 0 <= j < |argv|
  {
    if follows then FollowingValue(argv, j) else OptionValue(argv, j)
  }

  /** args holds one entry per key named before n, with the value its first
      flag gives it. */
  ghost predicate ParsedWith(argv: seq<string>, n: int, args: map<string, string>, follows: bool)
  {
    KeysOf(argv, n, args) && ValuesOf(argv, n, args, follows)
  }

  /** The flag at n adds its key. */
  lemma KeysStep(argv: seq<string>, n: int, args: map<string, string>, v: string)
    requires 1 <= n < |argv| && IsFlag(argv[n]) && KeysOf(argv, n, args)
    ensures KeysOf(argv, n + 1, Emplace(args, Key(argv[n]), v))
  {
    var k := Key(argv[n]);
    var r := Emplace(args, k, v);
    forall k' ensures k' in r <==> exists j :: FlagAt(argv, n + 1, j) && Key(argv[j]) == k'
    {
      if k' == k {
        assert FlagAt(argv, n + 1, n);
      } else if k' in r {
        var j :| FlagAt(argv, n, j) && Key(argv[j]) == k';
        assert FlagAt(argv, n + 1, j);
      } else {
        forall j | FlagAt(argv, n + 1, j) ensures Key(argv[j]) != k'
        {
          if j < n { assert FlagAt(argv, n, j); }
        }
      }
    }
  }

  /** The flag at n gives its key a value unless an earlier flag named it. */
  lemma ValuesStep(argv: seq<string>, n: int, args: map<string, string>, follows: bool, v: string)
    requires 1 <= n < |argv| && IsFlag(argv[n]) && ParsedWith(argv, n, args, follows)
    requires v == ValueFor(argv, n, follows)
    ensures ValuesOf(argv, n + 1, Emplace(args, Key(argv[n]), v), follows)
  {
    var k := Key(argv[n]);
    var r := Emplace(args, k, v);
    forall j | FirstFlag(argv, n + 1, j)
      ensures Key(argv[j]) in r &&
              r[Key(argv[j])] == ValueFor(argv, j, follows)
    {
      if j < n {
        assert FirstFlag(argv, n, j);
      } else {
        assert j == n;
        assert forall j' | FlagAt(argv, n, j') :: Key(argv[j']) != k;
      }
    }
  }

  /** Adding the flag at n, whose key may already be present. */
  lemma ParsedStep(argv: seq<string>, n: int, args: map<string, string>, follows: bool, v: string)
    requires 1 <= n < |argv| && IsFlag(argv[n]) && ParsedWith(argv, n, args, follows)
    requires v == ValueFor(argv, n, follows)
    ensures ParsedWith(argv, n + 1, Emplace(args, Key(argv[n]), v), follows)
  {
    KeysStep(argv, n, args, v);
    ValuesStep(argv, n, args, follows, v);
  }

  /** An argument that is not a flag adds no key. */
  lemma KeysSkip(argv: seq<string>, n: int, args: map<string, string>)
    requires 1 <= n < |argv| && !IsFlag(argv[n]) && KeysOf(argv, n, args)
    ensures KeysOf(argv, n + 1, args)
  {
    forall k ensures k in args <==> exists j :: FlagAt(argv, n + 1, j) && Key(argv[j]) == k
    {
      if k in args {
        var j :| FlagAt(argv, n, j) && Key(argv[j]) == k;
        assert FlagAt(argv, n + 1, j);
      } else {
        forall j | FlagAt(argv, n + 1, j) ensures Key(argv[j]) != k
        {
          assert FlagAt(argv, n, j);
        }
      }
    }
  }

  /** Nor does it give any key a value. */
  lemma ValuesSkip(argv: seq<string>, n: int, args: map<string, string>, follows: bool)
    requires 1 <= n < |argv| && !IsFlag(argv[n]) && ValuesOf(argv, n, args, follows)
    ensures ValuesOf(argv, n + 1, args, follows)
  {
    forall j | FirstFlag(argv, n + 1, j)
      ensures Key(argv[j]) in args &&
              args[Key(argv[j])] == ValueFor(argv, j, follows)
    {
      assert j < n;
      assert FirstFlag(argv, n, j);
    }
  }

  lemma ParsedSkip(argv: seq<string>, n: int, args: map<string, string>, follows: bool)
    requires 1 <= n < |argv| && !IsFlag(argv[n]) && ParsedWith(argv, n, args, follows)
    ensures ParsedWith(argv, n + 1, args, follows)
  {
    KeysSkip(argv, n, args);
    ValuesSkip(argv, n, args, follows);
  }

  /** parse_console_args of assignment-6/utils.cpp.  It first emplaces the
      next argument and then, when that argument is a flag, emplaces "true";
      the second emplace finds the key present and changes nothing, so a
      flag followed by a flag keeps that flag as its value. */
  method ParseConsoleArgs(argv: seq<string>) returns (args: map<string, string>)
    ensures KeysOf(argv, |argv|, args)
    ensures forall j | FirstFlag(argv, |argv|, j) :: Key(argv[j]) in args && args[Key(argv[j])] == FollowingValue(argv, j)
  {
    args := map[];
    var i := 1;
    while i < |argv|
      invariant 1 <= i && (|argv| >= 1 ==> i <= |argv|)
      invariant ParsedWith(argv, i, args, true)
    {
      if IsFlag(argv[i]) {
        var key := Key(argv[i]);
        ghost var before := args;
        if i + 1 < |argv| {
          args := Emplace(args, key, argv[i + 1]);
          if IsFlag(argv[i + 1]) {
            args := Emplace(args, key, "true");
          }
        } else {
          args := Emplace(args, key, "true");
        }
        assert args == Emplace(before, key, FollowingValue(argv, i));
        ParsedStep(argv, i, before, true, FollowingValue(argv, i));
      } else {
        ParsedSkip(argv, i, args, true);
      }
      i := i + 1;
    }
  }

  /** parse_console_args of assignment-9/test_generator.cpp: a flag followed
      by a flag maps to "true". */
  method ParseGeneratorArgs(argv: seq<string>) returns (args: map<string, string>)
    ensures KeysOf(argv, |argv|, args)
    ensures forall j | FirstFlag(argv, |argv|, j) :: Key(argv[j]) in args && args[Key(argv[j])] == OptionValue(argv, j)
  {
    args := map[];
    var i := 1;
    while i < |argv|
      invariant 1 <= i && (|argv| >= 1 ==> i <= |argv|)
      invariant ParsedWith(argv, i, args, false)
    {
      if IsFlag(argv[i]) {
        var key := Key(argv[i]);
        ghost var before := args;
        if i + 1 < |argv| {
          if IsFlag(argv[i + 1]) {
            args := Emplace(args, key, "true");
          } else {
            args := Emplace(args, key, argv[i + 1]);
          }
        } else {
          args := Emplace(args, key, "true");
        }
        ParsedStep(argv, i, before, false, OptionValue(argv, i));
      } else {
        ParsedSkip(argv, i, args, false);
      }
      i := i + 1;
    }
  }

  /** "prog -i --o x": assignment-6 maps i to "--o", assignment-9 maps it to
      "true"; both map o to "x". */
  method FlagAfterFlag() returns (six: map<string, string>, nine: map<string, string>)
    ensures "i" in six && six["i"] == "--o" && "o" in six && six["o"] == "x"
    ensures "i" in nine && nine["i"] == "true" && "o" in nine && nine["o"] == "x"
  {
    var argv := ["prog", "-i", "--o", "x"];
    assert Key(argv[1]) == "i" && Key(argv[2]) == "o";
    assert FirstFlag(argv, 4, 1) && FirstFlag(argv, 4, 2);
    six := ParseConsoleArgs(argv);
    nine := ParseGeneratorArgs(argv);
  }
}
