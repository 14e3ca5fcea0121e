/** What the parse algorithm promises, proved about the functions of module ParseSpec. */
module ParseProperties {
  import opened Strings
  import opened ParseSpec

  /** What every parse state reachable from `Cleared` keeps: only registered names are recorded
      as seen, only unregistered ones as unknown, values are captured only for value-taking
      options, and the error flag is up exactly when an error is visible. */
  ghost predicate Consistent(reg: Registry, st: ParseState, error: bool) {
    && (forall n :: n in st.optionNames ==> n in reg.nameHash)
    && (forall n :: n in st.unknownOptionNames ==> n !in reg.nameHash)
    && (forall k :: k in st.optionValues ==> TakesValue(reg, k) && st.optionValues[k] != [])
    && (error <==> st.errorText != "" || st.unknownOptionNames != [])
  }

  lemma BindValueConsistent(reg: Registry, name: string, arg: string, args: seq<string>, j: nat, st: ParseState, error: bool)
    requires j < |args| && Consistent(reg, st, error)
    ensures var b := BindValue(reg, name, arg, args, j, st); Consistent(reg, b.st, error || !b.ok)
  {
  }

  lemma {:induction false} WalkConsistent(reg: Registry, arg: string, pos: nat, w: Walk)
    requires 1 <= pos <= |arg| && Consistent(reg, w.st, w.error)
    ensures var r := WalkCluster(reg, arg, pos, w); Consistent(reg, r.st, r.error)
    decreases |arg| - pos
  {
    if pos < |arg| {
      var name := [arg[pos]];
      var st := Register(reg, w.st, name);
      if name !in reg.nameHash {
        WalkConsistent(reg, arg, pos + 1, Walk(st, true, name, w.valueFound));
      } else if !TakesValue(reg, reg.nameHash[name]) && !(pos + 1 < |arg| && arg[pos + 1] == '=') {
        WalkConsistent(reg, arg, pos + 1, Walk(st, w.error, name, w.valueFound));
      }
    }
  }

  lemma TokenConsistent(reg: Registry, dashMode: SingleDashWordOptionMode, afterMode: OptionsAfterPositionalArgumentsMode,
                        args: seq<string>, j: nat, forcePositional: bool, error: bool, st: ParseState)
    requires j < |args| && Consistent(reg, st, error)
    ensures var c := ParseToken(reg, dashMode, afterMode, args, j, forcePositional, error, st); Consistent(reg, c.st, c.error)
  {
    var arg := args[j];
    if !forcePositional && !StartsWith(arg, "--") && StartsWith(arg, "-") && |arg| > 1 && dashMode == ParseAsCompactedShortOptions {
      WalkConsistent(reg, arg, 1, Walk(st, error, "", false));
      var w := WalkCluster(reg, arg, 1, Walk(st, error, "", false));
      if !w.valueFound {
        BindValueConsistent(reg, w.optionName, arg, args, j, w.st, w.error);
      }
    } else if !forcePositional && ((StartsWith(arg, "--") && |arg| > 2) || (!StartsWith(arg, "--") && StartsWith(arg, "-") && |arg| > 1)) {
      var body := if StartsWith(arg, "--") then arg[2..] else arg[1..];
      var name := OptionNameOf(body);
      if name in reg.nameHash {
        BindValueConsistent(reg, name, arg, args, j, Register(reg, st, name), error);
      }
    }
  }

  lemma {:induction false} ParseFromConsistent(reg: Registry, dashMode: SingleDashWordOptionMode, afterMode: OptionsAfterPositionalArgumentsMode,
                                              args: seq<string>, j: nat, forcePositional: bool, error: bool, st: ParseState)
    requires Consistent(reg, st, error)
    ensures var r := ParseFrom(reg, dashMode, afterMode, args, j, forcePositional, error, st); Consistent(reg, r.st, !r.ok)
    decreases |args| - j
  {
    if j < |args| {
      TokenConsistent(reg, dashMode, afterMode, args, j, forcePositional, error, st);
      var c := ParseToken(reg, dashMode, afterMode, args, j, forcePositional, error, st);
      if c.next < |args| {
        ParseFromConsistent(reg, dashMode, afterMode, args, c.next + 1, c.forcePositional, c.error, c.st);
      }
    }
  }

  /** After any parse, the seen names are all registered and the unknown names are all
      unregistered. */
  lemma ParseRecordsNamesByRegistration(reg: Registry, dashMode: SingleDashWordOptionMode,
                                        afterMode: OptionsAfterPositionalArgumentsMode, args: seq<string>)
    ensures var r := ParseArguments(reg, dashMode, afterMode, args);
      && (forall n :: n in r.st.optionNames ==> n in reg.nameHash)
      && (forall n :: n in r.st.unknownOptionNames ==> n !in reg.nameHash)
  {
    if args != [] {
      ParseFromConsistent(reg, dashMode, afterMode, args, 1, false, false, Cleared);
    }
  }

  /** After any parse, values are captured only for options that take a value, and an option
      with an entry has at least one captured value. */
  lemma ParseCapturesOnlyValueOptions(reg: Registry, dashMode: SingleDashWordOptionMode,
                                      afterMode: OptionsAfterPositionalArgumentsMode, args: seq<string>)
    ensures var r := ParseArguments(reg, dashMode, afterMode, args);
      forall k :: k in r.st.optionValues ==> TakesValue(reg, k) && r.st.optionValues[k] != []
  {
    if args != [] {
      ParseFromConsistent(reg, dashMode, afterMode, args, 1, false, false, Cleared);
    }
  }

  /** For a non-empty argument list, `parse` returns true exactly when `errorText()` is empty,
      that is when no unknown name and no value error was seen. An empty list fails with an
      empty error text. */
  lemma ParseSucceedsIffNoError(reg: Registry, dashMode: SingleDashWordOptionMode,
                                afterMode: OptionsAfterPositionalArgumentsMode, args: seq<string>)
    ensures var r := ParseArguments(reg, dashMode, afterMode, args);
      && (args != [] ==> (r.ok <==> ErrorMessage(r.st.errorText, r.st.unknownOptionNames) == ""))
      && (args != [] ==> (r.ok <==> r.st.errorText == "" && r.st.unknownOptionNames == []))
      && (args == [] ==> !r.ok && r.st == Cleared)
  {
    if args != [] {
      ParseFromConsistent(reg, dashMode, afterMode, args, 1, false, false, Cleared);
    }
  }

  /** `b` keeps everything `a` recorded, with anything new after it: each recorded list of `a`,
      and the list of values captured for each option, is a prefix of the same list in `b`. */
  ghost predicate Extends(a: ParseState, b: ParseState) {
    && a.optionNames <= b.optionNames
    && a.unknownOptionNames <= b.unknownOptionNames
    && a.positionalArguments <= b.positionalArguments
    && (forall k :: Captured(a.optionValues, k) <= Captured(b.optionValues, k))
  }

  lemma PrefixTransitive(a: seq<string>, b: seq<string>, c: seq<string>)
    requires a <= b && b <= c
    ensures a <= c
  {
    assert c[..|b|][..|a|] == c[..|a|];
  }

  lemma ExtendsTransitive(a: ParseState, b: ParseState, c: ParseState)
    requires Extends(a, b) && Extends(b, c)
    ensures Extends(a, c)
  {
    PrefixTransitive(a.optionNames, b.optionNames, c.optionNames);
    PrefixTransitive(a.unknownOptionNames, b.unknownOptionNames, c.unknownOptionNames);
    PrefixTransitive(a.positionalArguments, b.positionalArguments, c.positionalArguments);
    forall k
      ensures Captured(a.optionValues, k) <= Captured(c.optionValues, k)
    {
      PrefixTransitive(Captured(a.optionValues, k), Captured(b.optionValues, k), Captured(c.optionValues, k));
    }
  }

  /** Capturing a value appends it to its option's list and leaves every other list alone. */
  lemma AddValueAppends(st: ParseState, offset: nat, value: string)
    ensures Captured(AddValue(st, offset, value).optionValues, offset) == Captured(st.optionValues, offset) + [value]
    ensures forall k :: k != offset ==> Captured(AddValue(st, offset, value).optionValues, k) == Captured(st.optionValues, k)
    ensures Extends(st, AddValue(st, offset, value))
  {
  }

  lemma BindValueExtends(reg: Registry, name: string, arg: string, args: seq<string>, j: nat, st: ParseState)
    requires j < |args|
    ensures Extends(st, BindValue(reg, name, arg, args, j, st).st)
  {
    if name in reg.nameHash && TakesValue(reg, reg.nameHash[name]) {
      var assignPos := Find(arg, '=');
      if assignPos < |arg| {
        AddValueAppends(st, reg.nameHash[name], arg[assignPos + 1..]);
      } else if j + 1 < |args| {
        AddValueAppends(st, reg.nameHash[name], args[j + 1]);
      }
    }
  }

  lemma {:induction false} WalkExtends(reg: Registry, arg: string, pos: nat, w: Walk)
    requires 1 <= pos <= |arg|
    ensures Extends(w.st, WalkCluster(reg, arg, pos, w).st)
    decreases |arg| - pos
  {
    if pos < |arg| {
      var name := [arg[pos]];
      var st := Register(reg, w.st, name);
      assert Extends(w.st, st);
      if name !in reg.nameHash {
        WalkExtends(reg, arg, pos + 1, Walk(st, true, name, w.valueFound));
        ExtendsTransitive(w.st, st, WalkCluster(reg, arg, pos + 1, Walk(st, true, name, w.valueFound)).st);
      } else if TakesValue(reg, reg.nameHash[name]) {
        if pos + 1 < |arg| {
          var start := if arg[pos + 1] == '=' then pos + 2 else pos + 1;
          AddValueAppends(st, reg.nameHash[name], arg[start..]);
          ExtendsTransitive(w.st, st, AddValue(st, reg.nameHash[name], arg[start..]));
        }
      } else if !(pos + 1 < |arg| && arg[pos + 1] == '=') {
        WalkExtends(reg, arg, pos + 1, Walk(st, w.error, name, w.valueFound));
        ExtendsTransitive(w.st, st, WalkCluster(reg, arg, pos + 1, Walk(st, w.error, name, w.valueFound)).st);
      }
    }
  }

  /** One token only ever adds to what was recorded. */
  lemma TokenExtends(reg: Registry, dashMode: SingleDashWordOptionMode, afterMode: OptionsAfterPositionalArgumentsMode,
                     args: seq<string>, j: nat, forcePositional: bool, error: bool, st: ParseState)
    requires j < |args|
    ensures Extends(st, ParseToken(reg, dashMode, afterMode, args, j, forcePositional, error, st).st)
  {
    var arg := args[j];
    if !forcePositional && !StartsWith(arg, "--") && StartsWith(arg, "-") && |arg| > 1 && dashMode == ParseAsCompactedShortOptions {
      var w := WalkCluster(reg, arg, 1, Walk(st, error, "", false));
      WalkExtends(reg, arg, 1, Walk(st, error, "", false));
      if !w.valueFound {
        BindValueExtends(reg, w.optionName, arg, args, j, w.st);
        ExtendsTransitive(st, w.st, BindValue(reg, w.optionName, arg, args, j, w.st).st);
      }
    } else if !forcePositional && ((StartsWith(arg, "--") && |arg| > 2) || (!StartsWith(arg, "--") && StartsWith(arg, "-") && |arg| > 1)) {
      var body := if StartsWith(arg, "--") then arg[2..] else arg[1..];
      var name := OptionNameOf(body);
      var registered := Register(reg, st, name);
      assert Extends(st, registered);
      if name in reg.nameHash {
        BindValueExtends(reg, name, arg, args, j, registered);
        ExtendsTransitive(st, registered, BindValue(reg, name, arg, args, j, registered).st);
      }
    }
  }

  /** The rest of the token loop only ever adds to what was recorded. */
  lemma {:induction false} ParseFromExtends(reg: Registry, dashMode: SingleDashWordOptionMode, afterMode: OptionsAfterPositionalArgumentsMode,
                                           args: seq<string>, j: nat, forcePositional: bool, error: bool, st: ParseState)
    ensures Extends(st, ParseFrom(reg, dashMode, afterMode, args, j, forcePositional, error, st).st)
    decreases |args| - j
  {
    if j < |args| {
      var c := ParseToken(reg, dashMode, afterMode, args, j, forcePositional, error, st);
      ParseFromStep(reg, dashMode, afterMode, args, j, forcePositional, error, st, c);
      TokenExtends(reg, dashMode, afterMode, args, j, forcePositional, error, st);
      if c.next < |args| {
        var r := ParseFrom(reg, dashMode, afterMode, args, c.next + 1, c.forcePositional, c.error, c.st);
        ParseFromExtends(reg, dashMode, afterMode, args, c.next + 1, c.forcePositional, c.error, c.st);
        ExtendsTransitive(st, c.st, r.st);
      }
    }
  }

  /** Values are kept in token order: whatever the token at `j` leaves recorded (a value it
      appended to an option's list included) stays, ahead of anything later tokens add. */
  lemma TokenOrderKept(reg: Registry, dashMode: SingleDashWordOptionMode, afterMode: OptionsAfterPositionalArgumentsMode,
                       args: seq<string>, j: nat, forcePositional: bool, error: bool, st: ParseState, c: Cursor)
    requires j < |args| && c == ParseToken(reg, dashMode, afterMode, args, j, forcePositional, error, st)
    ensures Extends(c.st, ParseFrom(reg, dashMode, afterMode, args, j, forcePositional, error, st).st)
  {
    ParseFromStep(reg, dashMode, afterMode, args, j, forcePositional, error, st, c);
    if c.next < |args| {
      ParseFromExtends(reg, dashMode, afterMode, args, c.next + 1, c.forcePositional, c.error, c.st);
    }
  }

  /** After `--`, or once a positional argument has switched option parsing off, every
      remaining token is positional, in order, and nothing else changes. */
  lemma {:induction false} ForcedTailPositional(reg: Registry, dashMode: SingleDashWordOptionMode,
                                               afterMode: OptionsAfterPositionalArgumentsMode,
                                               args: seq<string>, j: nat, error: bool, st: ParseState)
    requires j <= |args|
    ensures ParseFrom(reg, dashMode, afterMode, args, j, true, error, st)
         == ParseResult(st.(positionalArguments := st.positionalArguments + args[j..]), !error)
    decreases |args| - j
  {
    if j < |args| {
      ForcedTailPositional(reg, dashMode, afterMode, args, j + 1, error, AddPositional(st, args[j]));
      assert args[j..] == [args[j]] + args[j + 1..];
    }
  }

  /** Exactly `--` is not recorded anywhere and makes every later token positional. */
  lemma DoubleDashMakesRestPositional(reg: Registry, dashMode: SingleDashWordOptionMode,
                                      afterMode: OptionsAfterPositionalArgumentsMode,
                                      args: seq<string>, j: nat, error: bool, st: ParseState)
    requires j < |args| && args[j] == "--"
    ensures ParseFrom(reg, dashMode, afterMode, args, j, false, error, st)
         == ParseResult(st.(positionalArguments := st.positionalArguments + args[j + 1..]), !error)
  {
    assert StartsWith(args[j], "--");
    ForcedTailPositional(reg, dashMode, afterMode, args, j + 1, error, st);
  }

  /** A lone `-` is a positional argument in every mode and does not switch option parsing off. */
  lemma LoneDashIsPositional(reg: Registry, dashMode: SingleDashWordOptionMode,
                             afterMode: OptionsAfterPositionalArgumentsMode,
                             args: seq<string>, j: nat, error: bool, st: ParseState)
    requires j < |args| && args[j] == "-"
    ensures ParseToken(reg, dashMode, afterMode, args, j, false, error, st) == Cursor(AddPositional(st, "-"), j, false, error)
  {
    assert !StartsWith(args[j], "--");
    assert StartsWith(args[j], "-");
  }

  /** A token not starting with '-' is positional; in ParseAsOptions parsing goes on as before,
      in ParseAsPositionalArguments every later token is positional too. */
  lemma BareTokenIsPositional(reg: Registry, dashMode: SingleDashWordOptionMode,
                              args: seq<string>, j: nat, error: bool, st: ParseState)
    requires j < |args| && !StartsWith(args[j], "-")
    ensures ParseToken(reg, dashMode, ParseAsOptions, args, j, false, error, st) == Cursor(AddPositional(st, args[j]), j, false, error)
    ensures ParseFrom(reg, dashMode, ParseAsPositionalArguments, args, j, false, error, st)
         == ParseResult(st.(positionalArguments := st.positionalArguments + args[j..]), !error)
  {
    DoubleDashStartsWithDash(args[j]);
    ForcedTailPositional(reg, dashMode, ParseAsPositionalArguments, args, j + 1, error, AddPositional(st, args[j]));
    assert args[j..] == [args[j]] + args[j + 1..];
  }

  lemma DoubleDashStartsWithDash(a: string)
    ensures StartsWith(a, "--") ==> StartsWith(a, "-")
  {
    if StartsWith(a, "--") {
      assert a[..1] == a[..2][..1];
    }
  }

  /** The first '=' of `p + "=" + v`, when `p` has none, is the one after `p`. */
  lemma FindAfterPrefix(p: string, v: string)
    requires '=' !in p
    ensures Find(p + "=" + v, '=') == |p|
    ensures OptionNameOf(p + "=" + v) == p
  {
    var s := p + "=" + v;
    assert s[|p|] == '=';
    assert forall k :: 0 <= k < |p| ==> s[k] == p[k] && s[k] != '=';
    assert s[..|p|] == p;
  }

  /** Find gives `|s|` when the character does not occur. */
  lemma FindAbsent(s: string)
    requires '=' !in s
    ensures Find(s, '=') == |s| && OptionNameOf(s) == s
  {
    assert forall k :: 0 <= k < |s| ==> s[k] != '=';
  }

  /** A long option `--body` (or `-body` when single-dash words are long options) records one
      name, `body` up to its first '=': as seen when registered, as unknown (raising the error
      flag and capturing nothing) otherwise. It never adds a positional argument. */
  lemma LongFormRecordsOneName(reg: Registry, dashMode: SingleDashWordOptionMode,
                               afterMode: OptionsAfterPositionalArgumentsMode,
                               args: seq<string>, j: nat, error: bool, st: ParseState, body: string)
    requires j < |args| && body != []
    requires args[j] == "--" + body || (dashMode == ParseAsLongOptions && body[0] != '-' && args[j] == "-" + body)
    ensures var c := ParseToken(reg, dashMode, afterMode, args, j, false, error, st);
      var name := OptionNameOf(body);
      && c.st.positionalArguments == st.positionalArguments
      && !c.forcePositional
      && (name in reg.nameHash ==>
            c.st.optionNames == st.optionNames + [name] && c.st.unknownOptionNames == st.unknownOptionNames)
      && (name !in reg.nameHash ==>
            c == Cursor(st.(unknownOptionNames := st.unknownOptionNames + [name]), j, false, true))
  {
    var arg := args[j];
    if arg == "--" + body {
      assert StartsWith(arg, "--");
      assert arg[2..] == body;
    } else {
      assert !StartsWith(arg, "--") by { assert arg[1] == body[0]; }
      assert StartsWith(arg, "-");
      assert arg[1..] == body;
    }
  }

  /** `--name=value` for a value-taking option captures the text after the first '='. */
  lemma EmbeddedValueCaptured(reg: Registry, dashMode: SingleDashWordOptionMode,
                              afterMode: OptionsAfterPositionalArgumentsMode,
                              args: seq<string>, j: nat, error: bool, st: ParseState, name: string, value: string)
    requires j < |args| && args[j] == "--" + name + "=" + value && '=' !in name
    requires name in reg.nameHash && TakesValue(reg, reg.nameHash[name])
    ensures ParseToken(reg, dashMode, afterMode, args, j, false, error, st)
         == Cursor(AddValue(st.(optionNames := st.optionNames + [name]), reg.nameHash[name], value), j, false, error)
  {
    var arg := args[j];
    assert StartsWith(arg, "--");
    assert arg[2..] == name + "=" + value;
    FindAfterPrefix(name, value);
    FindAfterPrefix("--" + name, value);
    assert arg == ("--" + name) + "=" + value;
    assert arg[|"--" + name| + 1..] == value;
  }

  /** `--name` for a value-taking option takes the next token verbatim as its value, even one
      that starts with '-', and the loop resumes after it. */
  lemma NextTokenCaptured(reg: Registry, dashMode: SingleDashWordOptionMode,
                          afterMode: OptionsAfterPositionalArgumentsMode,
                          args: seq<string>, j: nat, error: bool, st: ParseState, name: string)
    requires j + 1 < |args| && args[j] == "--" + name && name != "" && '=' !in name
    requires name in reg.nameHash && TakesValue(reg, reg.nameHash[name])
    ensures ParseToken(reg, dashMode, afterMode, args, j, false, error, st)
         == Cursor(AddValue(st.(optionNames := st.optionNames + [name]), reg.nameHash[name], args[j + 1]), j + 1, false, error)
  {
    var arg := args[j];
    assert StartsWith(arg, "--");
    assert arg[2..] == name;
    FindAbsent(name);
    assert '=' !in arg by {
      forall k | 0 <= k < |arg| ensures arg[k] != '=' {
        if k >= 2 { assert arg[k] == name[k - 2]; }
      }
    }
    FindAbsent(arg);
  }

  /** `--name` for a value-taking option as the last token is a missing-value error, and the
      parse ends there with `parse` returning false. */
  lemma MissingValueEndsParse(reg: Registry, dashMode: SingleDashWordOptionMode,
                              afterMode: OptionsAfterPositionalArgumentsMode,
                              args: seq<string>, error: bool, st: ParseState, name: string)
    requires |args| >= 1 && args[|args| - 1] == "--" + name && name != "" && '=' !in name
    requires name in reg.nameHash && TakesValue(reg, reg.nameHash[name])
    ensures ParseFrom(reg, dashMode, afterMode, args, |args| - 1, false, error, st)
         == ParseResult(st.(optionNames := st.optionNames + [name],
                            errorText := "Missing value after '--" + name + "%1'."), false)
  {
    var j := |args| - 1;
    var arg := args[j];
    assert StartsWith(arg, "--");
    assert arg[2..] == name;
    FindAbsent(name);
    assert '=' !in arg by {
      forall k | 0 <= k < |arg| ensures arg[k] != '=' {
        if k >= 2 { assert arg[k] == name[k - 2]; }
      }
    }
    FindAbsent(arg);
  }

  /** `--name=value` for a flag is an unexpected-value error quoting the text from the '='
      on; the token sets the error flag and leaves option parsing on. */
  lemma UnexpectedValueToken(reg: Registry, dashMode: SingleDashWordOptionMode,
                             afterMode: OptionsAfterPositionalArgumentsMode,
                             args: seq<string>, j: nat, error: bool, st: ParseState, name: string, value: string)
    requires j < |args| && args[j] == "--" + name + "=" + value && '=' !in name
    requires name in reg.nameHash && !TakesValue(reg, reg.nameHash[name])
    ensures ParseToken(reg, dashMode, afterMode, args, j, false, error, st)
         == Cursor(st.(optionNames := st.optionNames + [name],
                       errorText := "Unexpected value after '=" + value + "%1'."), j, false, true)
  {
    var arg := args[j];
    assert StartsWith(arg, "--");
    assert arg[2..] == name + "=" + value;
    FindAfterPrefix(name, value);
    assert OptionNameOf(arg[2..]) == name;
    assert ParseToken(reg, dashMode, afterMode, args, j, false, error, st) == LongOption(reg, arg[2..], arg, args, j, st, error);
    assert arg == ("--" + name) + "=" + value;
    FindAfterPrefix("--" + name, value);
    assert arg[|"--" + name|..] == "=" + value;
    assert BindValue(reg, name, arg, args, j, Register(reg, st, name))
        == Binding(Register(reg, st, name).(errorText := "Unexpected value after '=" + value + "%1'."), j, false);
  }

  /** Parsing goes on with the token after an unexpected value. */
  lemma UnexpectedValueDoesNotStop(reg: Registry, dashMode: SingleDashWordOptionMode,
                                   afterMode: OptionsAfterPositionalArgumentsMode,
                                   args: seq<string>, j: nat, error: bool, st: ParseState, name: string, value: string)
    requires j < |args| && args[j] == "--" + name + "=" + value && '=' !in name
    requires name in reg.nameHash && !TakesValue(reg, reg.nameHash[name])
    ensures ParseFrom(reg, dashMode, afterMode, args, j, false, error, st)
         == ParseFrom(reg, dashMode, afterMode, args, j + 1, false, true,
                      st.(optionNames := st.optionNames + [name],
                          errorText := "Unexpected value after '=" + value + "%1'."))
  {
    UnexpectedValueToken(reg, dashMode, afterMode, args, j, error, st, name, value);
    ParseFromStep(reg, dashMode, afterMode, args, j, false, error, st,
                  ParseToken(reg, dashMode, afterMode, args, j, false, error, st));
  }

  /** A letter that names a registered flag (an option that takes no value). */
  predicate IsFlag(reg: Registry, letter: char) {
    [letter] in reg.nameHash && !TakesValue(reg, reg.nameHash[[letter]])
  }

  /** Each letter of `s` as a one-letter name, in order. */
  function Singletons(s: string): (r: seq<string>)
    ensures |r| == |s|
  {
    if s == [] then [] else [[s[0]]] + Singletons(s[1..])
  }

  /** The letter walk passes over flags that are not followed by '=' recording each one. */
  lemma {:induction false} WalkOverFlags(reg: Registry, arg: string, pos: nat, q: nat, w: Walk)
    requires 1 <= pos < q <= |arg|
    requires forall p :: pos <= p < q ==> IsFlag(reg, arg[p])
    requires forall p :: pos < p <= q && p < |arg| ==> arg[p] != '='
    ensures WalkCluster(reg, arg, pos, w)
         == WalkCluster(reg, arg, q, Walk(w.st.(optionNames := w.st.optionNames + Singletons(arg[pos..q])),
                                          w.error, [arg[q - 1]], w.valueFound))
    decreases q - pos
  {
    var w1 := Walk(w.st.(optionNames := w.st.optionNames + [[arg[pos]]]), w.error, [arg[pos]], w.valueFound);
    assert WalkCluster(reg, arg, pos, w) == WalkCluster(reg, arg, pos + 1, w1);
    assert arg[pos..q][1..] == arg[pos + 1..q];
    assert Singletons(arg[pos..q]) == [[arg[pos]]] + Singletons(arg[pos + 1..q]);
    if pos + 1 < q {
      WalkOverFlags(reg, arg, pos + 1, q, w1);
      assert w.st.optionNames + [[arg[pos]]] + Singletons(arg[pos + 1..q])
          == w.st.optionNames + Singletons(arg[pos..q]);
    } else {
      assert arg[pos + 1..q] == [];
      assert Singletons(arg[pos..q]) == [[arg[pos]]];
      assert w1 == Walk(w.st.(optionNames := w.st.optionNames + Singletons(arg[pos..q])), w.error, [arg[q - 1]], w.valueFound);
    }
  }

  /** The letter walk passes over unregistered letters recording each one as unknown. */
  lemma {:induction false} WalkOverUnknown(reg: Registry, arg: string, pos: nat, w: Walk)
    requires 1 <= pos < |arg|
    requires forall p :: pos <= p < |arg| ==> [arg[p]] !in reg.nameHash
    ensures WalkCluster(reg, arg, pos, w)
         == Walk(w.st.(unknownOptionNames := w.st.unknownOptionNames + Singletons(arg[pos..])),
                 true, [arg[|arg| - 1]], w.valueFound)
    decreases |arg| - pos
  {
    var w1 := Walk(w.st.(unknownOptionNames := w.st.unknownOptionNames + [[arg[pos]]]), true, [arg[pos]], w.valueFound);
    assert WalkCluster(reg, arg, pos, w) == WalkCluster(reg, arg, pos + 1, w1);
    assert arg[pos..][1..] == arg[pos + 1..];
    assert Singletons(arg[pos..]) == [[arg[pos]]] + Singletons(arg[pos + 1..]);
    if pos + 1 < |arg| {
      WalkOverUnknown(reg, arg, pos + 1, w1);
      assert w.st.unknownOptionNames + [[arg[pos]]] + Singletons(arg[pos + 1..])
          == w.st.unknownOptionNames + Singletons(arg[pos..]);
    } else {
      assert arg[pos + 1..] == [];
    }
  }

  /** In ParseAsCompactedShortOptions, `-abc` whose letters are all flags records the one-letter
      names `a`, `b`, `c` in order and nothing else. */
  lemma ClusterOfFlags(reg: Registry, afterMode: OptionsAfterPositionalArgumentsMode,
                       args: seq<string>, j: nat, error: bool, st: ParseState, letters: string)
    requires j < |args| && args[j] == "-" + letters && letters != [] && letters[0] != '-' && '=' !in letters
    requires forall p :: 0 <= p < |letters| ==> IsFlag(reg, letters[p])
    ensures ParseToken(reg, ParseAsCompactedShortOptions, afterMode, args, j, false, error, st)
         == Cursor(st.(optionNames := st.optionNames + Singletons(letters)), j, false, error)
  {
    var arg := args[j];
    DashWord(arg, letters);
    ClusterToken(reg, afterMode, args, j, error, st);
    forall p | 1 <= p < |arg| ensures IsFlag(reg, arg[p]) && arg[p] != '=' {
      assert arg[p] == letters[p - 1];
    }
    var st' := st.(optionNames := st.optionNames + Singletons(letters));
    var last := [arg[|arg| - 1]];
    WalkOverFlags(reg, arg, 1, |arg|, Walk(st, error, "", false));
    assert WalkCluster(reg, arg, 1, Walk(st, error, "", false)) == Walk(st', error, last, false);
    assert '=' !in arg by {
      forall k | 0 <= k < |arg| ensures arg[k] != '=' {
        if k >= 1 { assert arg[k] == letters[k - 1]; }
      }
    }
    FindAbsent(arg);
    assert BindValue(reg, last, arg, args, j, st') == Binding(st', j, true);
  }

  /** In ParseAsCompactedShortOptions, a cluster of unregistered letters records each letter as
      an unknown name and raises the error flag; the walk does not stop at the first one. */
  lemma ClusterOfUnknownLetters(reg: Registry, afterMode: OptionsAfterPositionalArgumentsMode,
                                args: seq<string>, j: nat, error: bool, st: ParseState, letters: string)
    requires j < |args| && args[j] == "-" + letters && letters != [] && letters[0] != '-'
    requires forall p :: 0 <= p < |letters| ==> [letters[p]] !in reg.nameHash
    ensures ParseToken(reg, ParseAsCompactedShortOptions, afterMode, args, j, false, error, st)
         == Cursor(st.(unknownOptionNames := st.unknownOptionNames + Singletons(letters)), j, false, true)
  {
    var arg := args[j];
    DashWord(arg, letters);
    ClusterToken(reg, afterMode, args, j, error, st);
    forall p | 1 <= p < |arg| ensures [arg[p]] !in reg.nameHash {
      assert arg[p] == letters[p - 1];
    }
    var st' := st.(unknownOptionNames := st.unknownOptionNames + Singletons(letters));
    var last := [arg[|arg| - 1]];
    WalkOverUnknown(reg, arg, 1, Walk(st, error, "", false));
    assert WalkCluster(reg, arg, 1, Walk(st, error, "", false)) == Walk(st', true, last, false);
    assert BindValue(reg, last, arg, args, j, st') == Binding(st', j, true);
  }

  /** A single-dash word that is not `-`, does not start with `--` and is read in
      ParseAsCompactedShortOptions goes through the cluster walk. */
  lemma ClusterToken(reg: Registry, afterMode: OptionsAfterPositionalArgumentsMode,
                     args: seq<string>, j: nat, error: bool, st: ParseState)
    requires j < |args| && |args[j]| >= 2 && args[j][0] == '-' && args[j][1] != '-'
    ensures ParseToken(reg, ParseAsCompactedShortOptions, afterMode, args, j, false, error, st)
         == ShortCluster(reg, args[j], args, j, st, error)
  {
    assert !StartsWith(args[j], "--") by { assert args[j][..2][1] == args[j][1]; }
    assert StartsWith(args[j], "-") by { assert args[j][..1] == [args[j][0]]; }
  }

  /** A value-taking letter with letters after it ends the walk with its value. */
  lemma WalkValueLetterStep(reg: Registry, arg: string, q: nat, w: Walk)
    requires 1 <= q && q + 1 < |arg|
    requires [arg[q]] in reg.nameHash && TakesValue(reg, reg.nameHash[[arg[q]]])
    ensures var start := if arg[q + 1] == '=' then q + 2 else q + 1;
      WalkCluster(reg, arg, q, w)
      == Walk(AddValue(w.st.(optionNames := w.st.optionNames + [[arg[q]]]), reg.nameHash[[arg[q]]], arg[start..]),
              w.error, [arg[q]], true)
  {
  }

  /** The letters of a single-dash word `-` + `letters`. */
  lemma DashWord(arg: string, letters: string)
    requires arg == "-" + letters && letters != []
    ensures |arg| == |letters| + 1 >= 2 && arg[0] == '-' && arg[1] == letters[0]
    ensures arg[1..] == letters && arg[1..|arg|] == letters
    ensures forall p :: 1 <= p < |arg| ==> arg[p] == letters[p - 1]
  {
  }

  /** A cluster `-` + `flags` + `o` that ends at the letter `o`. */
  lemma ClusterEnd(arg: string, flags: string, o: char)
    requires arg == "-" + flags + [o]
    ensures arg == "-" + (flags + [o])
  {
  }

  /** The pieces of a cluster token `-` + `flags` + `o` + `rest`. */
  lemma ClusterPieces(arg: string, flags: string, o: char, rest: string)
    requires arg == "-" + flags + [o] + rest
    ensures arg[1..2 + |flags|] == flags + [o]
    ensures arg[2 + |flags|..] == rest
  {
    assert arg == "-" + (flags + [o]) + rest;
  }

  /** The letters of a cluster `-` + `flags` + `o` + ... . */
  lemma ClusterLetters(arg: string, flags: string, o: char)
    requires |arg| >= 2 + |flags| && arg[1..2 + |flags|] == flags + [o]
    ensures forall p :: 1 <= p < 1 + |flags| ==> arg[p] == flags[p - 1]
    ensures arg[1 + |flags|] == o
    ensures arg[1..1 + |flags|] == flags
  {
    forall p | 1 <= p < 2 + |flags| ensures arg[p] == (flags + [o])[p - 1] {
      assert arg[1..2 + |flags|][p - 1] == arg[p];
    }
    assert arg[1..1 + |flags|] == arg[1..2 + |flags|][..|flags|];
  }

  /** The walk over the flags of a cluster `-` + `flags` + `o` + ... up to the letter `o`. */
  lemma WalkToLetter(reg: Registry, arg: string, flags: string, o: char, w: Walk)
    requires |arg| >= 2 + |flags| && arg[1..2 + |flags|] == flags + [o]
    requires '=' !in flags && o != '='
    requires forall p :: 0 <= p < |flags| ==> IsFlag(reg, flags[p])
    ensures WalkCluster(reg, arg, 1, w)
         == WalkCluster(reg, arg, 1 + |flags|, Walk(w.st.(optionNames := w.st.optionNames + Singletons(flags)), w.error,
                                                    if flags == [] then w.optionName else [flags[|flags| - 1]], w.valueFound))
  {
    var q := 1 + |flags|;
    ClusterLetters(arg, flags, o);
    if flags != [] {
      assert forall p :: 1 <= p < q ==> IsFlag(reg, arg[p]);
      assert forall p :: 1 < p <= q ==> arg[p] != '=' by {
        forall p | 1 < p <= q ensures arg[p] != '=' {
          if p < q { assert arg[p] == flags[p - 1]; assert flags[p - 1] in flags; }
        }
      }
      WalkOverFlags(reg, arg, 1, q, w);
    } else {
      assert w.st.(optionNames := w.st.optionNames + Singletons(flags)) == w.st;
    }
  }

  /** The walk over flags `flags` followed by the value-taking letter `o` with letters after it. */
  lemma WalkToValueLetter(reg: Registry, arg: string, flags: string, o: char, w: Walk)
    requires |arg| > 2 + |flags| && arg[1..2 + |flags|] == flags + [o]
    requires '=' !in flags && o != '='
    requires forall p :: 0 <= p < |flags| ==> IsFlag(reg, flags[p])
    requires [o] in reg.nameHash && TakesValue(reg, reg.nameHash[[o]])
    ensures var q := 1 + |flags|;
      var start := if arg[q + 1] == '=' then q + 2 else q + 1;
      WalkCluster(reg, arg, 1, w)
      == Walk(AddValue(w.st.(optionNames := w.st.optionNames + Singletons(flags) + [[o]]), reg.nameHash[[o]], arg[start..]),
              w.error, [o], true)
  {
    var q := 1 + |flags|;
    ClusterLetters(arg, flags, o);
    WalkToLetter(reg, arg, flags, o, w);
    var w1 := Walk(w.st.(optionNames := w.st.optionNames + Singletons(flags)), w.error,
                   if flags == [] then w.optionName else [flags[|flags| - 1]], w.valueFound);
    WalkValueLetterStep(reg, arg, q, w1);
  }

  /** The walk over flags `flags` followed by the value-taking letter `o` that ends the cluster. */
  lemma WalkToLastValueLetter(reg: Registry, arg: string, flags: string, o: char, w: Walk)
    requires |arg| == 2 + |flags| && arg[1..] == flags + [o]
    requires '=' !in flags && o != '='
    requires forall p :: 0 <= p < |flags| ==> IsFlag(reg, flags[p])
    requires [o] in reg.nameHash && TakesValue(reg, reg.nameHash[[o]])
    ensures WalkCluster(reg, arg, 1, w)
         == Walk(w.st.(optionNames := w.st.optionNames + Singletons(flags) + [[o]]), w.error, [o], w.valueFound)
  {
    var q := 1 + |flags|;
    assert arg[1..2 + |flags|] == arg[1..];
    ClusterLetters(arg, flags, o);
    WalkToLetter(reg, arg, flags, o, w);
  }

  /** In ParseAsCompactedShortOptions, `-ab` + `o` + `rest` whose letters `a`, `b` are flags and
      whose `o` takes a value records `a`, `b`, `o` and gives `o` the value `rest`, less one
      leading '='; the walk stops there. */
  lemma ClusterValueInToken(reg: Registry, afterMode: OptionsAfterPositionalArgumentsMode,
                            args: seq<string>, j: nat, error: bool, st: ParseState,
                            flags: string, o: char, rest: string)
    requires j < |args| && args[j] == "-" + flags + [o] + rest && rest != []
    requires (flags + [o])[0] != '-' && '=' !in flags && o != '='
    requires forall p :: 0 <= p < |flags| ==> IsFlag(reg, flags[p])
    requires [o] in reg.nameHash && TakesValue(reg, reg.nameHash[[o]])
    ensures ParseToken(reg, ParseAsCompactedShortOptions, afterMode, args, j, false, error, st)
         == Cursor(AddValue(st.(optionNames := st.optionNames + Singletons(flags) + [[o]]),
                            reg.nameHash[[o]], if rest[0] == '=' then rest[1..] else rest),
                   j, false, error)
  {
    var arg := args[j];
    var q := 1 + |flags|;
    ClusterPieces(arg, flags, o, rest);
    assert arg[1] == (flags + [o])[0];
    ClusterToken(reg, afterMode, args, j, error, st);
    WalkToValueLetter(reg, arg, flags, o, Walk(st, error, "", false));
    assert arg[q + 1] == rest[0];
    var value := if rest[0] == '=' then rest[1..] else rest;
    assert arg[(if arg[q + 1] == '=' then q + 2 else q + 1)..] == value by {
      assert arg[q + 2..] == rest[1..];
    }
    var w := WalkCluster(reg, arg, 1, Walk(st, error, "", false));
    assert w == Walk(AddValue(st.(optionNames := st.optionNames + Singletons(flags) + [[o]]), reg.nameHash[[o]], value),
                     error, [o], true);
  }

  /** In ParseAsCompactedShortOptions, a value-taking letter at the end of the cluster takes the
      next token as its value. */
  lemma ClusterValueFromNextToken(reg: Registry, afterMode: OptionsAfterPositionalArgumentsMode,
                                  args: seq<string>, j: nat, error: bool, st: ParseState,
                                  flags: string, o: char)
    requires j + 1 < |args| && args[j] == "-" + flags + [o]
    requires (flags + [o])[0] != '-' && '=' !in flags && o != '='
    requires forall p :: 0 <= p < |flags| ==> IsFlag(reg, flags[p])
    requires [o] in reg.nameHash && TakesValue(reg, reg.nameHash[[o]])
    ensures ParseToken(reg, ParseAsCompactedShortOptions, afterMode, args, j, false, error, st)
         == Cursor(AddValue(st.(optionNames := st.optionNames + Singletons(flags) + [[o]]),
                            reg.nameHash[[o]], args[j + 1]),
                   j + 1, false, error)
  {
    var arg := args[j];
    ClusterEnd(arg, flags, o);
    DashWord(arg, flags + [o]);
    ClusterToken(reg, afterMode, args, j, error, st);
    var st' := st.(optionNames := st.optionNames + Singletons(flags) + [[o]]);
    WalkToLastValueLetter(reg, arg, flags, o, Walk(st, error, "", false));
    assert WalkCluster(reg, arg, 1, Walk(st, error, "", false)) == Walk(st', error, [o], false);
    assert '=' !in arg by {
      forall k | 0 <= k < |arg| ensures arg[k] != '=' {
        if 1 <= k { assert arg[k] == (flags + [o])[k - 1]; }
      }
    }
    FindAbsent(arg);
    assert BindValue(reg, [o], arg, args, j, st') == Binding(AddValue(st', reg.nameHash[[o]], args[j + 1]), j + 1, true);
  }

  /** `app --name v1 --name=v2` for a value-taking option: both values are captured for it, in
      the order given, the name is recorded twice, and the parse succeeds. */
  lemma RepeatedValueOption(reg: Registry, dashMode: SingleDashWordOptionMode, afterMode: OptionsAfterPositionalArgumentsMode,
                            args: seq<string>, name: string, v1: string, v2: string)
    requires |args| == 4 && args[1] == "--" + name && args[2] == v1 && args[3] == "--" + name + "=" + v2
    requires name != "" && '=' !in name && name in reg.nameHash && TakesValue(reg, reg.nameHash[name])
    ensures ParseArguments(reg, dashMode, afterMode, args)
         == ParseResult(ParseState([name, name], [], [], map[reg.nameHash[name] := [v1, v2]], ""), true)
  {
    var offset := reg.nameHash[name];
    NextTokenCaptured(reg, dashMode, afterMode, args, 1, false, Cleared, name);
    var st1 := AddValue(Cleared.(optionNames := [name]), offset, v1);
    ParseFromStep(reg, dashMode, afterMode, args, 1, false, false, Cleared, Cursor(st1, 2, false, false));
    EmbeddedValueCaptured(reg, dashMode, afterMode, args, 3, false, st1, name, v2);
    var st2 := AddValue(st1.(optionNames := [name, name]), offset, v2);
    ParseFromStep(reg, dashMode, afterMode, args, 3, false, false, st1, Cursor(st2, 3, false, false));
    assert Captured(Cleared.optionValues, offset) + [v1] == [v1];
    assert st1.optionValues == map[offset := [v1]];
    assert Captured(st1.optionValues, offset) + [v2] == [v1, v2];
    assert st2 == ParseState([name, name], [], [], map[offset := [v1, v2]], "");
  }

  /** `app --output out.bin --output=out2.bin`, with `-o`/`--output` the one registered option
      and one that takes a value. */
  lemma OutputGivenTwice(reg: Registry, dashMode: SingleDashWordOptionMode, afterMode: OptionsAfterPositionalArgumentsMode)
    requires reg.nameHash == map["o" := 0, "output" := 0] && reg.withValue == [true]
    ensures ParseArguments(reg, dashMode, afterMode, ["app", "--output", "out.bin", "--output=out2.bin"])
         == ParseResult(ParseState(["output", "output"], [], [], map[0 := ["out.bin", "out2.bin"]], ""), true)
  {
    RepeatedValueOption(reg, dashMode, afterMode, ["app", "--output", "out.bin", "--output=out2.bin"], "output", "out.bin", "out2.bin");
  }

  /** `app --u1 --u2` with neither name registered: both are recorded as unknown, in order,
      the parse fails, and `errorText()` names both, run together. */
  lemma TwoUnknownNames(reg: Registry, dashMode: SingleDashWordOptionMode, afterMode: OptionsAfterPositionalArgumentsMode,
                        args: seq<string>, u1: string, u2: string)
    requires |args| == 3 && args[1] == "--" + u1 && args[2] == "--" + u2
    requires u1 != "" && u2 != "" && '=' !in u1 && '=' !in u2 && u1 !in reg.nameHash && u2 !in reg.nameHash
    ensures var r := ParseArguments(reg, dashMode, afterMode, args);
      && r == ParseResult(Cleared.(unknownOptionNames := [u1, u2]), false)
      && ErrorMessage(r.st.errorText, r.st.unknownOptionNames) == "Unknown options: " + u1 + u2 + "."
  {
    FindAbsent(u1);
    FindAbsent(u2);
    LongFormRecordsOneName(reg, dashMode, afterMode, args, 1, false, Cleared, u1);
    var st1 := Cleared.(unknownOptionNames := [u1]);
    ParseFromStep(reg, dashMode, afterMode, args, 1, false, false, Cleared, Cursor(st1, 1, false, true));
    LongFormRecordsOneName(reg, dashMode, afterMode, args, 2, true, st1, u2);
    var st2 := Cleared.(unknownOptionNames := [u1, u2]);
    ParseFromStep(reg, dashMode, afterMode, args, 2, false, true, st1, Cursor(st2, 2, false, true));
    assert [u1, u2][1..] == [u2];
    ConcatOne([u2]);
  }

  /** `app --unknown1 --unknown2` with neither name registered: `errorText()` is
      `Unknown options: unknown1unknown2.` */
  lemma TwoUnknownOptions(reg: Registry, dashMode: SingleDashWordOptionMode, afterMode: OptionsAfterPositionalArgumentsMode)
    requires "unknown1" !in reg.nameHash && "unknown2" !in reg.nameHash
    ensures var r := ParseArguments(reg, dashMode, afterMode, ["app", "--unknown1", "--unknown2"]);
      && r == ParseResult(Cleared.(unknownOptionNames := ["unknown1", "unknown2"]), false)
      && ErrorMessage(r.st.errorText, r.st.unknownOptionNames) == "Unknown options: " + "unknown1" + "unknown2" + "."
  {
    TwoUnknownNames(reg, dashMode, afterMode, ["app", "--unknown1", "--unknown2"], "unknown1", "unknown2");
  }

  /** `app -vf` with `-v` and `-f` registered flags, in ParseAsCompactedShortOptions: both
      letters are recorded as seen, in order, and the parse succeeds. */
  lemma FlagClusterVf(reg: Registry, afterMode: OptionsAfterPositionalArgumentsMode)
    requires IsFlag(reg, 'v') && IsFlag(reg, 'f')
    ensures ParseArguments(reg, ParseAsCompactedShortOptions, afterMode, ["app", "-vf"])
         == ParseResult(Cleared.(optionNames := ["v", "f"]), true)
  {
    var args := ["app", "-vf"];
    assert args[1] == "-" + "vf";
    ClusterOfFlags(reg, afterMode, args, 1, false, Cleared, "vf");
    assert Singletons("vf") == [['v']] + Singletons("f") && Singletons("f") == [['f']] + Singletons("");
    ParseFromStep(reg, ParseAsCompactedShortOptions, afterMode, args, 1, false, false, Cleared,
                  Cursor(Cleared.(optionNames := ["v", "f"]), 1, false, false));
  }
}
