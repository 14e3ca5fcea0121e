/** The parser `QCommandLineParser` with its private part: the registered options (shared
    descriptors, see module CommandLineOption), the alias-to-offset hash, the state a parse
    fills in, the positional argument definitions and the help text. Every method that the
    source writes as a loop is a loop here, proved to compute the functions of modules
    ParseSpec and HelpFormat, whose properties modules ParseProperties and HelpProperties
    prove. */
module CommandLineParser {
  import opened Strings
  import opened CommandLineOption
  import opened ParseSpec
  import HelpFormat
  import HelpProperties
  import ParseProperties

  /** For each option, whether it takes a value (has a non-empty value name). */
  function WithValue(opts: seq<Option>): (r: seq<bool>)
    reads opts
    ensures |r| == |opts|
    ensures forall k :: 0 <= k < |opts| ==> r[k] == (opts[k].valueName != "")
  {
    if opts == [] then [] else WithValue(opts[..|opts| - 1]) + [opts[|opts| - 1].valueName != ""]
  }

  /** An option as the help text sees it. */
  function Entry(o: Option): HelpFormat.OptionEntry
    reads o
  {
    HelpFormat.OptionEntry(o.names, o.valueName, o.description, o.hidden)
  }

  function Entries(opts: seq<Option>): (r: seq<HelpFormat.OptionEntry>)
    reads opts
    ensures |r| == |opts|
    ensures forall k :: 0 <= k < |opts| ==> r[k] == Entry(opts[k])
  {
    if opts == [] then [] else Entries(opts[..|opts| - 1]) + [Entry(opts[|opts| - 1])]
  }

  /** The hash and the option list agree: every alias leads to an option that has it, every
      name of every option is hashed to that option, and no option is nameless. */
  ghost predicate Hashed(opts: seq<Option>, hash: map<string, nat>) {
    && (forall n :: n in hash ==> hash[n] < |opts| && n in opts[hash[n]].names)
    && (forall k, n :: 0 <= k < |opts| && n in opts[k].names ==> n in hash && hash[n] == k)
    && (forall k :: 0 <= k < |opts| ==> opts[k].names != [])
  }

  /** Appending an option whose names are all new, and hashing them to its offset, keeps the
      hash and the list in agreement. */
  lemma HashedAfterAppend(opts: seq<Option>, hash: map<string, nat>, option: Option, hash': map<string, nat>)
    requires Hashed(opts, hash)
    requires option.names != [] && forall n :: n in option.names ==> n !in hash
    requires forall n :: n in hash' <==> n in hash || n in option.names
    requires forall n :: n in option.names ==> hash'[n] == |opts|
    requires forall n :: n in hash ==> hash'[n] == hash[n]
    ensures Hashed(opts + [option], hash')
  {
    var opts' := opts + [option];
    forall k, n | 0 <= k < |opts'| && n in opts'[k].names
      ensures n in hash' && hash'[n] == k
    {
      if k < |opts| {
        assert opts'[k] == opts[k];
      }
    }
  }

  /** Whether option `names` can still be registered beside the names in `keys`. */
  predicate Admissible(keys: set<string>, names: seq<string>) {
    names != [] && forall n :: n in names ==> n !in keys
  }

  /** The names in `names`, as a set. */
  function NameSet(names: seq<string>): set<string> {
    set n | n in names
  }

  /** The names registered once `opts` were offered one by one beside the names `keys`: an
      option adds its names when it is admissible beside everything registered before it. */
  function KeysAfter(keys: set<string>, opts: seq<Option>): set<string>
  {
    if opts == [] then keys
    else
      var before := KeysAfter(keys, opts[..|opts| - 1]);
      var o := opts[|opts| - 1];
      if Admissible(before, o.names) then before + NameSet(o.names) else before
  }

  /** The options of `opts` that are accepted when offered one by one beside the names `keys`,
      in their order: a refused option is skipped and the next one is still offered. */
  function Accepted(keys: set<string>, opts: seq<Option>): seq<Option>
  {
    if opts == [] then []
    else
      var prefix := opts[..|opts| - 1];
      var o := opts[|opts| - 1];
      Accepted(keys, prefix) + (if Admissible(KeysAfter(keys, prefix), o.names) then [o] else [])
  }

  /** Appending the same element to both sides keeps a subsequence one; appending it to the
      longer side alone does too. */
  lemma {:induction false} SubsequenceSnoc<T>(a: seq<T>, b: seq<T>, x: T)
    requires IsSubsequence(a, b)
    ensures IsSubsequence(a, b + [x]) && IsSubsequence(a + [x], b + [x])
    decreases |b|
  {
    if b == [] {
      assert a == [];
      assert (a + [x])[1..] == [];
    } else {
      assert (b + [x])[1..] == b[1..] + [x];
      if a == [] {
        SubsequenceSnoc(a, b[1..], x);
        assert a + [x] == [x];
      } else {
        assert (a + [x])[1..] == a[1..] + [x];
        if a[0] == b[0] && IsSubsequence(a[1..], b[1..]) {
          SubsequenceSnoc(a[1..], b[1..], x);
        } else {
          SubsequenceSnoc(a, b[1..], x);
        }
      }
    }
  }

  /** A subsequence is no longer than the sequence and holds only its elements. */
  lemma {:induction false} SubsequenceBounds<T>(a: seq<T>, b: seq<T>)
    requires IsSubsequence(a, b)
    ensures |a| <= |b| && forall x :: x in a ==> x in b
    decreases |b|
  {
    if a != [] {
      if a[0] == b[0] && IsSubsequence(a[1..], b[1..]) {
        SubsequenceBounds(a[1..], b[1..]);
        assert forall x :: x in a ==> x == a[0] || x in a[1..];
      } else {
        SubsequenceBounds(a, b[1..]);
      }
    }
  }

  /** The accepted options are picked from `opts` in their order. */
  lemma {:induction false} AcceptedIsSubsequence(keys: set<string>, opts: seq<Option>)
    ensures IsSubsequence(Accepted(keys, opts), opts)
    decreases |opts|
  {
    if opts == [] {
    } else {
      var prefix := opts[..|opts| - 1];
      var o := opts[|opts| - 1];
      assert prefix + [o] == opts;
      AcceptedIsSubsequence(keys, prefix);
      SubsequenceSnoc(Accepted(keys, prefix), prefix, o);
      if Admissible(KeysAfter(keys, prefix), o.names) {
        assert Accepted(keys, opts) == Accepted(keys, prefix) + [o];
      } else {
        assert Accepted(keys, opts) == Accepted(keys, prefix);
      }
    }
  }

  /** Offering one more option: it is accepted, and its names registered, exactly when it is
      admissible beside the names registered so far; and all of `opts[..i + 1]` is accepted
      exactly when all of `opts[..i]` was and `opts[i]` is too. */
  lemma AcceptedStep(keys: set<string>, opts: seq<Option>, i: nat)
    requires i < |opts|
    ensures var ok := Admissible(KeysAfter(keys, opts[..i]), opts[i].names);
      && KeysAfter(keys, opts[..i + 1]) == (if ok then KeysAfter(keys, opts[..i]) + NameSet(opts[i].names) else KeysAfter(keys, opts[..i]))
      && Accepted(keys, opts[..i + 1]) == Accepted(keys, opts[..i]) + (if ok then [opts[i]] else [])
      && (Accepted(keys, opts[..i + 1]) == opts[..i + 1] <==> Accepted(keys, opts[..i]) == opts[..i] && ok)
  {
    assert opts[..i + 1][..i] == opts[..i];
    assert opts[..i + 1] == opts[..i] + [opts[i]];
    var accepted := Accepted(keys, opts[..i]);
    AcceptedIsSubsequence(keys, opts[..i]);
    SubsequenceBounds(accepted, opts[..i]);
    if Accepted(keys, opts[..i + 1]) == opts[..i + 1] {
      assert Admissible(KeysAfter(keys, opts[..i]), opts[i].names);
      assert accepted == Accepted(keys, opts[..i + 1])[..i];
    }
  }

  /** A list extended by the accepted options of `opts` grows by at most `|opts|` options, all
      from `opts`, and grows by all of `opts` exactly when every option was accepted. */
  lemma AppendedAccepted(before: seq<Option>, keys: set<string>, opts: seq<Option>, after: seq<Option>)
    requires after == before + Accepted(keys, opts)
    ensures |before| <= |after| <= |before| + |opts|
    ensures forall k :: |before| <= k < |after| ==> after[k] in opts
    ensures after == before + opts <==> Accepted(keys, opts) == opts
  {
    var accepted := Accepted(keys, opts);
    AcceptedIsSubsequence(keys, opts);
    SubsequenceBounds(accepted, opts);
    forall k | |before| <= k < |after|
      ensures after[k] in opts
    {
      assert after[k] == accepted[k - |before|];
    }
    if after == before + opts {
      assert accepted == after[|before|..];
    }
  }

  /** The names of all of `opts`. */
  function AllNames(opts: seq<Option>): set<string> {
    if opts == [] then {} else AllNames(opts[..|opts| - 1]) + NameSet(opts[|opts| - 1].names)
  }

  /** Offering options registers none but their names. */
  lemma {:induction false} KeysAfterBound(keys: set<string>, opts: seq<Option>)
    ensures keys <= KeysAfter(keys, opts) <= keys + AllNames(opts)
    decreases |opts|
  {
    if opts != [] {
      KeysAfterBound(keys, opts[..|opts| - 1]);
    }
  }

  /** When every option has a name and its names are new beside `keys` and the names of the
      options before it, every option is accepted. */
  lemma {:induction false} AllFreshAccepted(keys: set<string>, opts: seq<Option>)
    requires forall i :: 0 <= i < |opts| ==> Admissible(keys + AllNames(opts[..i]), opts[i].names)
    ensures Accepted(keys, opts) == opts
    decreases |opts|
  {
    if opts != [] {
      var prefix := opts[..|opts| - 1];
      forall i | 0 <= i < |prefix|
        ensures Admissible(keys + AllNames(prefix[..i]), prefix[i].names)
      {
        assert prefix[..i] == opts[..i];
      }
      AllFreshAccepted(keys, prefix);
      KeysAfterBound(keys, prefix);
      assert opts[..|opts| - 1] == prefix;
      assert Admissible(keys + AllNames(prefix), opts[|opts| - 1].names);
      assert prefix + [opts[|opts| - 1]] == opts;
    }
  }

  /** A refused option does not stop the ones after it: with `-x` taken, an option `-x` is
      refused and a later `-y` is still accepted. */
  lemma RefusedOptionSkipped(a: Option, b: Option)
    requires a.names == ["x"] && b.names == ["y"]
    ensures Accepted({"x"}, [a, b]) == [b]
    ensures KeysAfter({"x"}, [a, b]) == {"x", "y"}
  {
    assert [a, b][..1] == [a];
    assert [a][..0] == [];
    assert a.names[0] == "x";
    assert KeysAfter({"x"}, [a]) == {"x"};
    assert Accepted({"x"}, [a]) == [];
    assert NameSet(["y"]) == {"y"};
  }

  /** `wrapText(names, longestOptionNameString, description)`: the padded name column, then
      the description cut into lines of at most `79 - indent` characters, breaking at the
      last blank when there is one and at every newline. */
  method WrapText(names: string, longestOptionNameString: nat, description: string) returns (text: string)
    ensures text == HelpFormat.Wrapped(names, longestOptionNameString, description)
  {
    text := "  " + PadRight(names, longestOptionNameString) + " ";
    var indent := |text|;
    var lineStart := 0;
    var lastBreakable := -1;
    var max := 79 - indent;
    var x := 0;
    var len := |description|;
    ghost var target := HelpFormat.Wrapped(names, longestOptionNameString, description);
    HelpProperties.WrapLoopStart(names, longestOptionNameString, description);
    var i := 0;
    while i < len
      invariant HelpProperties.WrapLoop(description, max, indent, target, text, i, x, lineStart, lastBreakable)
      decreases len - lineStart, len - i
    {
      ghost var (text0, i0, x0, lineStart0, lastBreakable0) := (text, i, x, lineStart, lastBreakable);
      x := x + 1;
      var c := description[i];
      if IsSpace(c) {
        lastBreakable := i;
      }
      var breakAt := -1;
      var nextLineStart := -1;
      if x > max && lastBreakable != -1 {
        breakAt := lastBreakable;
        nextLineStart := lastBreakable + 1;
      } else if (x > max - 1 && lastBreakable == -1) || i == len - 1 {
        breakAt := i + 1;
        nextLineStart := breakAt;
      } else if c == '\n' {
        breakAt := i;
        nextLineStart := i + 1;
      }
      if breakAt != -1 {
        var numChars := breakAt - lineStart;
        if lineStart > 0 {
          text := text + Spaces(indent);
        } else {
          assert text == text0 + "";
        }
        assert description[lineStart..lineStart + numChars] == description[lineStart0..breakAt];
        text := text + (description[lineStart..lineStart + numChars] + "\n");
        x := 0;
        lastBreakable := -1;
        lineStart := nextLineStart;
        if lineStart < len && IsSpace(description[lineStart]) {
          lineStart := lineStart + 1;
        }
        i := lineStart;
      }
      i := i + 1;
      if breakAt != -1 {
        HelpProperties.WrapLoopBreak(description, max, indent, target, text0, i0, x0, lineStart0, lastBreakable0,
                                     breakAt, nextLineStart, text, i, lineStart);
      } else {
        HelpProperties.WrapLoopContinue(description, max, indent, target, text, i0, x0, lineStart, lastBreakable0, i, x, lastBreakable);
      }
    }
    HelpProperties.WrapLoopEnd(description, max, indent, target, text, i, x, lineStart, lastBreakable);
  }

  /** The name column of one option in the help text: its dashed aliases joined by ", ",
      then ` <valueName>` when it takes a value. */
  method OptionNamesString(option: HelpFormat.OptionEntry) returns (optionNamesString: string)
    ensures optionNamesString == HelpFormat.NamesColumn(option)
  {
    var optionNames := option.names;
    optionNamesString := "";
    var m := 0;
    while m < |optionNames|
      invariant 0 <= m <= |optionNames|
      invariant optionNamesString == HelpFormat.Separated(optionNames[..m])
    {
      assert optionNames[..m + 1][..m] == optionNames[..m];
      var optionName := optionNames[m];
      var dashes := if |optionName| == 1 then "-" else "--";
      optionNamesString := optionNamesString + (dashes + optionName + ", ");
      m := m + 1;
    }
    assert optionNames[..m] == optionNames;
    if optionNames != [] {
      HelpProperties.SeparatedIsJoined(optionNames);
      optionNamesString := optionNamesString[..|optionNamesString| - 1];
      optionNamesString := optionNamesString[..|optionNamesString| - 1];
    }
    var valueName := option.valueName;
    if valueName != "" {
      optionNamesString := optionNamesString + (" <" + valueName + ">");
    }
  }

  /** The usage summary of the help text. */
  method Usage(hasOptions: bool, defs: seq<HelpFormat.PositionalArgumentDefinition>) returns (usage: string)
    ensures usage == HelpFormat.Usage(hasOptions, defs)
  {
    usage := "[executable name]";
    if hasOptions {
      usage := usage + " [options]";
    }
    var k := 0;
    while k < |defs|
      invariant 0 <= k <= |defs|
      invariant usage == HelpFormat.Usage(hasOptions, defs[..k])
    {
      HelpProperties.UsageStep(hasOptions, defs, k);
      usage := usage + (" " + defs[k].syntax);
      k := k + 1;
    }
    assert defs[..k] == defs;
  }

  /** The first loop of the help text: the name column of every visible option, in order, and
      the length of the longest. */
  method OptionNameList(opts: seq<HelpFormat.OptionEntry>) returns (optionNameList: seq<string>, longestOptionNameString: nat)
    ensures optionNameList == HelpFormat.Columns(HelpFormat.Visible(opts))
    ensures longestOptionNameString == HelpFormat.Longest(optionNameList)
  {
    optionNameList := [];
    longestOptionNameString := 0;
    var k := 0;
    while k < |opts|
      invariant 0 <= k <= |opts|
      invariant optionNameList == HelpFormat.Columns(HelpFormat.Visible(opts[..k]))
      invariant longestOptionNameString == HelpFormat.Longest(optionNameList)
    {
      HelpProperties.ColumnsStep(opts, k);
      var option := opts[k];
      if !option.hidden {
        var optionNamesString := OptionNamesString(option);
        HelpProperties.LongestSnoc(optionNameList, optionNamesString);
        optionNameList := optionNameList + [optionNamesString];
        longestOptionNameString := if longestOptionNameString < |optionNamesString| then |optionNamesString| else longestOptionNameString;
      }
      k := k + 1;
    }
    assert opts[..k] == opts;
  }

  /** One pass of the second loop of the help text: a hidden option adds nothing, a visible
      one its entry, its name column taken from `optionNameList` in step. */
  method AppendOptionEntry(opts: seq<HelpFormat.OptionEntry>, optionNameList: seq<string>, longestOptionNameString: nat,
                           ghost parts: seq<string>, ghost text: string, k: nat, next: nat, result: string)
    returns (next': nat, result': string)
    requires optionNameList == HelpFormat.Columns(HelpFormat.Visible(opts))
    requires parts == HelpFormat.OptionEntries(HelpFormat.Visible(opts), longestOptionNameString)
    requires k < |opts| && HelpProperties.OptionsLoop(opts, parts, text, k, next, result)
    ensures HelpProperties.OptionsLoop(opts, parts, text, k + 1, next', result')
  {
    var option := opts[k];
    if !option.hidden {
      HelpProperties.OptionsLoopVisible(opts, parts, text, k, next, result);
      var entry := WrapText(optionNameList[next], longestOptionNameString, option.description);
      HelpProperties.OptionEntryAt(opts, longestOptionNameString, parts, k, next);
      HelpProperties.OptionsLoopShown(opts, parts, text, k, next, result, entry, k + 1, next + 1, result + entry);
      next', result' := next + 1, result + entry;
    } else {
      HelpProperties.OptionsLoopHidden(opts, parts, text, k, next, result);
      next', result' := next, result;
    }
  }

  /** The loop over the registered options: the entry of each visible one. */
  method AppendOptionEntries(text: string, opts: seq<HelpFormat.OptionEntry>, optionNameList: seq<string>,
                             longestOptionNameString: nat) returns (result: string)
    requires optionNameList == HelpFormat.Columns(HelpFormat.Visible(opts))
    ensures result == text + HelpFormat.OptionsBlock(HelpFormat.Visible(opts), longestOptionNameString)
  {
    ghost var parts := HelpFormat.OptionEntries(HelpFormat.Visible(opts), longestOptionNameString);
    result := text;
    var next := 0;
    var k := 0;
    HelpProperties.OptionsLoopStart(opts, parts, text);
    while k < |opts|
      invariant HelpProperties.OptionsLoop(opts, parts, text, k, next, result)
    {
      next, result := AppendOptionEntry(opts, optionNameList, longestOptionNameString, parts, text, k, next, result);
      k := k + 1;
    }
    HelpProperties.OptionsLoopEnd(opts, parts, text, k, next, result);
  }

  /** The loop over the positional argument definitions: the entry of each. */
  method AppendArgumentEntries(text: string, defs: seq<HelpFormat.PositionalArgumentDefinition>,
                               longestOptionNameString: nat) returns (result: string)
    ensures result == text + HelpFormat.ArgumentsBlock(defs, longestOptionNameString)
  {
    ghost var parts := HelpFormat.ArgumentEntries(defs, longestOptionNameString);
    result := text;
    var k := 0;
    while k < |defs|
      invariant 0 <= k <= |defs|
      invariant result == text + Concat(parts[..k])
    {
      var arg := defs[k];
      var entry := WrapText(arg.name, longestOptionNameString, arg.description);
      HelpProperties.ArgumentsLoopStep(defs, longestOptionNameString, parts, text, k, result, entry);
      result := result + entry;
      k := k + 1;
    }
    ConcatAll(parts);
  }

  /** The help text of the registered options `opts`, the application description and the
      positional argument definitions `defs`. */
  method HelpTextOf(opts: seq<HelpFormat.OptionEntry>, description: string, defs: seq<HelpFormat.PositionalArgumentDefinition>)
    returns (text: string)
    ensures text == HelpFormat.HelpText(opts, description, defs)
  {
    var usage := Usage(opts != [], defs);
    text := "Usage: " + usage + "\n";
    if description != "" {
      text := text + (description + "\n");
    }
    text := text + "\n";
    if opts != [] {
      text := text + "Options:\n";
    }
    assert text == HelpFormat.HelpHead(opts != [], description, defs);
    var optionNameList, longestOptionNameString := OptionNameList(opts);
    longestOptionNameString := longestOptionNameString + 1;
    assert longestOptionNameString == HelpFormat.ColumnWidth(opts);
    text := AppendOptionEntries(text, opts, optionNameList, longestOptionNameString);
    ghost var body := text;
    assert body == HelpFormat.HelpHead(opts != [], description, defs) + HelpFormat.OptionsBlock(HelpFormat.Visible(opts), HelpFormat.ColumnWidth(opts));
    if defs != [] {
      if opts != [] {
        text := text + "\n";
      }
      text := text + "Arguments:\n";
      text := AppendArgumentEntries(text, defs, longestOptionNameString);
      assert text == (if opts != [] then body + "\n" else body) + "Arguments:\n" + HelpFormat.ArgumentsBlock(defs, HelpFormat.ColumnWidth(opts));
    }
  }

  /** A hash holding exactly the names `a` and `b`, both at offset 0. */
  lemma HashOfTwoNames(h: map<string, nat>, a: string, b: string)
    requires forall n :: n in h <==> n in [a, b]
    requires forall n :: n in [a, b] ==> h[n] == 0
    ensures h == map[a := 0, b := 0]
  {
    assert a in [a, b] && b in [a, b];
  }

  /** A parser with the one value-taking option `short`/`long`, without a default value. */
  method TwoNameParser(short: string, long: string) returns (parser: Parser)
    requires short != long && !IsInvalidName(short) && !IsInvalidName(long)
    ensures fresh(parser) && parser.Valid() && parser.HashInRange()
    ensures parser.Reg() == Registry(map[short := 0, long := 0], [true])
    ensures |parser.options| == 1 && parser.options[0].defaultValues == []
  {
    parser := new Parser();
    ValidNamesKept([short, long]);
    var option := new Option.DescribedFromNames([short, long], "", "value", "");
    var added := parser.AddOption(option);
    HashOfTwoNames(parser.nameHash, short, long);
  }

  /** Parsing `app --long v1 --long=v2` with the parser of `TwoNameParser`. */
  method ParseGivenTwice(parser: Parser, short: string, long: string, args: seq<string>, v1: string, v2: string)
    requires parser.Valid() && parser.HashInRange()
    requires parser.Reg() == Registry(map[short := 0, long := 0], [true])
    requires long != "" && '=' !in long
    requires |args| == 4 && args[1] == "--" + long && args[2] == v1 && args[3] == "--" + long + "=" + v2
    modifies parser
    ensures parser.Valid() && parser.options == old(parser.options) && parser.nameHash == old(parser.nameHash)
    ensures parser.optionValuesHash == map[0 := [v1, v2]]
  {
    ParseProperties.RepeatedValueOption(parser.Reg(), parser.singleDashWordOptionMode, parser.optionsAfterPositionalArgumentsMode,
                                        args, long, v1, v2);
    label before:
    var ok := parser.Parse(args);
    parser.RegistryKept@before();
  }

  /** A value-taking option `short`/`long` given twice, as `app --long v1 --long=v2`: `values`
      answers both, in order, under either name, and `value` the last. */
  method OptionGivenTwice(short: string, long: string, args: seq<string>, v1: string, v2: string)
    returns (values: seq<string>, value: string, shortValues: seq<string>)
    requires short != long && !IsInvalidName(short) && !IsInvalidName(long)
    requires |args| == 4 && args[1] == "--" + long && args[2] == v1 && args[3] == "--" + long + "=" + v2
    ensures values == [v1, v2] && shortValues == values
    ensures value == v2
  {
    var parser := TwoNameParser(short, long);
    ParseGivenTwice(parser, short, long, args, v1, v2);
    values := parser.Values(long);
    value := parser.Value(long);
    shortValues := parser.Values(short);
  }

  /** `-o`/`--output <file>` given as `--output out.bin --output=out2.bin`. */
  method OutputGivenTwice() returns (values: seq<string>, value: string, shortValues: seq<string>)
    ensures values == ["out.bin", "out2.bin"] && shortValues == values
    ensures value == "out2.bin"
  {
    values, value, shortValues := OptionGivenTwice("o", "output", ["app", "--output", "out.bin", "--output=out2.bin"], "out.bin", "out2.bin");
  }

  class Parser {
    /** The registered options, in registration order (`commandLineOptionList`). */
    var options: seq<Option>
    /** Every alias of every registered option, mapped to the option's offset. */
    var nameHash: map<string, nat>
    /** The values captured by the last parse, per option offset. */
    var optionValuesHash: map<nat, seq<string>>
    /** The registered names met by the last parse, in order, repetitions included. */
    var optionNames: seq<string>
    var positionalArgumentList: seq<string>
    var unknownOptionNames: seq<string>
    /** The last missing-value or unexpected-value error of the last parse. */
    var errorText: string
    var description: string
    var positionalArgumentDefinitions: seq<HelpFormat.PositionalArgumentDefinition>
    var singleDashWordOptionMode: SingleDashWordOptionMode
    var optionsAfterPositionalArgumentsMode: OptionsAfterPositionalArgumentsMode
    var builtinVersionOption: bool
    var builtinHelpOption: bool
    /** Cleared by parsing; the source only prints a diagnostic when a query finds it set. */
    var needsParsing: bool

    /** The hash and the option list agree (see `Hashed`). */
    ghost predicate Valid()
      reads this`options, this`nameHash
    {
      Hashed(options, nameHash)
    }

    /** Every hashed offset is an offset of the option list: all that parsing relies on. */
    ghost predicate HashInRange()
      reads this`options, this`nameHash
    {
      forall n :: n in nameHash ==> nameHash[n] < |options|
    }

    /** What parsing reads of the registered options. */
    function Reg(): Registry
      reads this`options, this`nameHash, options
    {
      Registry(nameHash, WithValue(options))
    }

    /** The registry reads only the option list, the hash and the options' value names. */
    twostate lemma RegistryKept()
      requires old(options) == options && old(nameHash) == nameHash
      requires forall k :: 0 <= k < |options| ==> old(options[k].valueName) == options[k].valueName
      ensures Reg() == old(Reg())
    {
      assert WithValue(options) == old(WithValue(options));
    }

    /** What parsing writes. */
    function State(): ParseState
      reads this`optionNames, this`unknownOptionNames, this`positionalArgumentList, this`optionValuesHash, this`errorText
    {
      ParseState(optionNames, unknownOptionNames, positionalArgumentList, optionValuesHash, errorText)
    }

    constructor ()
      ensures Valid()
      ensures options == [] && nameHash == map[] && State() == Cleared
      ensures description == "" && positionalArgumentDefinitions == []
      ensures singleDashWordOptionMode == ParseAsCompactedShortOptions
      ensures optionsAfterPositionalArgumentsMode == ParseAsOptions
      ensures !builtinVersionOption && !builtinHelpOption && needsParsing
    {
      options, nameHash := [], map[];
      optionValuesHash, optionNames, positionalArgumentList, unknownOptionNames, errorText := map[], [], [], [], "";
      description, positionalArgumentDefinitions := "", [];
      singleDashWordOptionMode := ParseAsCompactedShortOptions;
      optionsAfterPositionalArgumentsMode := ParseAsOptions;
      builtinVersionOption, builtinHelpOption, needsParsing := false, false, true;
    }

    method SetSingleDashWordOptionMode(mode: SingleDashWordOptionMode)
      modifies this`singleDashWordOptionMode
      ensures singleDashWordOptionMode == mode
    {
      singleDashWordOptionMode := mode;
    }

    method SetOptionsAfterPositionalArgumentsMode(mode: OptionsAfterPositionalArgumentsMode)
      modifies this`optionsAfterPositionalArgumentsMode
      ensures optionsAfterPositionalArgumentsMode == mode
    {
      optionsAfterPositionalArgumentsMode := mode;
    }

    /** `addOption`: refused when the option has no name or one of its names is taken;
        otherwise appended, with all its names hashed to its offset. */
    method AddOption(option: Option) returns (ok: bool)
      requires Valid()
      modifies this`options, this`nameHash
      ensures Valid()
      ensures ok == Admissible(old(nameHash).Keys, option.names)
      ensures ok ==> options == old(options) + [option]
      ensures ok ==> forall n :: n in nameHash <==> n in old(nameHash) || n in option.names
      ensures ok ==> forall n :: n in option.names ==> nameHash[n] == |old(options)|
      ensures ok ==> forall n :: n in old(nameHash) ==> nameHash[n] == old(nameHash)[n]
      ensures !ok ==> options == old(options) && nameHash == old(nameHash)
    {
      var names := option.names;
      if names == [] {
        return false;
      }
      var i := 0;
      while i < |names|
        invariant 0 <= i <= |names|
        invariant forall k :: 0 <= k < i ==> names[k] !in nameHash
      {
        if names[i] in nameHash {
          return false;
        }
        i := i + 1;
      }
      options := options + [option];
      var offset := |options| - 1;
      i := 0;
      while i < |names|
        invariant 0 <= i <= |names|
        invariant options == old(options) + [option]
        invariant forall n :: n in nameHash <==> n in old(nameHash) || n in names[..i]
        invariant forall n :: n in names[..i] ==> nameHash[n] == offset
        invariant forall n :: n in old(nameHash) ==> nameHash[n] == old(nameHash)[n]
      {
        nameHash := nameHash[names[i] := offset];
        i := i + 1;
      }
      assert names[..|names|] == names;
      HashedAfterAppend(old(options), old(nameHash), option, nameHash);
      ok := true;
    }

    /** `addOptions`: offers the options one by one, going on past a refused one, and reports
        whether all were accepted. The accepted ones are appended in order (`Accepted`); the
        earlier registrations stay as they were. */
    method AddOptions(opts: seq<Option>) returns (result: bool)
      requires Valid()
      modifies this`options, this`nameHash
      ensures Valid()
      ensures options == old(options) + Accepted(old(nameHash).Keys, opts)
      ensures nameHash.Keys == KeysAfter(old(nameHash).Keys, opts)
      ensures |old(options)| <= |options| <= |old(options)| + |opts|
      ensures forall k :: |old(options)| <= k < |options| ==> options[k] in opts
      ensures result <==> options == old(options) + opts
      ensures forall n :: n in old(nameHash) ==> n in nameHash && nameHash[n] == old(nameHash)[n]
    {
      result := true;
      var i := 0;
      while i < |opts|
        invariant 0 <= i <= |opts|
        invariant AddOptionsLoop(old(options), old(nameHash), opts, i, result)
      {
        result := OfferOption(old(options), old(nameHash), opts, i, result);
        i := i + 1;
      }
      assert opts[..|opts|] == opts;
      AppendedAccepted(old(options), old(nameHash).Keys, opts, options);
    }

    /** The state of `addOptions` after offering `opts[..i]` to a parser that held `options0`
        and `hash0`: the accepted ones appended, their names registered, the earlier
        registrations kept, and `result` telling whether all were accepted. */
    ghost predicate AddOptionsLoop(options0: seq<Option>, hash0: map<string, nat>, opts: seq<Option>, i: nat, result: bool)
      reads this`options, this`nameHash
      requires i <= |opts|
    {
      && Valid()
      && options == options0 + Accepted(hash0.Keys, opts[..i])
      && nameHash.Keys == KeysAfter(hash0.Keys, opts[..i])
      && (result <==> Accepted(hash0.Keys, opts[..i]) == opts[..i])
      && (forall n :: n in hash0 ==> n in nameHash && nameHash[n] == hash0[n])
    }

    /** One pass of the loop of `addOptions`: offers `opts[i]` and folds its answer into
        `result`. */
    method OfferOption(ghost options0: seq<Option>, ghost hash0: map<string, nat>, opts: seq<Option>, i: nat, result: bool)
      returns (result': bool)
      requires i < |opts| && AddOptionsLoop(options0, hash0, opts, i, result)
      modifies this`options, this`nameHash
      ensures AddOptionsLoop(options0, hash0, opts, i + 1, result')
    {
      AcceptedStep(hash0.Keys, opts, i);
      ghost var keys, accepted := nameHash.Keys, Accepted(hash0.Keys, opts[..i]);
      var ok := AddOption(opts[i]);
      if ok {
        assert nameHash.Keys == keys + NameSet(opts[i].names);
        assert options == options0 + (accepted + [opts[i]]);
      } else {
        assert options == options0 + (accepted + []);
      }
      result' := result && ok;
    }

    /** The builtin options' names pass sanitising unchanged. */
    static lemma BuiltinNamesKept()
      ensures RemoveInvalidNames(["v", "version"]) == ["v", "version"]
      ensures RemoveInvalidNames(["h", "help"]) == ["h", "help"]
    {
      ValidNamesKept(["v", "version"]);
      ValidNamesKept(["h", "help"]);
    }

    /** `addVersionOption`: registers `-v`/`--version` when both names are free; the builtin
        flag is set either way. */
    method AddVersionOption() returns (opt: Option)
      requires Valid()
      modifies this`options, this`nameHash, this`builtinVersionOption
      ensures Valid() && builtinVersionOption
      ensures fresh(opt)
      ensures opt.names == ["v", "version"] && opt.description == "Displays version information."
      ensures opt.valueName == "" && opt.defaultValues == [] && !opt.hidden
      ensures options == if Admissible(old(nameHash).Keys, ["v", "version"]) then old(options) + [opt] else old(options)
    {
      BuiltinNamesKept();
      opt := new Option.DescribedFromNames(["v", "version"], "Displays version information.", "", "");
      var _ := AddOption(opt);
      builtinVersionOption := true;
    }

    /** `addHelpOption`: registers `-h`/`--help` when both names are free; the builtin flag is
        set either way. */
    method AddHelpOption() returns (opt: Option)
      requires Valid()
      modifies this`options, this`nameHash, this`builtinHelpOption
      ensures Valid() && builtinHelpOption
      ensures fresh(opt)
      ensures opt.names == ["h", "help"] && opt.description == "Displays this help."
      ensures opt.valueName == "" && opt.defaultValues == [] && !opt.hidden
      ensures options == if Admissible(old(nameHash).Keys, ["h", "help"]) then old(options) + [opt] else old(options)
    {
      BuiltinNamesKept();
      opt := new Option.DescribedFromNames(["h", "help"], "Displays this help.", "", "");
      var _ := AddOption(opt);
      builtinHelpOption := true;
    }

    method SetApplicationDescription(description: string)
      modifies this`description
      ensures this.description == description
    {
      this.description := description;
    }

    function ApplicationDescription(): string
      reads this`description
    {
      description
    }

    /** `addPositionalArgument`: an empty syntax defaults to the name. */
    method AddPositionalArgument(name: string, description: string, syntax: string)
      modifies this`positionalArgumentDefinitions
      ensures positionalArgumentDefinitions == old(positionalArgumentDefinitions)
        + [HelpFormat.PositionalArgumentDefinition(name, description, if syntax == "" then name else syntax)]
    {
      var arg := HelpFormat.PositionalArgumentDefinition(name, description, if syntax == "" then name else syntax);
      positionalArgumentDefinitions := positionalArgumentDefinitions + [arg];
    }

    method ClearPositionalArguments()
      modifies this`positionalArgumentDefinitions
      ensures positionalArgumentDefinitions == []
    {
      positionalArgumentDefinitions := [];
    }

    /** `registerFoundOption`. */
    method RegisterFoundOption(optionName: string, ghost reg: Registry) returns (found: bool)
      requires reg.nameHash == nameHash
      modifies this`optionNames, this`unknownOptionNames
      ensures found <==> optionName in nameHash
      ensures State() == Register(reg, old(State()), optionName)
    {
      if optionName in nameHash {
        optionNames := optionNames + [optionName];
        return true;
      } else {
        unknownOptionNames := unknownOptionNames + [optionName];
        return false;
      }
    }

    /** `parseOptionValue`; the argument iterator is the index `j`, returned as `next`. The
        ghost `reg` is what the parse reads of the registered options. */
    method ParseOptionValue(optionName: string, argument: string, args: seq<string>, j: nat, ghost reg: Registry)
      returns (next: nat, ok: bool)
      requires reg == Reg() && Indexed(reg) && j < |args|
      modifies this`optionValuesHash, this`errorText
      ensures Binding(State(), next, ok) == BindValue(reg, optionName, argument, args, j, old(State()))
    {
      next := j;
      if optionName in nameHash {
        var assignPos := Find(argument, '=');
        var optionOffset := nameHash[optionName];
        var withValue := options[optionOffset].valueName != "";
        assert withValue == TakesValue(reg, optionOffset);
        if withValue {
          if assignPos == |argument| {
            next := next + 1;
            if next == |args| {
              errorText := "Missing value after '" + argument + "%1" + "'.";
              return next, false;
            }
            optionValuesHash := optionValuesHash[optionOffset := Captured(optionValuesHash, optionOffset) + [args[next]]];
          } else {
            optionValuesHash := optionValuesHash[optionOffset := Captured(optionValuesHash, optionOffset) + [argument[assignPos + 1..]]];
          }
        } else if assignPos != |argument| {
          errorText := "Unexpected value after '" + argument[assignPos..] + "%1" + "'.";
          return next, false;
        }
      }
      return next, true;
    }

    /** A long option: the name is the text of `body` before its first '='. */
    method ParseLongOption(body: string, argument: string, args: seq<string>, j: nat, error: bool, ghost reg: Registry)
      returns (next: nat, err: bool)
      requires reg == Reg() && Indexed(reg) && j < |args|
      modifies this`optionNames, this`unknownOptionNames, this`optionValuesHash, this`errorText
      ensures Cursor(State(), next, false, err) == LongOption(reg, body, argument, args, j, old(State()), error)
    {
      var optionName := body;
      optionName := optionName[..Find(optionName, '=')];
      next, err := j, error;
      var found := RegisterFoundOption(optionName, reg);
      if found {
        var ok;
        next, ok := ParseOptionValue(optionName, argument, args, j, reg);
        if !ok {
          err := true;
        }
      } else {
        err := true;
      }
    }

    /** The letter walk over a compacted cluster `-abc`. */
    method WalkCompacted(argument: string, error: bool, ghost reg: Registry) returns (err: bool, optionName: string, valueFound: bool)
      requires reg == Reg() && Indexed(reg) && 1 <= |argument|
      modifies this`optionNames, this`unknownOptionNames, this`optionValuesHash
      ensures Walk(State(), err, optionName, valueFound)
           == WalkCluster(reg, argument, 1, Walk(old(State()), error, "", false))
    {
      err, optionName, valueFound := error, "", false;
      ghost var target := WalkCluster(reg, argument, 1, Walk(State(), error, "", false));
      var pos := 1;
      while pos < |argument|
        invariant 1 <= pos <= |argument|
        invariant Reg() == reg
        invariant WalkCluster(reg, argument, pos, Walk(State(), err, optionName, valueFound)) == target
      {
        WalkClusterStep(reg, argument, pos, Walk(State(), err, optionName, valueFound));
        optionName := [argument[pos]];
        var found := RegisterFoundOption(optionName, reg);
        if !found {
          err := true;
        } else {
          var optionOffset := nameHash[optionName];
          var withValue := options[optionOffset].valueName != "";
          assert withValue == TakesValue(reg, optionOffset);
          if withValue {
            if pos + 1 < |argument| {
              if argument[pos + 1] == '=' {
                pos := pos + 1;
              }
              optionValuesHash := optionValuesHash[optionOffset := Captured(optionValuesHash, optionOffset) + [argument[pos + 1..]]];
              valueFound := true;
            }
            assert Walk(State(), err, optionName, valueFound) == target;
            break;
          }
          if pos + 1 < |argument| && argument[pos + 1] == '=' {
            assert Walk(State(), err, optionName, valueFound) == target;
            break;
          }
        }
        pos := pos + 1;
      }
      assert Walk(State(), err, optionName, valueFound) == target;
    }

    /** A single-dash word of two or more characters, read as the mode says. */
    method ParseSingleDashWord(argument: string, args: seq<string>, j: nat, error: bool, ghost reg: Registry)
      returns (next: nat, err: bool)
      requires reg == Reg() && Indexed(reg) && j < |args| && |argument| >= 2
      modifies this`optionNames, this`unknownOptionNames, this`optionValuesHash, this`errorText
      ensures Cursor(State(), next, false, err)
           == match singleDashWordOptionMode
              case ParseAsCompactedShortOptions => ShortCluster(reg, argument, args, j, old(State()), error)
              case ParseAsLongOptions => LongOption(reg, argument[1..], argument, args, j, old(State()), error)
    {
      next := j;
      match singleDashWordOptionMode
      case ParseAsCompactedShortOptions =>
        var optionName, valueFound;
        err, optionName, valueFound := WalkCompacted(argument, error, reg);
        if !valueFound {
          var ok;
          next, ok := ParseOptionValue(optionName, argument, args, j, reg);
          if !ok {
            err := true;
          }
        }
      case ParseAsLongOptions =>
        next, err := ParseLongOption(argument[1..], argument, args, j, error, reg);
    }

    /** The body of the token loop for the token at `j`. */
    method ParseArgument(args: seq<string>, j: nat, forcePositional: bool, error: bool, ghost reg: Registry)
      returns (next: nat, force: bool, err: bool)
      requires reg == Reg() && Indexed(reg) && j < |args|
      modifies this`optionNames, this`unknownOptionNames, this`positionalArgumentList, this`optionValuesHash, this`errorText
      ensures j <= next <= |args|
      ensures ParseFrom(reg, singleDashWordOptionMode, optionsAfterPositionalArgumentsMode, args, j, forcePositional, error, old(State()))
           == if next == |args| then ParseResult(State(), !err)
              else ParseFrom(reg, singleDashWordOptionMode, optionsAfterPositionalArgumentsMode, args, next + 1, force, err, State())
    {
      ghost var st := State();
      var argument := args[j];
      next, force, err := j, forcePositional, error;
      if forcePositional {
        positionalArgumentList := positionalArgumentList + [argument];
      } else if StartsWith(argument, "--") {
        if |argument| > 2 {
          next, err := ParseLongOption(argument[2..], argument, args, j, error, reg);
        } else {
          force := true;
        }
      } else if StartsWith(argument, "-") {
        if |argument| == 1 {
          positionalArgumentList := positionalArgumentList + [argument];
        } else {
          next, err := ParseSingleDashWord(argument, args, j, error, reg);
        }
      } else {
        positionalArgumentList := positionalArgumentList + [argument];
        if optionsAfterPositionalArgumentsMode == ParseAsPositionalArguments {
          force := true;
        }
      }
      ParseFromStep(reg, singleDashWordOptionMode, optionsAfterPositionalArgumentsMode, args, j, forcePositional, error, st,
                    Cursor(State(), next, force, err));
    }

    /** The token loop of `parse`: the tokens after the executable name, read in order from
        the current state; it stops early only when a value was sought past the last token. */
    method ParseTokens(args: seq<string>, ghost reg: Registry) returns (ok: bool)
      requires reg == Reg() && Indexed(reg) && args != []
      modifies this`optionNames, this`unknownOptionNames, this`positionalArgumentList, this`optionValuesHash, this`errorText
      ensures Reg() == reg
      ensures ParseResult(State(), ok)
           == ParseFrom(reg, singleDashWordOptionMode, optionsAfterPositionalArgumentsMode, args, 1, false, false, old(State()))
    {
      var error := false;
      var forcePositional := false;
      var j := 1;
      while j < |args|
        invariant 1 <= j <= |args| && Reg() == reg
        invariant ParseFrom(reg, singleDashWordOptionMode, optionsAfterPositionalArgumentsMode, args, j, forcePositional, error, State())
               == ParseFrom(reg, singleDashWordOptionMode, optionsAfterPositionalArgumentsMode, args, 1, false, false, old(State()))
      {
        var next;
        next, forcePositional, error := ParseArgument(args, j, forcePositional, error, reg);
        if next == |args| {
          break;
        }
        j := next + 1;
      }
      return !error;
    }

    /** `parse(args)`: clears the previous results; an empty list fails at once, otherwise the
        executable name is skipped and the other tokens are read. */
    method Parse(args: seq<string>) returns (ok: bool)
      requires HashInRange()
      modifies this`optionNames, this`unknownOptionNames, this`positionalArgumentList, this`optionValuesHash,
               this`errorText, this`needsParsing
      ensures !needsParsing
      ensures ParseResult(State(), ok)
           == ParseArguments(Reg(), singleDashWordOptionMode, optionsAfterPositionalArgumentsMode, args)
      ensures ok <==> args != [] && ErrorMessage(errorText, unknownOptionNames) == ""
      ensures forall n :: n in optionNames ==> n in nameHash
      ensures CapturesOnlyValueOptions()
    {
      needsParsing := false;
      errorText, positionalArgumentList, optionNames, unknownOptionNames, optionValuesHash := "", [], [], [], map[];
      assert State() == Cleared;
      if args == [] {
        ok := false;
      } else {
        ok := ParseTokens(args, Reg());
      }
      ParseProperties.ParseSucceedsIffNoError(Reg(), singleDashWordOptionMode, optionsAfterPositionalArgumentsMode, args);
      ParseProperties.ParseRecordsNamesByRegistration(Reg(), singleDashWordOptionMode, optionsAfterPositionalArgumentsMode, args);
      ParseProperties.ParseCapturesOnlyValueOptions(Reg(), singleDashWordOptionMode, optionsAfterPositionalArgumentsMode, args);
    }

    /** What a parse leaves in the captured values: entries only for options that take a value,
        and never an empty list. */
    ghost predicate CapturesOnlyValueOptions()
      reads this`options, this`optionValuesHash, options
    {
      forall k :: k in optionValuesHash ==> k < |options| && options[k].valueName != "" && optionValuesHash[k] != []
    }

    /** `errorText()`. */
    method ErrorText() returns (r: string)
      ensures r == ErrorMessage(errorText, unknownOptionNames)
    {
      if errorText != "" {
        return errorText;
      }
      if |unknownOptionNames| == 1 {
        return "Unknown option '" + unknownOptionNames[0] + "'.";
      }
      if |unknownOptionNames| > 1 {
        var result := "";
        var k := 0;
        while k < |unknownOptionNames|
          invariant 0 <= k <= |unknownOptionNames|
          invariant result == Concat(unknownOptionNames[..k])
        {
          ConcatStep(unknownOptionNames, k);
          result := result + unknownOptionNames[k];
          k := k + 1;
        }
        ConcatAll(unknownOptionNames);
        return "Unknown options: " + result + ".";
      }
      return "";
    }

    /** `aliases(optionName)`: the names of the option registered under `optionName`, which
        are exactly the names hashed to the same offset; none for an unregistered name. */
    function Aliases(optionName: string): (r: seq<string>)
      requires Valid()
      reads this`options, this`nameHash
      ensures optionName !in nameHash ==> r == []
      ensures optionName in nameHash ==> optionName in r
      ensures forall n :: n in r <==> optionName in nameHash && n in nameHash && nameHash[n] == nameHash[optionName]
    {
      if optionName in nameHash then options[nameHash[optionName]].names else []
    }

    /** `isSet(name)`: the name itself, or one of the aliases of the option registered under
        it, was met by the last parse. */
    predicate IsSet(name: string)
      requires Valid()
      reads this`options, this`nameHash, this`optionNames
    {
      name in optionNames || exists optionName :: optionName in optionNames && optionName in Aliases(name)
    }

    /** `isSet(name)` as the source runs it: a search of the recorded names for `name`, then
        for each recorded name a search of the aliases of `name`. */
    method IsSetQuery(name: string) returns (r: bool)
      requires Valid()
      ensures r == IsSet(name)
    {
      if name in optionNames {
        return true;
      }
      var aliases := Aliases(name);
      var k := 0;
      while k < |optionNames|
        invariant 0 <= k <= |optionNames|
        invariant forall m :: 0 <= m < k ==> optionNames[m] !in aliases
      {
        if optionNames[k] in aliases {
          return true;
        }
        k := k + 1;
      }
      return false;
    }

    /** Once only registered names were recorded (as after any parse), `isSet(name)` holds
        exactly when `name` is registered and some recorded name belongs to the same option. */
    lemma IsSetByOffset(name: string)
      requires Valid()
      requires forall n :: n in optionNames ==> n in nameHash
      ensures IsSet(name) <==> name in nameHash && exists n :: n in optionNames && nameHash[n] == nameHash[name]
    {
      if name in optionNames {
        assert nameHash[name] == nameHash[name];
      }
      if name in nameHash {
        forall n | n in optionNames && nameHash[n] == nameHash[name]
          ensures n in Aliases(name)
        {
        }
      }
    }

    /** Every alias of an option answers `isSet` alike. */
    lemma IsSetAgreesOnAliases(a: string, b: string)
      requires Valid()
      requires forall n :: n in optionNames ==> n in nameHash
      requires a in nameHash && b in nameHash && nameHash[a] == nameHash[b]
      ensures IsSet(a) <==> IsSet(b)
    {
      IsSetByOffset(a);
      IsSetByOffset(b);
    }

    /** `values(optionName)`: the values captured for the option registered under the name,
        or its default values when none was captured; nothing for an unregistered name. */
    function Values(optionName: string): (r: seq<string>)
      requires Valid()
      reads this`options, this`nameHash, this`optionValuesHash, options
      ensures optionName !in nameHash ==> r == []
      ensures optionName in nameHash && Captured(optionValuesHash, nameHash[optionName]) != [] ==>
                r == Captured(optionValuesHash, nameHash[optionName])
      ensures optionName in nameHash && Captured(optionValuesHash, nameHash[optionName]) == [] ==>
                r == options[nameHash[optionName]].defaultValues
    {
      if optionName in nameHash then
        var optionOffset := nameHash[optionName];
        var values := Captured(optionValuesHash, optionOffset);
        if values == [] then options[optionOffset].defaultValues else values
      else []
    }

    /** `value(optionName)`: the last of `values(optionName)`, or empty. */
    function Value(optionName: string): (r: string)
      requires Valid()
      reads this`options, this`nameHash, this`optionValuesHash, options
      ensures Values(optionName) == [] ==> r == ""
      ensures Values(optionName) != [] ==> r == Values(optionName)[|Values(optionName)| - 1]
    {
      var valueList := Values(optionName);
      if valueList != [] then valueList[|valueList| - 1] else ""
    }

    /** Every alias of an option answers `values` and `value` alike. */
    lemma ValuesAgreeOnAliases(a: string, b: string)
      requires Valid()
      requires a in nameHash && b in nameHash && nameHash[a] == nameHash[b]
      ensures Values(a) == Values(b) && Value(a) == Value(b)
    {
    }

    /** After a parse, an option that takes no value has nothing captured, so `values` answers
        its default values and `value` the last of them. */
    lemma FlagAnswersDefaults(name: string)
      requires Valid() && CapturesOnlyValueOptions()
      requires name in nameHash && options[nameHash[name]].valueName == ""
      ensures Values(name) == options[nameHash[name]].defaultValues
      ensures var d := options[nameHash[name]].defaultValues; Value(name) == if d == [] then "" else d[|d| - 1]
    {
      assert nameHash[name] !in optionValuesHash;
    }

    /** After a parse, a value-taking option that was given values answers them, in token
        order, and never its defaults; one given none answers its defaults. */
    lemma ValuesAfterParse(name: string)
      requires Valid() && CapturesOnlyValueOptions()
      requires name in nameHash
      ensures nameHash[name] in optionValuesHash ==> Values(name) == optionValuesHash[nameHash[name]] != []
      ensures nameHash[name] !in optionValuesHash ==> Values(name) == options[nameHash[name]].defaultValues
    {
    }

    /** `isSet(option)`: false for a descriptor without names, otherwise `isSet` of its first. */
    predicate IsSetOption(option: Option)
      requires Valid()
      reads this`options, this`nameHash, this`optionNames
    {
      option.names != [] && IsSet(option.names[0])
    }

    /** `values(option)`: the descriptor's first name is read unguarded, so it must have one. */
    function ValuesOf(option: Option): (r: seq<string>)
      requires Valid() && option.names != []
      reads this`options, this`nameHash, this`optionValuesHash, options
    {
      Values(option.names[0])
    }

    /** `value(option)`, under the same demand. */
    function ValueOf(option: Option): (r: string)
      requires Valid() && option.names != []
      reads this`options, this`nameHash, this`optionValuesHash, options
    {
      Value(option.names[0])
    }

    function PositionalArguments(): (r: seq<string>)
      reads this`positionalArgumentList
    {
      positionalArgumentList
    }

    function OptionNames(): (r: seq<string>)
      reads this`optionNames
    {
      optionNames
    }

    function UnknownOptionNames(): (r: seq<string>)
      reads this`unknownOptionNames
    {
      unknownOptionNames
    }

    /** `helpText()`: the options and the positional argument definitions as registered now. */
    method HelpText() returns (text: string)
      ensures text == HelpFormat.HelpText(Entries(options), description, positionalArgumentDefinitions)
    {
      text := HelpTextOf(Entries(options), description, positionalArgumentDefinitions);
    }
  }
}
