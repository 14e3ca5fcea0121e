# QCommandLineParser, modelled in Dafny

This project models the core of a standalone C++ port of Qt's command-line parser. It covers two classes.

`QCommandLineOption` is an option descriptor. It holds the names an option answers to, the name of the value it takes (empty for a flag), a description, default values and a hidden flag. Copies of a descriptor share one payload.

`QCommandLineParser` keeps three things:

- a registry: the option list plus a hash from every alias to the option's offset;
- the positional argument definitions;
- the results of the last `parse`: the names met, the unknown names, the positional arguments, the captured values per option and the last value error.

It also answers queries over those results (`errorText`, `isSet`, `values`, `value`) and builds the help text.

Modules:

- `Strings`: the library calls the source relies on, written out. These are `find`, prefix tests, `setw`/`left` padding and C `isspace` in the "C" locale.
- `CommandLineOption`: name sanitising, and the descriptor as a class `Option`.
  - The names are a `const`, since the source has no setter for them.
  - The other fields are updated by the setters.
  - A copy is the same reference, so a setter called through any copy is seen through every copy, including the one a parser keeps.
  - A name is refused (`IsInvalidName`) exactly when it is empty, starts with `-` or `/`, or contains `=`.
- `ParseSpec`: the parse algorithm as functions over values.
  - `ParseFrom` is the token loop and `ParseToken` its body.
  - `LongOption` handles `--name[=v]` and, in long-options mode, `-name[=v]`.
  - `WalkCluster` is the letter walk over a compacted `-abc` cluster.
  - `Register` is `registerFoundOption` and `BindValue` is `parseOptionValue`.
  - `ErrorMessage` is `errorText()`.
- `ParseProperties`: what a parse promises, stated over `ParseSpec`.
- `HelpFormat`: `wrapText` and `helpText` as functions.
  - `WrapFrom` follows the wrapping loop and yields the pieces of the description it emits, one per output line.
- `HelpProperties`: what the layout promises, plus the loop invariants that tie the imperative loops to `HelpFormat`.
- `CommandLineParser`: the parser as a class `Parser`, written imperatively as the source is.
  - Fields: the option list (`seq<Option>`), the alias hash (`map<string, nat>`), the captured values (`map<nat, seq<string>>`) and the result lists.
  - `parse` is a token loop. The argument iterator becomes an index that `ParseOptionValue` returns moved on.
  - The help text and `wrapText` are loops too.
  - Each method is proved to compute the matching `ParseSpec` or `HelpFormat` function.

Behaviour the model reproduces as written:

- Error texts carry a literal `%1`, e.g. `Missing value after '--out%1'.`.
- Several unknown names are run together with no separator, as in `Unknown options: ab.`.
- A value error does not stop the token loop. An unexpected value on a flag is recorded, and parsing goes on with the next token (`UnexpectedValueDoesNotStop`). So the error text kept is the last one, not the first. Only a missing value ends the loop, because the input is exhausted then.
- An empty argument list makes `parse` return false and leaves the error text empty.
- In a compacted cluster, after the walk, value binding receives the last letter looked at together with the whole token. Its search for `=` therefore covers the whole token.
- `addVersionOption` and `addHelpOption` set their builtin flag even when registration fails.
- In `wrapText`, after a break the loop sets `i = lineStart` and then increments it. So the first character of a continuation line is never examined. A continuation line can then hold one character more than the first line (`LongContinuationLine`). A lone character after a line break is never emitted: `"ab\nc"` loses its `c` (`LoneCharacterAfterNewlineDropped`).

## Model

| member | source | states |
|---|---|---|
| Strings.Find | qcommandlineparser.cpp:340 | the result is the position of the first occurrence of the character, or the length of the string where `find` gives `npos`; no earlier position holds it |
| Strings.PadRight | qcommandlineparser.cpp:568 | the name is kept in front, padded with blanks up to the width and never truncated |
| Strings.ConcatStep | qcommandlineparser.cpp:240-241 | appending one more string to the run-together text |
| CommandLineOption.RemoveInvalidNames | qcommandlineoption.cpp:162-170 | a name is kept iff it is in the input and valid; the result is a subsequence of the input, so relative order is kept; every valid name keeps its number of occurrences and no invalid one remains (as multisets); an empty list comes back empty |
| CommandLineOption.ValidNamesKept | qcommandlineoption.cpp:162-170 | a list of valid names passes sanitising unchanged |
| CommandLineOption.RemoveInvalidNamesIdempotent | qcommandlineoption.cpp:162-170 | sanitising twice is sanitising once |
| CommandLineOption.SingleNameSanitised | qcommandlineoption.cpp:50-55 | the single-name payload keeps `[name]` for a valid name and nothing otherwise |
| CommandLineOption.Option.constructor | qcommandlineoption.cpp:81-84 | names are `[name]` or `[]`; value name, description and defaults are empty; not hidden |
| CommandLineOption.Option.FromNames | qcommandlineoption.cpp:86-89 | names are the sanitised list; the other fields are empty; not hidden |
| CommandLineOption.Option.Described | qcommandlineoption.cpp:91-99 | sanitised single name; value name and description as given; defaults `[v]` for a non-empty default and `[]` otherwise; not hidden |
| CommandLineOption.Option.DescribedFromNames | qcommandlineoption.cpp:101-109 | the same for a list of names |
| CommandLineOption.Option.Copy | qcommandlineoption.cpp:111-124 | a copy is the very same descriptor, so later setter calls are shared |
| CommandLineOption.Option.SetValueName | qcommandlineoption.cpp:172-175 | stores the value name and changes nothing else |
| CommandLineOption.Option.SetDescription | qcommandlineoption.cpp:182-185 | stores the description and changes nothing else |
| CommandLineOption.Option.SetDefaultValue | qcommandlineoption.cpp:192-201 | defaults become `[v]`, or `[]` when `v` is empty; at most one default, and none exactly when `v` is empty |
| CommandLineOption.Option.SetDefaultValues | qcommandlineoption.cpp:203-206 | stores the list verbatim, empty strings included |
| CommandLineOption.Option.SetHidden | qcommandlineoption.cpp:213-216 | stores the flag and changes nothing else |
| CommandLineParser.WithValue | qcommandlineparser.cpp:342 | an option takes a value exactly when its value name is non-empty |
| CommandLineParser.HashedAfterAppend | qcommandlineparser.cpp:157-161 | appending an option whose names are all new, and hashing them to its offset, keeps hash and list in agreement |
| CommandLineParser.Parser.constructor | qcommandlineparser.cpp:64-70 | an empty registry and cleared results; compacted short options; options recognised after positionals; no builtins; parsing needed |
| CommandLineParser.Parser.SetSingleDashWordOptionMode | qcommandlineparser.cpp:135-138 | sets the mode and nothing else |
| CommandLineParser.Parser.SetOptionsAfterPositionalArgumentsMode | qcommandlineparser.cpp:140-143 | sets the mode and nothing else |
| CommandLineParser.Parser.AddOption | qcommandlineparser.cpp:145-167 | succeeds iff the option has a name and none of its names is registered; on failure list and hash are unchanged; on success the option is appended, each of its names maps to the new last offset and earlier names keep theirs; hash and list stay in agreement |
| CommandLineParser.Parser.AddOptions | qcommandlineparser.cpp:169-176 | the list becomes exactly the old list followed by `Accepted`: each option in turn, kept iff it has a name and none of its names is registered by then, so a refused option is skipped and the loop goes on with the next; the hash keys become `KeysAfter`; the result is true iff every option was appended; registered names keep their offsets |
| CommandLineParser.Parser.OfferOption | qcommandlineparser.cpp:172-173 | one turn of the `addOptions` loop keeps its invariant: list and keys are `Accepted`/`KeysAfter` of the options offered so far, and the running result is true iff all were accepted |
| CommandLineParser.AcceptedIsSubsequence | qcommandlineparser.cpp:169-176 | the appended options are a subsequence of the offered ones, so their order is kept |
| CommandLineParser.KeysAfterBound | qcommandlineparser.cpp:169-176 | the registered names only grow, and only by names of offered options |
| CommandLineParser.AllFreshAccepted | qcommandlineparser.cpp:169-176 | options whose names are new and pairwise disjoint are all appended, so `addOptions` returns true |
| CommandLineParser.RefusedOptionSkipped | qcommandlineparser.cpp:169-176 | offering `[a, b]` with `a`'s name taken appends `b` alone: the refusal of `a` does not stop the loop |
| CommandLineParser.Parser.AddVersionOption | qcommandlineparser.cpp:178-187 | returns a fresh `-v`/`--version` flag described "Displays version information."; it is appended iff both names were free; the builtin flag is set either way |
| CommandLineParser.Parser.AddHelpOption | qcommandlineparser.cpp:189-201 | the same for `-h`/`--help`, "Displays this help." |
| CommandLineParser.Parser.SetApplicationDescription | qcommandlineparser.cpp:203-206 | stores the description |
| CommandLineParser.Parser.AddPositionalArgument | qcommandlineparser.cpp:213-220 | appends the definition; an empty syntax defaults to the name |
| CommandLineParser.Parser.ClearPositionalArguments | qcommandlineparser.cpp:222-225 | no definitions remain |
| CommandLineParser.Parser.RegisterFoundOption | qcommandlineparser.cpp:322-332 | returns whether the name is registered, and records it as met or as unknown accordingly (`Register`) |
| CommandLineParser.Parser.ParseOptionValue | qcommandlineparser.cpp:334-360 | computes exactly `BindValue`: new state, iterator position and success |
| CommandLineParser.Parser.ParseLongOption | qcommandlineparser.cpp:391-400 | computes exactly `LongOption` (the same code serves long-options mode at lines 439-449) |
| CommandLineParser.Parser.WalkCompacted | qcommandlineparser.cpp:414-434 | the letter loop computes exactly `WalkCluster` from the first letter |
| CommandLineParser.Parser.ParseSingleDashWord | qcommandlineparser.cpp:409-451 | by the mode: the compacted cluster (`ShortCluster`) or the long option after one dash (`LongOption`) |
| CommandLineParser.Parser.ParseArgument | qcommandlineparser.cpp:387-458 | one turn of the token loop: the rest of the parse from this token equals the result, or the rest of the parse from the following token |
| CommandLineParser.Parser.ParseTokens | qcommandlineparser.cpp:383-460 | the token loop from token 1 yields exactly `ParseFrom` and keeps the registry |
| CommandLineParser.Parser.Parse | qcommandlineparser.cpp:362-461 | the results are cleared, then exactly `ParseArguments` is computed; it returns true iff the list is non-empty and `errorText()` is empty; only registered names are recorded as met; values are captured only for options that take one, never as an empty list |
| CommandLineParser.Parser.ErrorText | qcommandlineparser.cpp:232-245 | the loop over the unknown names computes `ErrorMessage` |
| CommandLineParser.Parser.Aliases | qcommandlineparser.cpp:115-123 | empty for an unregistered name; otherwise exactly the names hashed to the same offset, the name itself included |
| CommandLineParser.Parser.IsSetQuery | qcommandlineparser.cpp:463-476 | true iff the name, or an alias of the option registered under it, was met by the last parse |
| CommandLineParser.Parser.IsSetByOffset | qcommandlineparser.cpp:463-476 | after a parse, `isSet(name)` holds iff the name is registered and some met name has the same offset |
| CommandLineParser.Parser.IsSetAgreesOnAliases | qcommandlineparser.cpp:463-476 | two aliases of one option answer `isSet` alike |
| CommandLineParser.Parser.Values | qcommandlineparser.cpp:489-506 | nothing for an unregistered name; a non-empty captured list wins over the defaults, which answer otherwise |
| CommandLineParser.Parser.Value | qcommandlineparser.cpp:478-487 | the last of `values`, or empty when there is none |
| CommandLineParser.Parser.ValuesAgreeOnAliases | qcommandlineparser.cpp:478-506 | two aliases of one option answer `values` and `value` alike |
| CommandLineParser.Parser.FlagAnswersDefaults | qcommandlineparser.cpp:478-506 | after a parse, a flag has nothing captured: `values` is its defaults and `value` the last default or empty |
| CommandLineParser.Parser.ValuesAfterParse | qcommandlineparser.cpp:489-506 | after a parse, a value option given values answers them, a non-empty list, and not its defaults; one given none answers its defaults |
| CommandLineParser.TwoNameParser | qcommandlineparser.cpp:145-167 | a new parser given one option with two valid names and a value name registers both names at offset 0 |
| CommandLineParser.ParseGivenTwice | qcommandlineparser.cpp:362-461 | parsing `--name v1 --name=v2` on that parser captures `[v1, v2]` for offset 0 and keeps the registry |
| CommandLineParser.OptionGivenTwice | qcommandlineparser.cpp:478-506 | end to end: register `-s`/`--long`, parse `--long v1 --long=v2`; `values` of either name is `[v1, v2]` and `value` is `v2` |
| CommandLineParser.OutputGivenTwice | qcommandlineparser.cpp:478-506 | `app --output out.bin --output=out2.bin`: `values("output")` and `values("o")` are `["out.bin", "out2.bin"]`, `value("output")` is `"out2.bin"` |
| CommandLineParser.OptionNamesString | qcommandlineparser.cpp:639-651 | the loop builds `NamesColumn`: each alias with one dash if one character long and two otherwise, joined by ", ", then ` <valueName>` when set |
| CommandLineParser.Usage | qcommandlineparser.cpp:621-626 | the loop builds `Usage` |
| CommandLineParser.OptionNameList | qcommandlineparser.cpp:633-654 | the first loop yields the name column of each visible option, in order, and the longest length |
| CommandLineParser.AppendOptionEntry | qcommandlineparser.cpp:657-661 | one turn of the second loop keeps its invariant: the text holds the entries of the visible options seen so far |
| CommandLineParser.AppendOptionEntries | qcommandlineparser.cpp:656-662 | the second loop appends the entry of every visible option, with one common width |
| CommandLineParser.AppendArgumentEntries | qcommandlineparser.cpp:667-668 | the loop appends the entry of every positional definition |
| CommandLineParser.HelpTextOf | qcommandlineparser.cpp:617-671 | builds exactly `HelpText`, with column width = longest visible name column + 1 |
| CommandLineParser.Parser.HelpText | qcommandlineparser.cpp:559-562 | the help text of the options, description and definitions registered now |
| CommandLineParser.WrapText | qcommandlineparser.cpp:564-615 | the wrapping loop builds exactly `Wrapped` |
| ParseSpec.BindValue | qcommandlineparser.cpp:334-360 | value binding moves the iterator by at most one token and never past the end |
| ParseSpec.LongOption | qcommandlineparser.cpp:391-400 | the iterator never moves back, nor past the end of the list |
| ParseSpec.WalkClusterStep | qcommandlineparser.cpp:414-434 | one letter of the walk, case by case: unknown letters are recorded and the walk goes on; a flag goes on unless `=` follows; a value letter stops the walk and takes the rest, less one leading `=`, or nothing at the end of the token |
| ParseSpec.ShortCluster | qcommandlineparser.cpp:410-437 | the iterator never moves back, nor past the end of the list |
| ParseSpec.ParseToken | qcommandlineparser.cpp:387-456 | the iterator never moves back, nor past the end of the list |
| ParseSpec.ParseFromStep | qcommandlineparser.cpp:386-459 | the token loop is one token, then the rest from the following position, unless the iterator reached the end |
| ParseSpec.ErrorMessage | qcommandlineparser.cpp:232-245 | empty iff there is neither a value error nor an unknown name; a stored value error is returned as is |
| ParseProperties.BindValueConsistent | qcommandlineparser.cpp:334-360 | value binding keeps the parse state consistent: met names registered, unknown names not, values only for value options, error iff error text or unknown names |
| ParseProperties.WalkConsistent | qcommandlineparser.cpp:414-434 | the letter walk keeps the state consistent |
| ParseProperties.TokenConsistent | qcommandlineparser.cpp:387-456 | every token keeps the state consistent |
| ParseProperties.ParseFromConsistent | qcommandlineparser.cpp:386-460 | the token loop keeps the state consistent, and its result is false iff an error was seen |
| ParseProperties.ParseRecordsNamesByRegistration | qcommandlineparser.cpp:322-332 | after a parse, every met name is registered and no unknown name is |
| ParseProperties.ParseCapturesOnlyValueOptions | qcommandlineparser.cpp:342-353 | after a parse, values are captured only for options with a value name, never as an empty list |
| ParseProperties.ParseSucceedsIffNoError | qcommandlineparser.cpp:362-461 | for a non-empty list, `parse` is true iff `errorText()` is empty iff there was no value error and no unknown name; an empty list gives false and cleared results |
| ParseProperties.AddValueAppends | qcommandlineparser.cpp:350-353 | capturing a value appends it at the end of the option's list and drops nothing recorded before |
| ParseProperties.BindValueExtends | qcommandlineparser.cpp:334-360 | value binding only appends to the recorded names and values |
| ParseProperties.WalkExtends | qcommandlineparser.cpp:414-434 | so does the letter walk |
| ParseProperties.TokenExtends | qcommandlineparser.cpp:387-456 | so does every token |
| ParseProperties.ParseFromExtends | qcommandlineparser.cpp:386-460 | so does the token loop: each list recorded so far, each option's values included, is a prefix of the final one |
| ParseProperties.TokenOrderKept | qcommandlineparser.cpp:386-460 | what a token records stays ahead of what later tokens add, so captured values are in token order |
| ParseProperties.RepeatedValueOption | qcommandlineparser.cpp:344-353 | `--name v1 --name=v2` for a value option: the name is met twice, `[v1, v2]` is captured and the parse succeeds |
| ParseProperties.OutputGivenTwice | qcommandlineparser.cpp:344-353 | `app --output out.bin --output=out2.bin` captures `["out.bin", "out2.bin"]` for the `-o`/`--output` option |
| ParseProperties.TwoUnknownNames | qcommandlineparser.cpp:232-245 | `--u1 --u2`, both unregistered: both recorded as unknown in order, the parse fails and the message is `Unknown options: ` + u1 + u2 + `.` |
| ParseProperties.TwoUnknownOptions | qcommandlineparser.cpp:232-245 | `app --unknown1 --unknown2` gives `Unknown options: unknown1unknown2.` |
| ParseProperties.FlagClusterVf | qcommandlineparser.cpp:410-437 | `app -vf` with flags `v` and `f` records `v` then `f` and succeeds |
| ParseProperties.ForcedTailPositional | qcommandlineparser.cpp:389-390 | once positional is forced, every remaining token is appended to the positionals and nothing else changes |
| ParseProperties.DoubleDashMakesRestPositional | qcommandlineparser.cpp:401-403 | a `--` token is not recorded and makes all later tokens positional |
| ParseProperties.LoneDashIsPositional | qcommandlineparser.cpp:404-408 | a lone `-` is a positional argument |
| ParseProperties.BareTokenIsPositional | qcommandlineparser.cpp:452-456 | a token without a dash is positional; in ParseAsPositionalArguments it and all later tokens are |
| ParseProperties.LongFormRecordsOneName | qcommandlineparser.cpp:391-400 | `--body`, and `-body` in long-options mode, records exactly the name before the first `=`, as met when registered and otherwise as unknown with the error set |
| ParseProperties.EmbeddedValueCaptured | qcommandlineparser.cpp:351-353 | `--name=value` for a value option captures the text after the first `=` |
| ParseProperties.NextTokenCaptured | qcommandlineparser.cpp:344-350 | `--name` for a value option captures the next token verbatim and moves past it |
| ParseProperties.MissingValueEndsParse | qcommandlineparser.cpp:344-349 | a value option as the last token ends the parse with `Missing value after '--name%1'.` and false |
| ParseProperties.UnexpectedValueToken | qcommandlineparser.cpp:354-356 | `--flag=value` records the flag, sets `Unexpected value after '=value%1'.` and the error |
| ParseProperties.UnexpectedValueDoesNotStop | qcommandlineparser.cpp:396-397 | after an unexpected value the parse goes on with the next token |
| ParseProperties.WalkOverFlags | qcommandlineparser.cpp:414-434 | a run of flag letters with no `=` is recorded letter by letter |
| ParseProperties.WalkOverUnknown | qcommandlineparser.cpp:414-418 | unknown letters are recorded one by one up to the end, with the error set |
| ParseProperties.ClusterToken | qcommandlineparser.cpp:404-410 | in compacted mode a single-dash word is read as a cluster |
| ParseProperties.ClusterOfFlags | qcommandlineparser.cpp:410-437 | `-abc` of flags records `a`, `b` and `c` in order and binds nothing |
| ParseProperties.ClusterOfUnknownLetters | qcommandlineparser.cpp:410-437 | `-xyz` of unknown letters records each as unknown and sets the error |
| ParseProperties.WalkValueLetterStep | qcommandlineparser.cpp:422-429 | a value letter followed by more characters takes them, less one leading `=`, as its value |
| ParseProperties.WalkToLetter | qcommandlineparser.cpp:414-434 | leading flags are walked over and recorded |
| ParseProperties.WalkToValueLetter | qcommandlineparser.cpp:414-434 | the walk stops at the first value letter and captures the rest of the token |
| ParseProperties.WalkToLastValueLetter | qcommandlineparser.cpp:414-434 | a value letter at the end of the token stops the walk without a value |
| ParseProperties.ClusterValueInToken | qcommandlineparser.cpp:422-429 | `-ab=v` or `-abv` with value letter `b` captures `v` and stops |
| ParseProperties.ClusterValueFromNextToken | qcommandlineparser.cpp:435-436 | `-ab` with value letter `b` last takes the next token as its value and moves past it |
| HelpFormat.WrapFrom | qcommandlineparser.cpp:577-612 | every emitted line lies within the description, at or after the current line start |
| HelpFormat.Visible | qcommandlineparser.cpp:636-638 | no hidden option remains |
| HelpFormat.Columns | qcommandlineparser.cpp:636-654 | one name column per visible option, in order |
| HelpFormat.Longest | qcommandlineparser.cpp:653 | the maximum length: an upper bound reached by some element, 0 for none |
| HelpProperties.WrapFromStep | qcommandlineparser.cpp:583-611 | one step of the wrapping loop: where it breaks, and that a break emits the line up to the break and skips one blank |
| HelpProperties.WrapFromBreak | qcommandlineparser.cpp:599-611 | a break emits `lineStart..breakAt` and resumes one past the new line start |
| HelpProperties.WrapFromContinue | qcommandlineparser.cpp:577-598 | without a break the loop moves one character on |
| HelpProperties.WrapFromStarts | qcommandlineparser.cpp:577-612 | a line is emitted iff characters remain, and the first starts at the line start |
| HelpProperties.WrapFromLayout | qcommandlineparser.cpp:599-611 | the emitted lines follow each other with at most two blanks between them (none after a break inside a word), and only blanks remain after the last one, bar a final character |
| HelpProperties.BreakWithinWidth | qcommandlineparser.cpp:585-597 | a line broken off holds at most `max` characters, one more on a continuation line |
| HelpProperties.WrapFromWidths | qcommandlineparser.cpp:577-612 | every emitted line is within that width |
| HelpProperties.WrapLoopStart | qcommandlineparser.cpp:568-576 | the loop invariant holds on entry |
| HelpProperties.WrapLoopContinue | qcommandlineparser.cpp:578-598 | a step without a break keeps the invariant |
| HelpProperties.WrapLoopBreak | qcommandlineparser.cpp:599-611 | a step that breaks keeps the invariant |
| HelpProperties.WrapLoopEnd | qcommandlineparser.cpp:577-614 | at loop exit the text is the wrapped entry |
| HelpProperties.WrapCoversDescription | qcommandlineparser.cpp:577-612 | the lines are ordered, separated by at most two blanks (none after a break inside a word) and followed only by blanks bar the last character; there is a line iff the description is non-empty; the first starts at 0 |
| HelpProperties.WrapLineWidths | qcommandlineparser.cpp:570-573 | every line ends within column 79 (80 for continuation lines) |
| HelpProperties.WrapFromOneLine | qcommandlineparser.cpp:589-592 | a short description without newlines is one line |
| HelpProperties.OneLineDescription | qcommandlineparser.cpp:564-615 | such a description is emitted after the prefix on one line |
| HelpProperties.LongContinuationLine | qcommandlineparser.cpp:608-610 | wrapping "abcdefgh" at 3 gives a 3-character line, then a 4-character one |
| HelpProperties.WordCutWithoutGap | qcommandlineparser.cpp:593-611 | `"abcdef"` at width 3 is cut inside the word into `abc` and `def` with no character between them |
| HelpProperties.LoneCharacterAfterNewlineDropped | qcommandlineparser.cpp:593-610 | `"ab\nc"` is emitted as `ab` alone; the `c` is lost |
| HelpProperties.EmptyDescription | qcommandlineparser.cpp:568-569 | an empty description yields the padded prefix with no newline |
| HelpProperties.SeparatedIsJoined | qcommandlineparser.cpp:641-648 | dropping the last two characters of the built string leaves the aliases joined by ", " |
| HelpProperties.VisibleStep | qcommandlineparser.cpp:636-638 | the visible options of a prefix grow by one exactly at a non-hidden option, which is the next visible one |
| HelpProperties.ColumnsStep | qcommandlineparser.cpp:636-652 | the name columns grow by one exactly at a non-hidden option |
| HelpProperties.OptionsLoopStart | qcommandlineparser.cpp:656 | the invariant of the second loop holds on entry |
| HelpProperties.OptionsLoopHidden | qcommandlineparser.cpp:658-659 | a hidden option keeps the invariant without output |
| HelpProperties.OptionsLoopVisible | qcommandlineparser.cpp:660 | the iterator over the name columns points at this option's column |
| HelpProperties.OptionEntryAt | qcommandlineparser.cpp:660 | the entry at that place is this option wrapped |
| HelpProperties.OptionsLoopShown | qcommandlineparser.cpp:660-661 | appending the entry and moving the iterator keeps the invariant |
| HelpProperties.OptionsLoopEnd | qcommandlineparser.cpp:657-662 | at loop exit the text holds every visible entry |
| HelpProperties.ArgumentsLoopStep | qcommandlineparser.cpp:667-668 | appending a definition's entry keeps the loop invariant |
| HelpProperties.UsageStep | qcommandlineparser.cpp:625-626 | each definition appends ` <syntax>` to the usage |
| HelpProperties.VisibleIdempotent | qcommandlineparser.cpp:636-638 | filtering the hidden options twice is filtering once |
| HelpProperties.NoVisibleOptions | qcommandlineparser.cpp:636-638 | no entry is listed iff every option is hidden |
| HelpProperties.HiddenOptionsOmitted | qcommandlineparser.cpp:617-671 | while some option is visible, the help text is the one of the visible options alone |
| HelpProperties.EntriesAligned | qcommandlineparser.cpp:653-660 | every entry's description starts at column `width + 3`, and every name column is shorter than the width |
| HelpProperties.NamesColumnExample | qcommandlineparser.cpp:641-651 | `["o","output"]` with value `file` gives `-o, --output <file>`; `["verbose"]` gives `--verbose` |
| HelpProperties.OneLineBlock | qcommandlineparser.cpp:657-661 | a single option with a short description is one line |
| HelpProperties.HelpOptionEntry | qcommandlineparser.cpp:636-661 | the help option's column is 11 wide and its entry is `  -h, --help  Displays this help.` |
| HelpProperties.UsageWithOptionsOnly | qcommandlineparser.cpp:621-627 | `Usage: [executable name] [options]` |
| HelpProperties.HelpWithoutArguments | qcommandlineparser.cpp:617-671 | with options and no definitions: usage line, blank line, `Options:`, the entries |
| HelpProperties.HelpOptionOnly | qcommandlineparser.cpp:617-671 | the full help text of a parser with only the help option |

## Left out

- `process()`, `process(args)`, `showVersion`, `showHelp`, `showParserMessage` and the Windows message-box and argv-decoding paths (qcommandlineparser.cpp:247-314, 543-552). They write to stdout or stderr, call the operating system or exit the program.
- All diagnostics written to `std::cerr`. Their return values are modelled, their text is not.
- `checkParsed` only prints a diagnostic. `needsParsing` is kept as a field that `Parse` clears, with no effect on any answer.
- The Windows-only `?` alias of `addHelpOption` (qcommandlineparser.cpp:192-194). The model takes the non-Windows branch.
- `shared_ptr` reference counting and the private `d` pointers. A descriptor is a class reference, which keeps the sharing.
- `isspace` is taken in the "C" locale. Characters with a negative `char` value, which make C `isspace` undefined, are not singled out.
- The `int` and `size_t` arithmetic of `wrapText` and the parser is unbounded here. Overflow would need descriptions or argument lists of about 2^31 characters.
- CommandLineParser.Parser.ValuesOf, CommandLineParser.Parser.ValueOf: these require a descriptor with at least one name. The source calls `names().front()` unguarded, which is undefined for a nameless descriptor. They carry no contract of their own beyond `values`/`value` of the first name.
- CommandLineParser.Parser.IsSetOption and the getters (`PositionalArguments`, `OptionNames`, `UnknownOptionNames`, `ApplicationDescription`, and the getters of `Option`) return their field or a single query as written. No separate contract is stated for them.
- The help loops read each registered descriptor once, as a value (`Entries`). Nothing changes a descriptor while the help text is built, so this is the same text.
- qcommandlineparser.h and qcommandlineoption.h hold declarations only. The two mode enumerations are taken from them.
