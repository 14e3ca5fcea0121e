/** The parse algorithm of `QCommandLineParserPrivate::parse` as functions over values.
    `ParseFrom` follows the source's token loop one token at a time; `ParseToken` is the loop
    body, `LongOption` its branch for `--name[=value]` (and for `-name[=value]` when single-dash
    words are long options), `WalkCluster` the letter walk over a compacted `-abc` cluster,
    `Register` is `registerFoundOption` and `BindValue` is `parseOptionValue`. The imperative
    parser in module CommandLineParser is proved to compute exactly `ParseArguments`. */
module ParseSpec {
  import opened Strings

  /** How a single-dash word such as `-abc` is read. */
  datatype SingleDashWordOptionMode = ParseAsCompactedShortOptions | ParseAsLongOptions

  /** Whether options are still recognised after the first positional argument. */
  datatype OptionsAfterPositionalArgumentsMode = ParseAsOptions | ParseAsPositionalArguments

  /** What parsing reads of the registered options: the alias-to-offset hash and, per offset,
      whether that option takes a value (has a non-empty value name). */
  datatype Registry = Registry(nameHash: map<string, nat>, withValue: seq<bool>)

  /** Every hashed offset is the offset of a registered option. */
  predicate Indexed(reg: Registry) {
    forall n :: n in reg.nameHash ==> reg.nameHash[n] < |reg.withValue|
  }

  predicate TakesValue(reg: Registry, offset: nat) {
    offset < |reg.withValue| && reg.withValue[offset]
  }

  /** The state a parse fills in: the names seen (in order, repetitions included), the unknown
      names seen, the positional arguments, the captured values per option offset, and the
      text of the last missing-value or unexpected-value error. */
  datatype ParseState = ParseState(
    optionNames: seq<string>,
    unknownOptionNames: seq<string>,
    positionalArguments: seq<string>,
    optionValues: map<nat, seq<string>>,
    errorText: string)

  /** The state every parse starts from. */
  const Cleared := ParseState([], [], [], map[], "")

  /** The values captured so far for the option at `offset`. */
  function Captured(values: map<nat, seq<string>>, offset: nat): seq<string> {
    if offset in values then values[offset] else []
  }

  /** `optionValuesHash[offset].push_back(value)`. */
  function AddValue(st: ParseState, offset: nat, value: string): ParseState {
    st.(optionValues := st.optionValues[offset := Captured(st.optionValues, offset) + [value]])
  }

  function AddPositional(st: ParseState, arg: string): ParseState {
    st.(positionalArguments := st.positionalArguments + [arg])
  }

  /** The option name of `name[=value]`: everything before the first '='. */
  function OptionNameOf(body: string): string {
    body[..Find(body, '=')]
  }

  /** `registerFoundOption`: a registered name is recorded as seen, any other as unknown. */
  function Register(reg: Registry, st: ParseState, name: string): ParseState {
    if name in reg.nameHash then st.(optionNames := st.optionNames + [name])
    else st.(unknownOptionNames := st.unknownOptionNames + [name])
  }

  /** The result of value binding: the new state, the position of the token iterator (moved
      one token on when the next token was consumed or sought) and whether binding succeeded. */
  datatype Binding = Binding(st: ParseState, next: nat, ok: bool)

  /** `parseOptionValue(name, arg, iterator at j)`. For a value-taking option the value is the
      text after the first '=' of `arg`, or else the next token, whatever it looks like; a flag
      given a value is an error. A name that is not registered binds nothing. */
  function BindValue(reg: Registry, name: string, arg: string, args: seq<string>, j: nat, st: ParseState): (b: Binding)
    requires j < |args|
    ensures j <= b.next <= j + 1 && b.next <= |args|
  {
    if name !in reg.nameHash then Binding(st, j, true)
    else
      var offset := reg.nameHash[name];
      var assignPos := Find(arg, '=');
      if TakesValue(reg, offset) then
        if assignPos == |arg| then
          if j + 1 == |args| then Binding(st.(errorText := "Missing value after '" + arg + "%1'."), j + 1, false)
          else Binding(AddValue(st, offset, args[j + 1]), j + 1, true)
        else Binding(AddValue(st, offset, arg[assignPos + 1..]), j, true)
      else if assignPos < |arg| then
        Binding(st.(errorText := "Unexpected value after '" + arg[assignPos..] + "%1'."), j, false)
      else Binding(st, j, true)
  }

  /** Where the token loop stands after one token: the state, the iterator position, whether
      every later token is positional, and whether an error has been seen. */
  datatype Cursor = Cursor(st: ParseState, next: nat, forcePositional: bool, error: bool)

  /** A long option `--body` (or `-body` in ParseAsLongOptions); `arg` is the whole token. */
  function LongOption(reg: Registry, body: string, arg: string, args: seq<string>, j: nat, st: ParseState, error: bool): (c: Cursor)
    requires j < |args|
    ensures j <= c.next <= |args|
  {
    var name := OptionNameOf(body);
    if name in reg.nameHash then
      var b := BindValue(reg, name, arg, args, j, Register(reg, st, name));
      Cursor(b.st, b.next, false, error || !b.ok)
    else Cursor(Register(reg, st, name), j, false, true)
  }

  /** The state of the letter walk over a compacted cluster: the last letter looked at is the
      name handed to value binding when no value was found inside the cluster. */
  datatype Walk = Walk(st: ParseState, error: bool, optionName: string, valueFound: bool)

  /** The letter walk from position `pos` of the cluster `arg`. Unknown letters are recorded one
      by one and the walk goes on; a flag followed by '=' stops it; the first value-taking
      letter stops it and, when letters follow, takes them (less one leading '=') as its value. */
  function WalkCluster(reg: Registry, arg: string, pos: nat, w: Walk): Walk
    requires 1 <= pos <= |arg|
    decreases |arg| - pos
  {
    if pos == |arg| then w
    else
      var name := [arg[pos]];
      var st := Register(reg, w.st, name);
      if name !in reg.nameHash then
        WalkCluster(reg, arg, pos + 1, Walk(st, true, name, w.valueFound))
      else if TakesValue(reg, reg.nameHash[name]) then
        if pos + 1 < |arg| then
          var start := if arg[pos + 1] == '=' then pos + 2 else pos + 1;
          Walk(AddValue(st, reg.nameHash[name], arg[start..]), w.error, name, true)
        else Walk(st, w.error, name, w.valueFound)
      else if pos + 1 < |arg| && arg[pos + 1] == '=' then Walk(st, w.error, name, w.valueFound)
      else WalkCluster(reg, arg, pos + 1, Walk(st, w.error, name, w.valueFound))
  }

  /** One letter of the walk, case by case. */
  lemma WalkClusterStep(reg: Registry, arg: string, pos: nat, w: Walk)
    requires 1 <= pos < |arg|
    ensures var name := [arg[pos]];
      var st := Register(reg, w.st, name);
      (name !in reg.nameHash ==> WalkCluster(reg, arg, pos, w) == WalkCluster(reg, arg, pos + 1, Walk(st, true, name, w.valueFound)))
      && (name in reg.nameHash && !TakesValue(reg, reg.nameHash[name]) && !(pos + 1 < |arg| && arg[pos + 1] == '=')
          ==> WalkCluster(reg, arg, pos, w) == WalkCluster(reg, arg, pos + 1, Walk(st, w.error, name, w.valueFound)))
      && (name in reg.nameHash && !TakesValue(reg, reg.nameHash[name]) && pos + 1 < |arg| && arg[pos + 1] == '='
          ==> WalkCluster(reg, arg, pos, w) == Walk(st, w.error, name, w.valueFound))
      && (name in reg.nameHash && TakesValue(reg, reg.nameHash[name]) && pos + 1 == |arg|
          ==> WalkCluster(reg, arg, pos, w) == Walk(st, w.error, name, w.valueFound))
      && (name in reg.nameHash && TakesValue(reg, reg.nameHash[name]) && pos + 1 < |arg|
          ==> var start := if arg[pos + 1] == '=' then pos + 2 else pos + 1;
              WalkCluster(reg, arg, pos, w) == Walk(AddValue(st, reg.nameHash[name], arg[start..]), w.error, name, true))
  {
  }

  /** A compacted cluster `-abc`: the letter walk, then value binding for the last letter looked
      at (with the whole token) unless the walk already found a value. */
  function ShortCluster(reg: Registry, arg: string, args: seq<string>, j: nat, st: ParseState, error: bool): (c: Cursor)
    requires j < |args| && 2 <= |arg|
    ensures j <= c.next <= |args|
  {
    var w := WalkCluster(reg, arg, 1, Walk(st, error, "", false));
    if w.valueFound then Cursor(w.st, j, false, w.error)
    else
      var b := BindValue(reg, w.optionName, arg, args, j, w.st);
      Cursor(b.st, b.next, false, w.error || !b.ok)
  }

  /** The body of the token loop for the token at `j`. */
  function ParseToken(reg: Registry, dashMode: SingleDashWordOptionMode, afterMode: OptionsAfterPositionalArgumentsMode,
                      args: seq<string>, j: nat, forcePositional: bool, error: bool, st: ParseState): (c: Cursor)
    requires j < |args|
    ensures j <= c.next <= |args|
  {
    var arg := args[j];
    if forcePositional then Cursor(AddPositional(st, arg), j, true, error)
    else if StartsWith(arg, "--") then
      if |arg| > 2 then LongOption(reg, arg[2..], arg, args, j, st, error)
      else Cursor(st, j, true, error)
    else if StartsWith(arg, "-") then
      if |arg| == 1 then Cursor(AddPositional(st, arg), j, false, error)
      else match dashMode
        case ParseAsCompactedShortOptions => ShortCluster(reg, arg, args, j, st, error)
        case ParseAsLongOptions => LongOption(reg, arg[1..], arg, args, j, st, error)
    else Cursor(AddPositional(st, arg), j, afterMode == ParseAsPositionalArguments, error)
  }

  /** The outcome of a parse: the state it leaves and the value `parse` returns. */
  datatype ParseResult = ParseResult(st: ParseState, ok: bool)

  /** The token loop from token `j` on. It stops when a value was sought past the last token. */
  function ParseFrom(reg: Registry, dashMode: SingleDashWordOptionMode, afterMode: OptionsAfterPositionalArgumentsMode,
                     args: seq<string>, j: nat, forcePositional: bool, error: bool, st: ParseState): ParseResult
    decreases |args| - j
  {
    if j >= |args| then ParseResult(st, !error)
    else
      var c := ParseToken(reg, dashMode, afterMode, args, j, forcePositional, error, st);
      if c.next == |args| then ParseResult(c.st, !c.error)
      else ParseFrom(reg, dashMode, afterMode, args, c.next + 1, c.forcePositional, c.error, c.st)
  }

  /** One turn of the token loop, given the cursor `c` the token leaves. */
  lemma ParseFromStep(reg: Registry, dashMode: SingleDashWordOptionMode, afterMode: OptionsAfterPositionalArgumentsMode,
                      args: seq<string>, j: nat, forcePositional: bool, error: bool, st: ParseState, c: Cursor)
    requires j < |args|
    requires c == ParseToken(reg, dashMode, afterMode, args, j, forcePositional, error, st)
    ensures ParseFrom(reg, dashMode, afterMode, args, j, forcePositional, error, st)
         == if c.next == |args| then ParseResult(c.st, !c.error)
            else ParseFrom(reg, dashMode, afterMode, args, c.next + 1, c.forcePositional, c.error, c.st)
  {
  }

  /** `parse(args)`: an empty list fails at once; otherwise token 0 (the executable) is skipped. */
  function ParseArguments(reg: Registry, dashMode: SingleDashWordOptionMode, afterMode: OptionsAfterPositionalArgumentsMode,
                          args: seq<string>): ParseResult
  {
    if args == [] then ParseResult(Cleared, false)
    else ParseFrom(reg, dashMode, afterMode, args, 1, false, false, Cleared)
  }

  /** `errorText()`: the stored value error if there is one, otherwise a message naming the
      unknown option(s), otherwise empty. */
  function ErrorMessage(errorText: string, unknownOptionNames: seq<string>): (r: string)
    ensures r == "" <==> errorText == "" && unknownOptionNames == []
    ensures errorText != "" ==> r == errorText
  {
    if errorText != "" then errorText
    else if |unknownOptionNames| == 1 then "Unknown option '" + unknownOptionNames[0] + "'."
    else if |unknownOptionNames| > 1 then "Unknown options: " + Concat(unknownOptionNames) + "."
    else ""
  }
}
