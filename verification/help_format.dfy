/** The help-text formatter: `wrapText`, which lays a description out beside a padded name
    column, and the layout `helpText` builds from the registered options and the positional
    argument definitions. `WrapFrom` follows the source's wrapping loop and yields the pieces
    of the description it emits, one per output line; the imperative `WrapText` and
    `HelpText` of module CommandLineParser are proved to produce `Wrapped` and `HelpText`. */
module HelpFormat {
  import opened Strings

  /** The column the source wraps descriptions at. */
  const WrapColumn := 79

  /** One output line of a wrapped description: the characters `start` to `end` (exclusive). */
  datatype Segment = Segment(start: nat, end: nat)

  /** The wrapping loop from description position `i`, with `x` characters counted on the
      current line, the line begun at `lineStart` and the last blank seen on it at
      `lastBreakable` (-1 for none). As in the source, after a break the loop resumes one
      position past the new line start, so the first character of a continuation line is
      never looked at. */
  function WrapFrom(d: string, max: int, i: int, x: int, lineStart: int, lastBreakable: int): (segs: seq<Segment>)
    requires 0 <= lineStart <= i
    requires lastBreakable == -1 || lineStart <= lastBreakable < i
    ensures forall k :: 0 <= k < |segs| ==> lineStart <= segs[k].start <= segs[k].end <= |d|
    decreases |d| - lineStart, |d| - i
  {
    if i >= |d| then []
    else
      var x' := x + 1;
      var c := d[i];
      var lb := if IsSpace(c) then i else lastBreakable;
      var breakAt :=
        if x' > max && lb != -1 then lb
        else if (x' > max - 1 && lb == -1) || i == |d| - 1 then i + 1
        else if c == '\n' then i
        else -1;
      var nextLineStart :=
        if x' > max && lb != -1 then lb + 1
        else i + 1;
      if breakAt != -1 then
        var ls := if nextLineStart < |d| && IsSpace(d[nextLineStart]) then nextLineStart + 1 else nextLineStart;
        [Segment(lineStart, breakAt)] + WrapFrom(d, max, ls + 1, 0, ls, -1)
      else WrapFrom(d, max, i + 1, x', lineStart, lb)
  }

  /** The pieces of `d` that wrapping at `max` characters emits. */
  function WrapSegments(d: string, max: int): seq<Segment> {
    WrapFrom(d, max, 0, 0, 0, -1)
  }

  /** Two blanks, the name column padded to `width`, one blank. */
  function WrapPrefix(names: string, width: nat): string {
    "  " + PadRight(names, width) + " "
  }

  /** The emitted lines: every line but the first is indented to the description column. */
  function Render(d: string, segs: seq<Segment>, indent: nat): string
    requires forall k :: 0 <= k < |segs| ==> segs[k].start <= segs[k].end <= |d|
  {
    if segs == [] then ""
    else (if segs[0].start > 0 then Spaces(indent) else "") + d[segs[0].start..segs[0].end] + "\n"
         + Render(d, segs[1..], indent)
  }

  /** `wrapText(names, width, description)`. */
  function Wrapped(names: string, width: nat, d: string): string {
    var prefix := WrapPrefix(names, width);
    prefix + Render(d, WrapSegments(d, WrapColumn - |prefix|), |prefix|)
  }

  /** A registered option as the help text sees it. */
  datatype OptionEntry = OptionEntry(names: seq<string>, valueName: string, description: string, hidden: bool)

  /** A positional argument definition of the help text. */
  datatype PositionalArgumentDefinition = PositionalArgumentDefinition(name: string, description: string, syntax: string)

  /** One dash before a one-character alias, two before a longer one. */
  function DashedName(name: string): string {
    (if |name| == 1 then "-" else "--") + name
  }

  /** The aliases, dashed and joined by ", ". */
  function JoinNames(names: seq<string>): string {
    if names == [] then ""
    else if |names| == 1 then DashedName(names[0])
    else JoinNames(names[..|names| - 1]) + ", " + DashedName(names[|names| - 1])
  }

  /** The dashed aliases, each followed by ", ": the string the help loop builds before it
      drops the final separator. */
  function Separated(names: seq<string>): string {
    if names == [] then "" else Separated(names[..|names| - 1]) + (DashedName(names[|names| - 1]) + ", ")
  }

  /** The name column of an option: its dashed aliases, then ` <valueName>` when it takes a value. */
  function NamesColumn(o: OptionEntry): string {
    JoinNames(o.names) + (if o.valueName != "" then " <" + o.valueName + ">" else "")
  }

  /** The options that appear in the help text, in registration order. */
  function Visible(opts: seq<OptionEntry>): (r: seq<OptionEntry>)
    ensures forall k :: 0 <= k < |r| ==> !r[k].hidden
    ensures |r| <= |opts|
  {
    if opts == [] then []
    else Visible(opts[..|opts| - 1]) + (if opts[|opts| - 1].hidden then [] else [opts[|opts| - 1]])
  }

  function Columns(opts: seq<OptionEntry>): (r: seq<string>)
    ensures |r| == |opts|
    ensures forall k :: 0 <= k < |opts| ==> r[k] == NamesColumn(opts[k])
  {
    if opts == [] then [] else Columns(opts[..|opts| - 1]) + [NamesColumn(opts[|opts| - 1])]
  }

  /** The length of the longest string, 0 for none. */
  function Longest(strs: seq<string>): (r: nat)
    ensures forall k :: 0 <= k < |strs| ==> |strs[k]| <= r
    ensures strs == [] ==> r == 0
    ensures strs != [] ==> exists k :: 0 <= k < |strs| && r == |strs[k]|
  {
    if strs == [] then 0
    else
      var m := Longest(strs[..|strs| - 1]);
      var n := |strs[|strs| - 1]|;
      if m < n then n else m
  }

  /** The entry of each visible option, all with the same name-column width. */
  function OptionEntries(visible: seq<OptionEntry>, width: nat): seq<string> {
    seq(|visible|, k requires 0 <= k < |visible| => Wrapped(NamesColumn(visible[k]), width, visible[k].description))
  }

  function OptionsBlock(visible: seq<OptionEntry>, width: nat): string {
    Concat(OptionEntries(visible, width))
  }

  /** The entry of each positional argument definition. */
  function ArgumentEntries(defs: seq<PositionalArgumentDefinition>, width: nat): seq<string> {
    seq(|defs|, k requires 0 <= k < |defs| => Wrapped(defs[k].name, width, defs[k].description))
  }

  function ArgumentsBlock(defs: seq<PositionalArgumentDefinition>, width: nat): string {
    Concat(ArgumentEntries(defs, width))
  }

  /** The usage summary: `[executable name]`, then ` [options]` when any option is registered
      (hidden ones included), then the syntax of each positional argument definition. */
  function Usage(hasOptions: bool, defs: seq<PositionalArgumentDefinition>): string {
    if defs == [] then "[executable name]" + (if hasOptions then " [options]" else "")
    else Usage(hasOptions, defs[..|defs| - 1]) + (" " + defs[|defs| - 1].syntax)
  }

  /** The first line of the help text. */
  function UsageLine(hasOptions: bool, defs: seq<PositionalArgumentDefinition>): string {
    "Usage: " + Usage(hasOptions, defs) + "\n"
  }

  /** The name column is as wide as the longest visible option's names plus one. */
  function ColumnWidth(opts: seq<OptionEntry>): nat {
    Longest(Columns(Visible(opts))) + 1
  }

  /** What the help text holds before the option entries: the usage line, the application
      description on a line of its own when there is one, a blank line, and the `Options:`
      heading when any option is registered. */
  function HelpHead(hasOptions: bool, description: string, defs: seq<PositionalArgumentDefinition>): string {
    var usage := UsageLine(hasOptions, defs);
    var described := if description != "" then usage + (description + "\n") else usage;
    if hasOptions then described + "\n" + "Options:\n" else described + "\n"
  }

  /** `helpText()`: the head, the entries of the visible options, then, when there are
      positional argument definitions, a blank line if any option is registered, the
      `Arguments:` heading and the entry of each definition. */
  function HelpText(opts: seq<OptionEntry>, description: string, defs: seq<PositionalArgumentDefinition>): string {
    var width := ColumnWidth(opts);
    var body := HelpHead(opts != [], description, defs) + OptionsBlock(Visible(opts), width);
    if defs == [] then body
    else (if opts != [] then body + "\n" else body) + "Arguments:\n" + ArgumentsBlock(defs, width)
  }
}
