/** The option descriptor `QCommandLineOption`: the names an option answers to, the name of the
    value it takes (empty for a flag), its help description, its default values and whether
    the help text hides it. Copies of a descriptor share one payload, so a descriptor is a
    class here: a copy is the same reference and a setter called through any copy is seen
    through all of them, including the copy a parser keeps. */
module CommandLineOption {

  /** A name the descriptor refuses: empty, starting with '-' or '/', or containing '='. */
  predicate IsInvalidName(name: string) {
    name == [] || name[0] == '-' || name[0] == '/' || '=' in name
  }

  /** `a` can be obtained from `b` by deleting elements, so it keeps `b`'s relative order. */
  predicate IsSubsequence<T(==)>(a: seq<T>, b: seq<T>)
    decreases |b|
  {
    a == [] || (b != [] && ((a[0] == b[0] && IsSubsequence(a[1..], b[1..])) || IsSubsequence(a, b[1..])))
  }

  /** Name sanitising at construction: drops every invalid name and keeps the others in order
      (a stable `remove_if`). An empty list is returned as it is; the source only adds a
      diagnostic in that case. */
  function RemoveInvalidNames(nameList: seq<string>): (r: seq<string>)
    ensures forall n :: n in r <==> n in nameList && !IsInvalidName(n)
    ensures IsSubsequence(r, nameList)
    ensures forall n :: multiset(r)[n] == if IsInvalidName(n) then 0 else multiset(nameList)[n]
    ensures |r| <= |nameList|
  {
    if nameList == [] then []
    else
      assert nameList == [nameList[0]] + nameList[1..];
      if IsInvalidName(nameList[0]) then RemoveInvalidNames(nameList[1..])
      else [nameList[0]] + RemoveInvalidNames(nameList[1..])
  }

  /** A list whose names are all valid passes sanitising unchanged. */
  lemma {:induction false} ValidNamesKept(nameList: seq<string>)
    requires forall n :: n in nameList ==> !IsInvalidName(n)
    ensures RemoveInvalidNames(nameList) == nameList
  {
    if nameList != [] {
      ValidNamesKept(nameList[1..]);
    }
  }

  /** Sanitising twice is sanitising once. */
  lemma RemoveInvalidNamesIdempotent(nameList: seq<string>)
    ensures RemoveInvalidNames(RemoveInvalidNames(nameList)) == RemoveInvalidNames(nameList)
  {
    ValidNamesKept(RemoveInvalidNames(nameList));
  }

  /** What the single-name constructors keep of their one name. */
  lemma SingleNameSanitised(name: string)
    ensures RemoveInvalidNames([name]) == if IsInvalidName(name) then [] else [name]
  {
    assert [name][1..] == [];
  }

  class Option {
    /** The names (aliases); the source has no setter for them. */
    const names: seq<string>
    /** Placeholder for the value in help text; empty for a flag that takes no value. */
    var valueName: string
    var description: string
    var defaultValues: seq<string>
    /** Left out of the help text, still parsed. */
    var hidden: bool

    /** `QCommandLineOption(name)`. */
    constructor (name: string)
      ensures names == if IsInvalidName(name) then [] else [name]
      ensures valueName == "" && description == "" && defaultValues == [] && !hidden
    {
      SingleNameSanitised(name);
      names := RemoveInvalidNames([name]);
      valueName, description, defaultValues, hidden := "", "", [], false;
    }

    /** `QCommandLineOption(names)`. */
    constructor FromNames(nameList: seq<string>)
      ensures names == RemoveInvalidNames(nameList)
      ensures valueName == "" && description == "" && defaultValues == [] && !hidden
    {
      names := RemoveInvalidNames(nameList);
      valueName, description, defaultValues, hidden := "", "", [], false;
    }

    /** `QCommandLineOption(name, description, valueName, defaultValue)`: the single-name
        descriptor followed by the three setters. */
    constructor Described(name: string, description: string, valueName: string, defaultValue: string)
      ensures names == if IsInvalidName(name) then [] else [name]
      ensures this.valueName == valueName && this.description == description
      ensures this.defaultValues == (if defaultValue == "" then [] else [defaultValue])
      ensures !hidden
    {
      SingleNameSanitised(name);
      names := RemoveInvalidNames([name]);
      this.valueName, this.description, defaultValues, hidden := "", "", [], false;
      new;
      SetValueName(valueName);
      SetDescription(description);
      SetDefaultValue(defaultValue);
    }

    /** `QCommandLineOption(names, description, valueName, defaultValue)`. */
    constructor DescribedFromNames(nameList: seq<string>, description: string, valueName: string, defaultValue: string)
      ensures names == RemoveInvalidNames(nameList)
      ensures this.valueName == valueName && this.description == description
      ensures this.defaultValues == (if defaultValue == "" then [] else [defaultValue])
      ensures !hidden
    {
      names := RemoveInvalidNames(nameList);
      this.valueName, this.description, defaultValues, hidden := "", "", [], false;
      new;
      SetValueName(valueName);
      SetDescription(description);
      SetDefaultValue(defaultValue);
    }

    /** The copy constructor and `operator=`: the copy shares this descriptor's payload. */
    method Copy() returns (copy: Option)
      ensures copy == this
    {
      copy := this;
    }

    method SetValueName(valueName: string)
      modifies this`valueName
      ensures this.valueName == valueName
    {
      this.valueName := valueName;
    }

    method SetDescription(description: string)
      modifies this`description
      ensures this.description == description
    {
      this.description := description;
    }

    /** An empty default means "no default values". */
    method SetDefaultValue(defaultValue: string)
      modifies this`defaultValues
      ensures defaultValues == if defaultValue == "" then [] else [defaultValue]
      ensures |defaultValues| <= 1 && (defaultValues == [] <==> defaultValue == "")
    {
      var newDefaultValues := [];
      if defaultValue != "" {
        newDefaultValues := newDefaultValues + [defaultValue];
      }
      defaultValues := newDefaultValues;
    }

    /** Stores the list as given, empty strings included. */
    method SetDefaultValues(defaultValues: seq<string>)
      modifies this`defaultValues
      ensures this.defaultValues == defaultValues
    {
      this.defaultValues := defaultValues;
    }

    method SetHidden(hidden: bool)
      modifies this`hidden
      ensures this.hidden == hidden
    {
      this.hidden := hidden;
    }

    function Names(): seq<string> { names }
    function ValueName(): string reads this { valueName }
    function Description(): string reads this { description }
    function DefaultValues(): seq<string> reads this { defaultValues }
    function IsHidden(): bool reads this { hidden }
  }
}
