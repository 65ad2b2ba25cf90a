/**
 * The per-linter options of analyzer.go: the review configuration is a
 * protobuf Struct, its `linters` entry a list of structs such as
 * `{name: "lll", maxLen: 120}`, and each option a known linter accepts is
 * turned into one command-line flag for gometalinter.
 */
module LinterOptions {
  import opened Wrappers
  import opened GoStrings

  /**
   * A protobuf Value as the code sees it through a pointer: `Nil` is a nil
   * pointer, `NoKind` a Value whose kind is unset. Numbers are finite.
   */
  datatype Value =
    | Nil
    | NoKind
    | NullValue
    | NumberValue(number: real)
    | StringValue(str: string)
    | BoolValue(flag: bool)
    | StructValue(fields: map<string, Value>)
    | ListValue(values: seq<Value>)

  /** Value.GetStringValue: the string of a string value, "" for any other kind. */
  function StringOf(v: Value): string {
    if v.StringValue? then v.str else ""
  }

  /** A value stands for the whole number `n`: a string Atoi reads as `n`, or the number `n` itself. */
  predicate Denotes(v: Value, n: int) {
    match v
    case StringValue(s) => Atoi(s) == Some(n)
    case NumberValue(x) => x == n as real
    case _ => false
  }

  const LineLengthPrefix := "--line-length="

  /**
   * The argument constructor of lll's maxLen. A string must be an integer
   * for Atoi; a number must have no fractional part (math.Modf); any other
   * kind is refused. A value below 1 gives no flag.
   */
  function LineLengthArgument(v: Value): (r: string)
    ensures r != "" ==> exists n :: n >= 1 && Denotes(v, n) && r == LineLengthPrefix + Itoa(n)
    ensures r == "" ==> forall n :: Denotes(v, n) ==> n < 1
  {
    var number: Option<int> :=
      match v
      case StringValue(s) => Atoi(s)
      case NumberValue(x) => if x.Floor as real != x then None else Some(x.Floor)
      case _ => None;
    match number
    case None => ""
    case Some(n) => if n < 1 then "" else LineLengthPrefix + Itoa(n)
  }

  /** An option name together with the constructor of its flag. */
  type OptionSpec = (string, Value -> string)

  /** lintersOptions: the linters the analyzer knows and, for each, its options. */
  const LintersOptions: map<string, seq<OptionSpec>> := map["lll" := [("maxLen", LineLengthArgument)]]

  /** The flag one option of a linter entry contributes: none, or one non-empty flag. */
  function OptionFlag(fields: map<string, Value>, opt: OptionSpec): seq<string> {
    if opt.0 in fields && fields[opt.0] != Nil && opt.1(fields[opt.0]) != "" then [opt.1(fields[opt.0])]
    else []
  }

  function OptionFlags(fields: map<string, Value>, opts: seq<OptionSpec>): seq<string> {
    if opts == [] then []
    else OptionFlags(fields, opts[..|opts| - 1]) + OptionFlag(fields, opts[|opts| - 1])
  }

  /**
   * The flags of one element of the `linters` list: nothing unless it is a
   * struct whose `name` is a known linter; then the flags of that linter's
   * options present in the struct.
   */
  function EntryFlags(v: Value): seq<string> {
    if !v.StructValue? then []
    else if "name" !in v.fields || v.fields["name"] == Nil then []
    else
      var name := StringOf(v.fields["name"]);
      if name !in LintersOptions then [] else OptionFlags(v.fields, LintersOptions[name])
  }

  function EntriesFlags(values: seq<Value>): seq<string> {
    if values == [] then []
    else EntriesFlags(values[..|values| - 1]) + EntryFlags(values[|values| - 1])
  }

  /** linterArguments as a value: the flags of every entry of the `linters` list, in list order. */
  function LinterFlags(config: map<string, Value>): seq<string> {
    if "linters" !in config || config["linters"] == Nil || !config["linters"].ListValue? then []
    else EntriesFlags(config["linters"].values)
  }

  /**
   * linterArguments: walks the `linters` list, skips entries that are not
   * structs, have no name or name an unknown linter, and collects the
   * non-empty flags of the options the named linter accepts.
   */
  method LinterArguments(config: map<string, Value>) returns (args: seq<string>)
    ensures args == LinterFlags(config)
  {
    if "linters" !in config || config["linters"] == Nil {
      return [];
    }
    var clStruct := config["linters"];
    if !clStruct.ListValue? {
      return [];
    }
    var values := clStruct.values;
    args := [];
    for i := 0 to |values|
      invariant args == EntriesFlags(values[..i])
    {
      assert values[..i + 1][..i] == values[..i];
      var flags := EntryArguments(values[i]);
      args := args + flags;
    }
    assert values[..|values|] == values;
  }

  /**
   * One turn of the loop over the `linters` list: entries that are nil, not
   * structs, have no name or name an unknown linter add nothing.
   */
  method EntryArguments(v: Value) returns (flags: seq<string>)
    ensures flags == EntryFlags(v)
  {
    if v == Nil || !v.StructValue? {
      return [];
    }
    var fields := v.fields;
    if "name" !in fields || fields["name"] == Nil {
      return [];
    }
    var name := StringOf(fields["name"]);
    var correctLinter := KnownLinter(name);
    if !correctLinter {
      return [];
    }
    flags := OptionArguments(fields, LintersOptions[name]);
  }

  /** The search of lintersOptions for `name`: true exactly when the analyzer knows that linter. */
  method KnownLinter(name: string) returns (correctLinter: bool)
    ensures correctLinter <==> name in LintersOptions
  {
    correctLinter := false;
    var linters := LintersOptions.Keys;
    while linters != {}
      invariant linters <= LintersOptions.Keys
      invariant correctLinter <==> name in LintersOptions.Keys - linters
      decreases linters
    {
      var linter :| linter in linters;
      if name == linter {
        correctLinter := true;
      }
      linters := linters - {linter};
    }
  }

  /** The loop over a known linter's options: the non-empty flags of those present, in order. */
  method OptionArguments(fields: map<string, Value>, linterOpts: seq<OptionSpec>) returns (args: seq<string>)
    ensures args == OptionFlags(fields, linterOpts)
  {
    args := [];
    for j := 0 to |linterOpts|
      invariant args == OptionFlags(fields, linterOpts[..j])
    {
      assert linterOpts[..j + 1][..j] == linterOpts[..j];
      var (optionName, construct) := linterOpts[j];
      if optionName !in fields || fields[optionName] == Nil {
        continue;
      }
      var arg := construct(fields[optionName]);
      if arg != "" {
        args := args + [arg];
      }
    }
    assert linterOpts[..|linterOpts|] == linterOpts;
  }

  /** Every flag the analyzer passes for the configuration sets a line length of at least one. */
  ghost predicate LineLengthFlag(arg: string) {
    exists n :: n >= 1 && arg == LineLengthPrefix + Itoa(n)
  }

  lemma {:induction false} OptionFlagsAreLineLengths(fields: map<string, Value>, opts: seq<OptionSpec>)
    requires forall k :: 0 <= k < |opts| ==> opts[k].1 == LineLengthArgument
    ensures forall j :: 0 <= j < |OptionFlags(fields, opts)| ==> LineLengthFlag(OptionFlags(fields, opts)[j])
  {
    if opts != [] {
      OptionFlagsAreLineLengths(fields, opts[..|opts| - 1]);
      var opt := opts[|opts| - 1];
      if opt.0 in fields && fields[opt.0] != Nil && opt.1(fields[opt.0]) != "" {
        var r := LineLengthArgument(fields[opt.0]);
        var n :| n >= 1 && Denotes(fields[opt.0], n) && r == LineLengthPrefix + Itoa(n);
        assert LineLengthFlag(r);
      }
    }
  }

  lemma {:induction false} EntriesFlagsAreLineLengths(values: seq<Value>)
    ensures forall j :: 0 <= j < |EntriesFlags(values)| ==> LineLengthFlag(EntriesFlags(values)[j])
  {
    if values != [] {
      EntriesFlagsAreLineLengths(values[..|values| - 1]);
      var v := values[|values| - 1];
      if v.StructValue? && "name" in v.fields && v.fields["name"] != Nil {
        var name := StringOf(v.fields["name"]);
        if name in LintersOptions {
          assert name == "lll";
          OptionFlagsAreLineLengths(v.fields, LintersOptions[name]);
        }
      }
    }
  }

  /** The only linter option is lll's maxLen, so every flag is a line-length flag. */
  lemma LinterFlagsAreLineLengths(config: map<string, Value>)
    ensures forall j :: 0 <= j < |LinterFlags(config)| ==> LineLengthFlag(LinterFlags(config)[j])
  {
    if "linters" in config && config["linters"] != Nil && config["linters"].ListValue? {
      EntriesFlagsAreLineLengths(config["linters"].values);
    }
  }

  /** The flags of a list are the flags of its parts, in the same order. */
  lemma {:induction false} EntriesFlagsConcat(a: seq<Value>, b: seq<Value>)
    ensures EntriesFlags(a + b) == EntriesFlags(a) + EntriesFlags(b)
    decreases |b|
  {
    if b == [] {
      assert a + b == a;
    } else {
      var init, last := b[..|b| - 1], b[|b| - 1];
      EntriesFlagsConcat(a, init);
      EntriesFlagsConcatStep(a, init, last);
      assert b == init + [last];
    }
  }

  /** Appending one more entry on both sides keeps the flags of a concatenation split. */
  lemma EntriesFlagsConcatStep(a: seq<Value>, init: seq<Value>, last: Value)
    requires EntriesFlags(a + init) == EntriesFlags(a) + EntriesFlags(init)
    ensures EntriesFlags(a + (init + [last])) == EntriesFlags(a) + EntriesFlags(init + [last])
  {
    EntriesFlagsSnoc(a + init, last);
    EntriesFlagsSnoc(init, last);
    AppendAssociates(a, init, [last]);
    AppendAssociates(EntriesFlags(a), EntriesFlags(init), EntryFlags(last));
  }

  lemma AppendAssociates<T>(x: seq<T>, y: seq<T>, z: seq<T>)
    ensures x + (y + z) == (x + y) + z
  {
  }

  lemma EntriesFlagsSnoc(values: seq<Value>, v: Value)
    ensures EntriesFlags(values + [v]) == EntriesFlags(values) + EntryFlags(v)
  {
    assert (values + [v])[..|values|] == values;
  }

  /** An lll entry yields exactly the flag its maxLen denotes, or nothing. */
  lemma LllEntryFlags(fields: map<string, Value>)
    requires "name" in fields && fields["name"] == StringValue("lll")
    ensures "maxLen" !in fields || fields["maxLen"] == Nil ==> EntryFlags(StructValue(fields)) == []
    ensures "maxLen" in fields && fields["maxLen"] != Nil ==>
      EntryFlags(StructValue(fields)) ==
        (if LineLengthArgument(fields["maxLen"]) == "" then [] else [LineLengthArgument(fields["maxLen"])])
  {
    var opts := LintersOptions["lll"];
    assert opts[..0] == [];
    assert OptionFlags(fields, opts) == OptionFlag(fields, opts[0]);
  }

  /** A maxLen written as the decimal text of a positive number gives the flag for that number. */
  lemma LineLengthOfText(n: int)
    requires n >= 1
    ensures LineLengthArgument(StringValue(Itoa(n))) == LineLengthPrefix + Itoa(n)
    ensures LineLengthArgument(NumberValue(n as real)) == LineLengthPrefix + Itoa(n)
  {
    assert (n as real).Floor == n;
  }

  /** Any value that denotes a whole number below 1 gives no flag. */
  lemma LineLengthBelowOne(v: Value, n: int)
    requires Denotes(v, n) && n < 1
    ensures LineLengthArgument(v) == ""
  {
    if v.NumberValue? {
      assert v.number.Floor == n;
    }
  }

  /** Configurations that enable nothing: no list, an empty list, an unknown linter, no or unusable maxLen. */
  lemma ArgsEmpty(config: map<string, Value>, entry: map<string, Value>)
    requires config == map[] || config == map["linters" := ListValue([])] ||
      (config == map["linters" := ListValue([StructValue(entry)])] &&
       (entry == map["name" := StringValue("unknown"), "maxLen" := NumberValue(120.0)] ||
        entry == map["name" := StringValue("lll")] ||
        entry == map["name" := StringValue("lll"), "maxLen" := StringValue("not a number")] ||
        entry == map["name" := StringValue("lll"), "maxLen" := NumberValue(120.1)]))
    ensures LinterFlags(config) == []
  {
    if config == map[] {
      assert "linters" !in config;
    } else if config == map["linters" := ListValue([])] {
      assert config["linters"].values == [];
    } else {
      SingleEntryFlags(config, entry);
      NoFlagsEntry(entry);
    }
  }

  /** The flags of a configuration whose `linters` list holds one struct are that struct's flags. */
  lemma SingleEntryFlags(config: map<string, Value>, entry: map<string, Value>)
    requires config == map["linters" := ListValue([StructValue(entry)])]
    ensures LinterFlags(config) == EntryFlags(StructValue(entry))
  {
    var values := [StructValue(entry)];
    assert config["linters"].values == values && values[..0] == [];
    assert EntriesFlags(values) == EntryFlags(StructValue(entry));
  }

  lemma NoFlagsEntry(entry: map<string, Value>)
    requires entry == map["name" := StringValue("unknown"), "maxLen" := NumberValue(120.0)] ||
      entry == map["name" := StringValue("lll")] ||
      entry == map["name" := StringValue("lll"), "maxLen" := StringValue("not a number")] ||
      entry == map["name" := StringValue("lll"), "maxLen" := NumberValue(120.1)]
    ensures EntryFlags(StructValue(entry)) == []
  {
    if entry == map["name" := StringValue("unknown"), "maxLen" := NumberValue(120.0)] {
      assert StringOf(entry["name"]) !in LintersOptions;
    } else if entry == map["name" := StringValue("lll")] {
      LllEntryFlags(entry);
    } else {
      LllUnusableMaxLen(entry);
    }
  }

  lemma LllUnusableMaxLen(entry: map<string, Value>)
    requires entry == map["name" := StringValue("lll"), "maxLen" := StringValue("not a number")] ||
      entry == map["name" := StringValue("lll"), "maxLen" := NumberValue(120.1)]
    ensures EntryFlags(StructValue(entry)) == []
  {
    LllEntryFlags(entry);
    var v := entry["maxLen"];
    if v.StringValue? {
      assert v.str[0] == 'n' && !IsDigit(v.str[0]);
    } else {
      assert v.number.Floor == 120;
    }
  }

  /**
   * maxLen given as the text "120" or as the number 120 yields exactly one flag.
   * The text is a parameter pinned by `requires` (here and in DecimalOf120) so
   * that the solver does not evaluate Atoi and Itoa on a string literal.
   */
  lemma ArgsCorrect(config: map<string, Value>, maxLen: Value, text: string)
    requires text == "120" && (maxLen == StringValue(text) || maxLen == NumberValue(120.0))
    requires config == map["linters" := ListValue([StructValue(map["name" := StringValue("lll"), "maxLen" := maxLen])])]
    ensures LinterFlags(config) == [LineLengthPrefix + text]
  {
    var entry := map["name" := StringValue("lll"), "maxLen" := maxLen];
    SingleEntryFlags(config, entry);
    LllEntryFlags(entry);
    LineLengthOfText(120);
    DecimalOf120(text);
  }

  lemma DecimalOf120(t: string)
    requires t == "120"
    ensures Itoa(120) == t
  {
    var n: nat := 120;
    assert n / 10 == 12 && n % 10 == 0 && 12 / 10 == 1 && 12 % 10 == 2;
    assert NatToDecimal(1) == [DigitChar(1)];
    assert NatToDecimal(12) == [DigitChar(1), DigitChar(2)];
    assert NatToDecimal(n) == [DigitChar(1), DigitChar(2), DigitChar(0)];
  }
}
