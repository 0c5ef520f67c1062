/**
 * `HumanReadablePersonalDataWriter`: an indented text report. Sections open with their
 * display name and a colon and indent what follows by one tab; each value is a
 * `name: value` line; a section end adds a blank line unless one would follow another.
 */
module HumanReadablePersonalDataWriter {
  import opened Wrappers
  import opened Text
  import opened PersonalData
  import opened Seqs

  /** `Environment.NewLine` on the host the site runs on. */
  const NewLine: string := "\n"

  /** `count` tab characters: what `Append('\t', count)` adds. */
  function Tabs(count: nat): (s: string)
    ensures |s| == count && forall i :: 0 <= i < count ==> s[i] == '\t'
  {
    seq(count, _ => '\t')
  }

  /** One indented `key: value` line. */
  function KeyValueLine(level: nat, key: string, text: string): string
  {
    Tabs(level) + key + ": " + text + NewLine
  }

  /** The line `WriteStartSection` writes. */
  function SectionHeader(level: nat, displayName: string): string
  {
    Tabs(level) + displayName + ": " + NewLine
  }

  predicate EndsWithNewLine(s: string)
  {
    |s| > 0 && s[|s| - 1] == NewLine[0]
  }

  /** The value that reaches the writer after the optional transformation. */
  function Transform(transformation: Option<Transformation>, columnName: string, value: Value): Result<Value, Exception>
  {
    match transformation
    case None => Success(value)
    case Some(f) => f(columnName, value)
  }

  /** Line 86: the column has no display name, or is the ID or GUID column (ordinal comparison). */
  predicate OmittedColumn(info: BaseInfo, column: CollectedColumn)
  {
    IsNullOrWhiteSpace(column.displayName) || column.name == info.idColumn || column.name == info.guidColumn
  }

  /** What one column contributes to `WriteBaseInfo`. */
  datatype ColumnEffect = Skip | Line(text: string) | Fail(exception: Exception)
  {
    /** The text the column appends. */
    function Appended(): string
    {
      if Line? then text else []
    }

    /** How the column's iteration ends. */
    function Ends(): Completion
    {
      if Fail? then Throw(exception) else Normal
    }
  }

  function ColumnEffectOf(level: int, info: BaseInfo, column: CollectedColumn,
                          transformation: Option<Transformation>, format: Value -> string): ColumnEffect
  {
    if OmittedColumn(info, column) then Skip
    else match GetValue(info, column.name)
      case None => Skip
      case Some(value) =>
        match Transform(transformation, column.name, value)
        case Failure(e) => Fail(e)
        case Success(shown) =>
          if level < 0 then Fail(ArgumentOutOfRange)
          else Line(KeyValueLine(level, column.displayName, format(shown)))
  }

  /** A written line is never empty: it ends with a new line. */
  lemma LinesAreNonEmpty(level: int, info: BaseInfo, column: CollectedColumn,
                         transformation: Option<Transformation>, format: Value -> string)
    ensures var effect := ColumnEffectOf(level, info, column, transformation, format);
      effect.Line? ==> |effect.text| > 0 && EndsWithNewLine(effect.text)
  {
  }

  /** The effects of a prefix of the columns are a prefix of the effects. */
  lemma {:induction false} ColumnEffectsOfPrefix(level: int, info: BaseInfo, columns: seq<CollectedColumn>, k: nat,
                                                 transformation: Option<Transformation>, format: Value -> string)
    requires k <= |columns|
    ensures ColumnEffects(level, info, columns[..k], transformation, format) ==
            ColumnEffects(level, info, columns, transformation, format)[..k]
  {
    if k < |columns| {
      var shorter := columns[..|columns| - 1];
      assert shorter[..k] == columns[..k];
      ColumnEffectsOfPrefix(level, info, shorter, k, transformation, format);
    } else {
      assert columns[..k] == columns;
    }
  }

  /** A written line at position `i` is not empty and ends with a new line. */
  lemma LineAtIsNonEmpty(level: int, info: BaseInfo, columns: seq<CollectedColumn>, i: nat,
                         transformation: Option<Transformation>, format: Value -> string)
    requires i < |columns|
    ensures var effect := ColumnEffects(level, info, columns, transformation, format)[i];
      effect.Line? ==> |effect.text| > 0 && EndsWithNewLine(effect.text)
  {
    ColumnEffectAt(level, info, columns, i, transformation, format);
    LinesAreNonEmpty(level, info, columns[i], transformation, format);
  }

  /** Text written for a list of columns, and how the loop over them ended. */
  datatype Written = Written(text: string, completion: Completion)

  /** The effect of each column in turn. */
  function ColumnEffects(level: int, info: BaseInfo, columns: seq<CollectedColumn>,
                         transformation: Option<Transformation>, format: Value -> string): (effects: seq<ColumnEffect>)
    ensures |effects| == |columns|
  {
    if columns == [] then []
    else ColumnEffects(level, info, columns[..|columns| - 1], transformation, format)
         + [ColumnEffectOf(level, info, columns[|columns| - 1], transformation, format)]
  }

  lemma {:induction false} ColumnEffectAt(level: int, info: BaseInfo, columns: seq<CollectedColumn>, i: nat,
                                          transformation: Option<Transformation>, format: Value -> string)
    requires i < |columns|
    ensures ColumnEffects(level, info, columns, transformation, format)[i] == ColumnEffectOf(level, info, columns[i], transformation, format)
  {
    if i < |columns| - 1 {
      ColumnEffectAt(level, info, columns[..|columns| - 1], i, transformation, format);
    }
  }

  /** A loop over successive column effects: the text appended, stopping at the first exception. */
  function Run(effects: seq<ColumnEffect>): Written
  {
    if effects == [] then Written([], Normal)
    else
      var before := Run(effects[..|effects| - 1]);
      if before.completion.Throw? then before
      else
        var effect := effects[|effects| - 1];
        Written(before.text + effect.Appended(), effect.Ends())
  }

  /** The loop of `WriteBaseInfo` over `columns`. */
  function WrittenColumns(level: int, info: BaseInfo, columns: seq<CollectedColumn>,
                          transformation: Option<Transformation>, format: Value -> string): Written
  {
    Run(ColumnEffects(level, info, columns, transformation, format))
  }

  /** One more iteration: the loop's state after effect `i` from its state before it. */
  lemma RunStep(effects: seq<ColumnEffect>, i: nat)
    requires i < |effects|
    requires Run(effects[..i]).completion == Normal
    ensures Run(effects[..i + 1]) == Written(Run(effects[..i]).text + effects[i].Appended(), effects[i].Ends())
  {
    assert effects[..i + 1][..i] == effects[..i];
  }

  /** Once the loop has thrown, later iterations change nothing. */
  lemma {:induction false} ThrowIsFinal(effects: seq<ColumnEffect>, k: nat)
    requires k <= |effects|
    requires Run(effects[..k]).completion.Throw?
    ensures Run(effects) == Run(effects[..k])
  {
    if k < |effects| {
      var shorter := effects[..|effects| - 1];
      assert shorter[..k] == effects[..k];
      ThrowIsFinal(shorter, k);
    } else {
      assert effects[..k] == effects;
    }
  }

  /** The loop only appends: the text after `k` iterations is a prefix of the final text. */
  lemma {:induction false} RunGrows(effects: seq<ColumnEffect>, k: nat)
    requires k <= |effects|
    ensures Run(effects[..k]).text <= Run(effects).text
  {
    if k < |effects| {
      var shorter := effects[..|effects| - 1];
      assert shorter[..k] == effects[..k];
      RunGrows(shorter, k);
    } else {
      assert effects[..k] == effects;
    }
  }

  /** Writing more columns only appends: the text for a prefix of the columns is a prefix of the text. */
  lemma WrittenColumnsGrow(level: int, info: BaseInfo, columns: seq<CollectedColumn>, k: nat,
                           transformation: Option<Transformation>, format: Value -> string)
    requires k <= |columns|
    ensures WrittenColumns(level, info, columns[..k], transformation, format).text <=
            WrittenColumns(level, info, columns, transformation, format).text
  {
    ColumnEffectsOfPrefix(level, info, columns, k, transformation, format);
    RunGrows(ColumnEffects(level, info, columns, transformation, format), k);
  }

  /** Iterations that all skip write nothing and end normally. */
  lemma {:induction false} SkipsWriteNothing(effects: seq<ColumnEffect>)
    requires forall i :: 0 <= i < |effects| ==> effects[i].Skip?
    ensures Run(effects) == Written([], Normal)
  {
    if effects != [] {
      SkipsWriteNothing(effects[..|effects| - 1]);
    }
  }

  /** The loop ends normally exactly when no iteration fails. */
  lemma {:induction false} RunNormalIff(effects: seq<ColumnEffect>)
    ensures Run(effects).completion == Normal <==> forall i :: 0 <= i < |effects| ==> !effects[i].Fail?
  {
    if effects != [] {
      var prefix := effects[..|effects| - 1];
      RunNormalIff(prefix);
      assert forall i :: 0 <= i < |prefix| ==> prefix[i] == effects[i];
    }
  }

  /**
   * At a level that is not negative, `WriteBaseInfo` ends normally exactly when the
   * transformation succeeds for every column it reads a value of.
   */
  lemma WrittenColumnsNormalIff(level: int, info: BaseInfo, columns: seq<CollectedColumn>,
                                transformation: Option<Transformation>, format: Value -> string)
    requires level >= 0
    ensures WrittenColumns(level, info, columns, transformation, format).completion == Normal <==>
      forall i :: 0 <= i < |columns| && !OmittedColumn(info, columns[i]) && GetValue(info, columns[i].name).Some? ==>
        Transform(transformation, columns[i].name, GetValue(info, columns[i].name).value).Success?
  {
    var effects := ColumnEffects(level, info, columns, transformation, format);
    RunNormalIff(effects);
    forall i | 0 <= i < |columns|
      ensures effects[i].Fail? <==>
        !OmittedColumn(info, columns[i]) && GetValue(info, columns[i].name).Some? &&
        Transform(transformation, columns[i].name, GetValue(info, columns[i].name).value).Failure?
    {
      ColumnEffectAt(level, info, columns, i, transformation, format);
    }
  }

  /** Columns that are all omitted or null write nothing and throw nothing, whatever the level. */
  lemma OmittedColumnsWriteNothing(level: int, info: BaseInfo, columns: seq<CollectedColumn>,
                                   transformation: Option<Transformation>, format: Value -> string)
    requires forall i :: 0 <= i < |columns| ==> OmittedColumn(info, columns[i]) || GetValue(info, columns[i].name).None?
    ensures WrittenColumns(level, info, columns, transformation, format) == Written([], Normal)
  {
    var effects := ColumnEffects(level, info, columns, transformation, format);
    forall i | 0 <= i < |effects|
      ensures effects[i].Skip?
    {
      ColumnEffectAt(level, info, columns, i, transformation, format);
    }
    SkipsWriteNothing(effects);
  }

  /** A column that is written appears as one line at the current level, with the transformed value. */
  lemma WrittenColumnLine(level: int, info: BaseInfo, columns: seq<CollectedColumn>, column: CollectedColumn, shown: Value,
                          transformation: Option<Transformation>, format: Value -> string)
    requires level >= 0
    requires WrittenColumns(level, info, columns, transformation, format).completion == Normal
    requires !OmittedColumn(info, column) && GetValue(info, column.name).Some?
    requires Transform(transformation, column.name, GetValue(info, column.name).value) == Success(shown)
    ensures WrittenColumns(level, info, columns + [column], transformation, format) ==
            Written(WrittenColumns(level, info, columns, transformation, format).text +
                    KeyValueLine(level, column.displayName, format(shown)), Normal)
  {
    var effects := ColumnEffects(level, info, columns + [column], transformation, format);
    assert effects[..|columns|] == ColumnEffects(level, info, columns, transformation, format);
  }

  /** If every line ends with a new line, so does a nonempty loop output. */
  lemma {:induction false} RunEndsWithNewLine(effects: seq<ColumnEffect>)
    requires forall i :: 0 <= i < |effects| && effects[i].Line? ==> EndsWithNewLine(effects[i].text)
    ensures Run(effects).text == [] || EndsWithNewLine(Run(effects).text)
  {
    if effects != [] {
      RunEndsWithNewLine(effects[..|effects| - 1]);
    }
  }

  /** Every line `WriteBaseInfo` writes ends with a new line, so a nonempty output ends with one. */
  lemma WrittenTextEndsWithNewLine(level: int, info: BaseInfo, columns: seq<CollectedColumn>,
                                   transformation: Option<Transformation>, format: Value -> string)
    ensures var text := WrittenColumns(level, info, columns, transformation, format).text;
      text == [] || EndsWithNewLine(text)
  {
    var effects := ColumnEffects(level, info, columns, transformation, format);
    forall i | 0 <= i < |effects| && effects[i].Line?
      ensures EndsWithNewLine(effects[i].text)
    {
      LineAtIsNonEmpty(level, info, columns, i, transformation, format);
    }
    RunEndsWithNewLine(effects);
  }

  class Writer {
    /** `stringBuilder`: everything written so far. */
    var buffer: string
    var indentationLevel: int
    /** Set after a line ending in a new line was written, so that a section end adds no blank line. */
    var ignoreNewLine: bool
    /** `AppendFormat(Culture, format, value)`: the culture- and type-dependent text of a value. */
    const format: Value -> string

    /** When the flag is set the buffer ends with a new line. */
    ghost predicate Valid()
      reads this
    {
      ignoreNewLine ==> EndsWithNewLine(buffer)
    }

    constructor (format: Value -> string)
      ensures Valid()
      ensures buffer == [] && indentationLevel == 0 && !ignoreNewLine
      ensures this.format == format
    {
      buffer := [];
      indentationLevel := 0;
      ignoreNewLine := false;
      this.format := format;
    }

    /** `Indent`: `Append('\t', indentationLevel)`, which throws for a negative count. */
    method Indent() returns (completion: Completion)
      modifies this`buffer
      ensures completion == if old(indentationLevel) >= 0 then Normal else Throw(ArgumentOutOfRange)
      ensures buffer == if old(indentationLevel) >= 0 then old(buffer) + Tabs(old(indentationLevel)) else old(buffer)
    {
      if indentationLevel < 0 {
        return Throw(ArgumentOutOfRange);
      }
      buffer := buffer + Tabs(indentationLevel);
      completion := Normal;
    }

    /** `WriteStartSection`: the display name and a colon on its own line, then one level deeper. */
    method WriteStartSection(sectionName: string, sectionDisplayName: string) returns (completion: Completion)
      requires Valid()
      modifies this
      ensures Valid()
      ensures !ignoreNewLine
      ensures old(indentationLevel) >= 0 ==>
        && completion == Normal
        && buffer == old(buffer) + SectionHeader(old(indentationLevel), sectionDisplayName)
        && indentationLevel == old(indentationLevel) + 1
      ensures old(indentationLevel) < 0 ==>
        completion == Throw(ArgumentOutOfRange) && buffer == old(buffer) && indentationLevel == old(indentationLevel)
    {
      ignoreNewLine := false;
      completion := Indent();
      if completion.Throw? {
        return;
      }
      AppendAssociative(buffer, Tabs(indentationLevel), sectionDisplayName + ": " + NewLine);
      assert SectionHeader(indentationLevel, sectionDisplayName) == Tabs(indentationLevel) + (sectionDisplayName + ": " + NewLine);
      buffer := buffer + (sectionDisplayName + ": " + NewLine);
      indentationLevel := indentationLevel + 1;
    }

    /** `WriteKeyValue`: one indented `key: value` line; afterwards no blank line is needed. */
    method WriteKeyValue(keyName: string, value: Value) returns (completion: Completion)
      requires Valid()
      modifies this`buffer, this`ignoreNewLine
      ensures Valid()
      ensures old(indentationLevel) >= 0 ==>
        && completion == Normal
        && buffer == old(buffer) + KeyValueLine(old(indentationLevel), keyName, format(value))
        && ignoreNewLine
      ensures old(indentationLevel) < 0 ==>
        completion == Throw(ArgumentOutOfRange) && buffer == old(buffer) && ignoreNewLine == old(ignoreNewLine)
    {
      completion := Indent();
      if completion.Throw? {
        return;
      }
      buffer := buffer + (keyName + ": " + format(value) + NewLine);
      ignoreNewLine := true;
    }

    /** `WriteSectionValue`: one indented `name: value` line; level and flag stay as they are. */
    method WriteSectionValue(sectionName: string, sectionDisplayName: string, value: string) returns (completion: Completion)
      requires Valid()
      modifies this`buffer
      ensures Valid()
      ensures completion == if indentationLevel >= 0 then Normal else Throw(ArgumentOutOfRange)
      ensures buffer == if indentationLevel >= 0 then old(buffer) + KeyValueLine(indentationLevel, sectionDisplayName, value) else old(buffer)
    {
      completion := Indent();
      if completion.Throw? {
        return;
      }
      buffer := buffer + (sectionDisplayName + ": " + value + NewLine);
    }

    /**
     * `WriteBaseInfo`: a line for each column that has a display name, is not the ID or GUID
     * column and has a value, in column order, with the transformation applied first.
     */
    method WriteBaseInfo(baseInfo: Option<BaseInfo>, columns: seq<CollectedColumn>,
                         valueTransformationFunction: Option<Transformation>) returns (completion: Completion)
      requires Valid()
      modifies this`buffer, this`ignoreNewLine
      ensures Valid()
      ensures baseInfo.None? ==>
        completion == Throw(ArgumentNull) && buffer == old(buffer) && ignoreNewLine == old(ignoreNewLine)
      ensures baseInfo.Some? ==>
        var w := WrittenColumns(indentationLevel, baseInfo.value, columns, valueTransformationFunction, format);
        && completion == w.completion
        && buffer == old(buffer) + w.text
        && ignoreNewLine == (old(ignoreNewLine) || |w.text| > 0)
    {
      if baseInfo.None? {
        return Throw(ArgumentNull);
      }
      completion := WriteColumns(baseInfo.value, columns, valueTransformationFunction);
    }

    /** The loop of `WriteBaseInfo` over the columns, stopping at the first exception. */
    method WriteColumns(info: BaseInfo, columns: seq<CollectedColumn>,
                        valueTransformationFunction: Option<Transformation>) returns (completion: Completion)
      requires Valid()
      modifies this`buffer, this`ignoreNewLine
      ensures Valid()
      ensures var w := WrittenColumns(indentationLevel, info, columns, valueTransformationFunction, format);
        && completion == w.completion
        && buffer == old(buffer) + w.text
        && ignoreNewLine == (old(ignoreNewLine) || |w.text| > 0)
    {
      ghost var effects := ColumnEffects(indentationLevel, info, columns, valueTransformationFunction, format);
      ghost var start := buffer;
      ghost var startFlag := ignoreNewLine;
      completion := Normal;
      var i := 0;
      while i < |columns| && completion == Normal
        invariant 0 <= i <= |columns|
        invariant Valid() && effects == ColumnEffects(indentationLevel, info, columns, valueTransformationFunction, format)
        invariant completion == Run(effects[..i]).completion
        invariant buffer == start + Run(effects[..i]).text
        invariant ignoreNewLine == (startFlag || |Run(effects[..i]).text| > 0)
      {
        RunStep(effects, i);
        LineAtIsNonEmpty(indentationLevel, info, columns, i, valueTransformationFunction, format);
        completion := WriteColumn(info, columns, i, valueTransformationFunction);
        AppendAssociative(start, Run(effects[..i]).text, effects[i].Appended());
        i := i + 1;
      }
      if completion.Throw? {
        ThrowIsFinal(effects, i);
      } else {
        assert effects[..i] == effects;
      }
    }

    /** The body of the loop in `WriteBaseInfo`, for one column. */
    method WriteColumn(info: BaseInfo, columns: seq<CollectedColumn>, i: nat, valueTransformationFunction: Option<Transformation>)
      returns (completion: Completion)
      requires i < |columns|
      requires Valid()
      modifies this`buffer, this`ignoreNewLine
      ensures Valid()
      ensures var effect := ColumnEffects(indentationLevel, info, columns, valueTransformationFunction, format)[i];
        && completion == effect.Ends()
        && buffer == old(buffer) + effect.Appended()
        && ignoreNewLine == (old(ignoreNewLine) || effect.Line?)
    {
      ColumnEffectAt(indentationLevel, info, columns, i, valueTransformationFunction, format);
      var columnName := columns[i].name;
      var columnDisplayName := columns[i].displayName;
      if IsNullOrWhiteSpace(columnDisplayName) || columnName == info.idColumn || columnName == info.guidColumn {
        return Normal;
      }
      var value := GetValue(info, columnName);
      if value.None? {
        return Normal;
      }
      var shown := Transform(valueTransformationFunction, columnName, value.value);
      if shown.Failure? {
        return Throw(shown.error);
      }
      completion := WriteKeyValue(columnDisplayName, shown.value);
    }

    /**
     * `WriteEndSection`: one level shallower; an indented blank line unless the last thing
     * written already ended a line, after which no further blank line follows.
     */
    method WriteEndSection() returns (completion: Completion)
      requires Valid()
      modifies this
      ensures Valid()
      ensures indentationLevel == old(indentationLevel) - 1
      ensures old(ignoreNewLine) ==> completion == Normal && buffer == old(buffer) && ignoreNewLine
      ensures !old(ignoreNewLine) && indentationLevel >= 0 ==>
        completion == Normal && buffer == old(buffer) + Tabs(indentationLevel) + NewLine && ignoreNewLine
      ensures !old(ignoreNewLine) && indentationLevel < 0 ==>
        completion == Throw(ArgumentOutOfRange) && buffer == old(buffer) && !ignoreNewLine
    {
      indentationLevel := indentationLevel - 1;
      completion := Normal;
      if !ignoreNewLine {
        completion := Indent();
        if completion.Throw? {
          return;
        }
        buffer := buffer + NewLine;
        ignoreNewLine := true;
      }
    }

    /** `GetResult`: the text written so far. */
    method GetResult() returns (result: string)
      ensures result == buffer
    {
      result := buffer;
    }
  }
}
