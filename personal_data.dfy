/**
 * The data the personal-data writers consume: column values read from a Kentico info
 * object (`BaseInfo`), the columns to collect (`CollectedColumn`), and the exceptions the
 * writing code can raise.
 */
module PersonalData {
  import opened Wrappers

  /** A boxed column value, by the .NET type it has at run time. */
  datatype Value =
    | IntValue(i: int)
    | LongValue(l: int)
    | BoolValue(b: bool)
    | DecimalValue(scaled: int)
    | DateTimeValue(ticks: int)
    | GuidValue(guid: string)
    | TextValue(text: string)

  /** A database column name and the name shown to the data subject. */
  datatype CollectedColumn = CollectedColumn(name: string, displayName: string)

  /**
   * What the writer reads of an info object: the names of its type's ID and GUID columns and
   * its column values. A column without a value reads as null.
   */
  datatype BaseInfo = BaseInfo(idColumn: string, guidColumn: string, values: map<string, Value>)

  /** `baseInfo.GetValue(columnName)`. */
  function GetValue(info: BaseInfo, columnName: string): Option<Value>
  {
    if columnName in info.values then Some(info.values[columnName]) else None
  }

  datatype Exception = ArgumentNull | ArgumentOutOfRange | InvalidCast | InvalidOperation | KeyNotFound

  /** How a method call ends: normally, or by throwing. */
  datatype Completion = Normal | Throw(exception: Exception)

  /** A `Func<string, object, object>` value transformation; a cast inside it may throw. */
  type Transformation = (string, Value) -> Result<Value, Exception>
}
