/** Table rows. A row is a caller-supplied object: the table reads its fields
    and compares rows by object identity, never by content. The identity is
    made explicit as `id`: two rows are the same object exactly when their
    ids agree, and the same object may appear several times in one array. */
module Rows {
  import opened Values

  datatype Row = Row(id: nat, fields: map<string, Value>)

  /** `row[name]`: the field's value, `undefined` when the row lacks it. */
  function FieldOf(row: Row, name: string): Value
  {
    if name in row.fields then row.fields[name] else Undefined
  }
}
