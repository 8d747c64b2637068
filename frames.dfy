/**
 * The tables the pipeline passes between its stages, already parsed from CSV.
 * A messages row carries its `id` and the remaining message columns
 * (`message`, `original`, `genre` in the data set); a categories row carries
 * its `id` and the raw `categories` string.
 */
module Frames {
  import opened Wrappers

  /** A message cell; None is a missing value (an empty CSV field read as NaN). */
  type Field = Option<string>

  datatype MessageRow = MessageRow(id: int, fields: seq<Field>)

  /** The messages table: the names of the columns after `id`, and its rows. */
  datatype MessageTable = MessageTable(fieldNames: seq<string>, rows: seq<MessageRow>)

  /** A categories row; None is a missing `categories` value. */
  datatype CategoryRow = CategoryRow(id: int, categories: Option<string>)

  /** A row of the merged frame: the message columns followed by `categories`. */
  datatype JoinedRow = JoinedRow(id: int, fields: seq<Field>, categories: Option<string>)

  datatype JoinedFrame = JoinedFrame(fieldNames: seq<string>, rows: seq<JoinedRow>)

  /** A cleaned row: the message columns followed by one integer per category. */
  datatype CleanRow = CleanRow(id: int, fields: seq<Field>, flags: seq<int>)

  datatype CleanFrame = CleanFrame(fieldNames: seq<string>, categoryNames: seq<string>, rows: seq<CleanRow>)

  const IdColumn: string := "id"
  const CategoriesColumn: string := "categories"

  /** Column labels of the merged frame, in order. */
  function JoinedColumns(df: JoinedFrame): seq<string>
  {
    [IdColumn] + df.fieldNames + [CategoriesColumn]
  }

  /** Column labels of the cleaned frame, in order. */
  function CleanColumns(df: CleanFrame): seq<string>
  {
    [IdColumn] + df.fieldNames + df.categoryNames
  }
}
