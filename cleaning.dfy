/**
 * `clean_data` (data/process_data.py, lines 36-75): the merged frame's
 * `categories` strings become one integer column per category, rows whose
 * `related` value is 2 are dropped, and exact duplicate rows are removed.
 *
 * The functions below state what the source computes, including where it
 * raises; the method `CleanData` performs the same steps with loops and is
 * proved to agree with the function `Cleaned`.
 */
module Cleaning {
  import opened Wrappers
  import opened Sequences
  import opened Strings
  import opened Frames

  /** The ways `clean_data` raises. */
  datatype CleanError =
    | EmptyFrame                    // `categories.loc[0, :]` on a frame without rows: KeyError
    | FirstRowIncomplete            // `x[:-2]` on a missing first-row value: TypeError
    | DuplicateColumn(name: string) // `categories[column]` is a frame, which has no `.str`: AttributeError
    | NotAnInteger(column: string)  // `astype(int)` on a character that is not a digit: ValueError
    | NoRelatedColumn               // `df['related']` without such a column: KeyError

  /** The category whose anomalous value removes a row. */
  const Related: string := "related"
  const AnomalousValue: int := 2

  /** `astype(str)` of a missing value, and of the padding `expand=True` inserts. */
  const MissingText: string := "nan"
  const PaddingText: string := "None"

  // ---------------------------------------------------------------- line 47

  /**
   * A row's `categories` after `str.split(pat=';')`: a missing value stays
   * missing, and a present one is cut at every `;` into tokens free of `;`
   * that join back to it (which, by `SplitJoin`, makes them `Split` of it).
   */
  function Tokens(row: JoinedRow): (tokens: Option<seq<string>>)
    ensures tokens.Some? <==> row.categories.Some?
    ensures tokens.Some? ==> |tokens.value| >= 1 && JoinTokens(tokens.value) == row.categories.value
    ensures tokens.Some? ==> forall k :: 0 <= k < |tokens.value| ==> Separator !in tokens.value[k]
  {
    match row.categories
    case None => None
    case Some(s) => JoinSplit(s); Some(Split(s))
  }

  /** The token lists of all rows, in row order. */
  type TokenTable = seq<Option<seq<string>>>

  function SplitAll(rows: seq<JoinedRow>): TokenTable
  {
    seq(|rows|, i requires 0 <= i < |rows| => Tokens(rows[i]))
  }

  function TokenCount(tokens: Option<seq<string>>): nat
  {
    match tokens
    case None => 0
    case Some(ts) => |ts|
  }

  function Max(a: nat, b: nat): nat
  {
    if a < b then b else a
  }

  /**
   * The longest token list. `expand=True` creates this many columns, except
   * when every row's categories are missing: pandas then creates one column of
   * missing values while `Width` is 0. Both lead to the same error at line 53,
   * because the first row has no token to name a column by.
   */
  function Width(table: TokenTable): nat
    decreases |table|
  {
    if |table| == 0 then 0
    else Max(Width(table[..|table| - 1]), TokenCount(table[|table| - 1]))
  }

  /** No row has more tokens than `Width`. */
  lemma {:induction false} WidthIsLongest(table: TokenTable)
    ensures forall i :: 0 <= i < |table| ==> TokenCount(table[i]) <= Width(table)
    decreases |table|
  {
    if |table| > 0 {
      var init := table[..|table| - 1];
      WidthIsLongest(init);
      forall i | 0 <= i < |table| - 1 ensures TokenCount(table[i]) <= Width(table) {
        assert table[i] == init[i];
      }
    }
  }

  /** `Width` is the least such bound. */
  lemma {:induction false} WidthAtMost(table: TokenTable, w: nat)
    requires forall i :: 0 <= i < |table| ==> TokenCount(table[i]) <= w
    ensures Width(table) <= w
    decreases |table|
  {
    if |table| > 0 {
      var init := table[..|table| - 1];
      forall i | 0 <= i < |init| ensures TokenCount(init[i]) <= w {
        assert init[i] == table[i];
      }
      WidthAtMost(init, w);
    }
  }

  // ---------------------------------------------------------------- lines 52-54

  /** The first row fills every column of the expanded frame. */
  predicate FirstRowComplete(table: TokenTable)
    requires |table| > 0
  {
    table[0].Some? && TokenCount(table[0]) == Width(table)
  }

  /** `[x[:-2] for x in firstrow]`. */
  function HeaderNames(first: seq<string>): seq<string>
  {
    seq(|first|, j requires 0 <= j < |first| => DropLastTwo(first[j]))
  }

  // ---------------------------------------------------------------- lines 56-61

  /** `astype(str)` of cell j of a row of the expanded frame. */
  function ExpandedCell(tokens: Option<seq<string>>, j: nat): string
  {
    match tokens
    case None => MissingText
    case Some(ts) => if j < |ts| then ts[j] else PaddingText
  }

  /** The cell after `.str[-1]` and `astype(int)`; None where `astype(int)` raises. */
  function CellValue(tokens: Option<seq<string>>, j: nat): Option<int>
  {
    match LastChar(ExpandedCell(tokens, j))
    case None => None
    case Some(c) => DecimalValue(c)
  }

  /**
   * A cell inside a row's token list converts exactly when its token ends in a
   * digit, and then it is the value of that digit.
   */
  lemma CellValueOfToken(ts: seq<string>, j: nat)
    requires j < |ts|
    ensures CellValue(Some(ts), j).Some? <==> EndsInDigit(ts[j])
    ensures CellValue(Some(ts), j).Some? ==>
      var v := CellValue(Some(ts), j).value; 0 <= v <= 9 && ts[j][|ts[j]| - 1] == DigitChar(v)
  {
    assert ExpandedCell(Some(ts), j) == ts[j];
  }

  /** The cell of a missing categories value never converts. */
  lemma MissingCellFails(j: nat)
    ensures CellValue(None, j).None?
  {
    assert ExpandedCell(None, j) == MissingText;
    assert LastChar(MissingText) == Some('n');
  }

  /** A padding cell never converts. */
  lemma PaddingCellFails(ts: seq<string>, j: nat)
    requires |ts| <= j
    ensures CellValue(Some(ts), j).None?
  {
    assert ExpandedCell(Some(ts), j) == PaddingText;
    assert LastChar(PaddingText) == Some('e');
  }

  /** Two columns carry the same label. */
  predicate Duplicated(names: seq<string>, j: nat)
    requires j < |names|
  {
    exists k :: 0 <= k < |names| && k != j && names[k] == names[j]
  }

  /** Every row's cell in column j converts. */
  predicate ColumnDecodes(table: TokenTable, j: nat)
  {
    forall i :: 0 <= i < |table| ==> CellValue(table[i], j).Some?
  }

  /** The error of the first column, from j on, that the loop at lines 56-61 cannot convert. */
  function FirstColumnError(table: TokenTable, names: seq<string>, j: nat): Option<CleanError>
    requires j <= |names|
    decreases |names| - j
  {
    if j == |names| then None
    else if Duplicated(names, j) then Some(DuplicateColumn(names[j]))
    else if !ColumnDecodes(table, j) then Some(NotAnInteger(names[j]))
    else FirstColumnError(table, names, j + 1)
  }

  lemma FirstColumnErrorNone(table: TokenTable, names: seq<string>, j: nat)
    requires j <= |names|
    ensures FirstColumnError(table, names, j).None? <==>
      forall c :: j <= c < |names| ==> !Duplicated(names, c) && ColumnDecodes(table, c)
  {
    if FirstColumnError(table, names, j).None? {
      NoColumnErrorMeansClean(table, names, j);
    } else if forall c :: j <= c < |names| ==> !Duplicated(names, c) && ColumnDecodes(table, c) {
      CleanMeansNoColumnError(table, names, j);
    }
  }

  /** When the loop from column j on raises nothing, every such column is unique and converts. */
  lemma {:induction false} NoColumnErrorMeansClean(table: TokenTable, names: seq<string>, j: nat)
    requires j <= |names| && FirstColumnError(table, names, j).None?
    ensures forall c :: j <= c < |names| ==> !Duplicated(names, c) && ColumnDecodes(table, c)
    decreases |names| - j
  {
    if j < |names| {
      NoColumnErrorMeansClean(table, names, j + 1);
    }
  }

  /** When every column from j on is unique and converts, the loop from j on raises nothing. */
  lemma {:induction false} CleanMeansNoColumnError(table: TokenTable, names: seq<string>, j: nat)
    requires j <= |names|
    requires forall c :: j <= c < |names| ==> !Duplicated(names, c) && ColumnDecodes(table, c)
    ensures FirstColumnError(table, names, j).None?
    decreases |names| - j
  {
    if j < |names| {
      assert !Duplicated(names, j) && ColumnDecodes(table, j);
      CleanMeansNoColumnError(table, names, j + 1);
    }
  }

  /** The error lines 47-61 raise on a split table, if any. */
  function TableError(table: TokenTable): Option<CleanError>
  {
    if |table| == 0 then Some(EmptyFrame)
    else if !FirstRowComplete(table) then Some(FirstRowIncomplete)
    else FirstColumnError(table, HeaderNames(table[0].value), 0)
  }

  /** The error lines 47-61 raise, if any. */
  function DecodeError(df: JoinedFrame): Option<CleanError>
  {
    TableError(SplitAll(df.rows))
  }

  predicate Decodes(df: JoinedFrame)
  {
    DecodeError(df).None?
  }

  /** Every cell of the first `width` columns converts. */
  predicate AllCellsDecode(table: TokenTable, width: nat)
  {
    forall i, j :: 0 <= i < |table| && 0 <= j < width ==> CellValue(table[i], j).Some?
  }

  /** What a split table without error satisfies. */
  lemma TableDecodes(table: TokenTable)
    requires TableError(table).None?
    ensures |table| > 0 && FirstRowComplete(table)
    ensures |HeaderNames(table[0].value)| == Width(table)
    ensures Distinct(HeaderNames(table[0].value))
    ensures AllCellsDecode(table, Width(table))
  {
    var names := HeaderNames(table[0].value);
    FirstColumnErrorNone(table, names, 0);
    forall i, j | 0 <= i < j < |names| ensures names[i] != names[j] {
      assert !Duplicated(names, i);
    }
    forall i, j | 0 <= i < |table| && 0 <= j < Width(table) ensures CellValue(table[i], j).Some? {
      assert ColumnDecodes(table, j);
    }
  }

  /** The column names of line 54. */
  function CategoryNames(df: JoinedFrame): seq<string>
    requires Decodes(df)
  {
    HeaderNames(SplitAll(df.rows)[0].value)
  }

  /** What a frame that decodes satisfies. */
  lemma DecodesMeans(df: JoinedFrame)
    requires Decodes(df)
    ensures |df.rows| > 0 && FirstRowComplete(SplitAll(df.rows))
    ensures |CategoryNames(df)| == Width(SplitAll(df.rows))
    ensures Distinct(CategoryNames(df))
    ensures AllCellsDecode(SplitAll(df.rows), Width(SplitAll(df.rows)))
  {
    TableDecodes(SplitAll(df.rows));
  }

  // ---------------------------------------------------------------- lines 64-67

  /** The merged rows with their categories replaced by the decoded columns. */
  function DecodedRows(rows: seq<JoinedRow>, table: TokenTable, width: nat): seq<CleanRow>
    requires |table| == |rows| && AllCellsDecode(table, width)
  {
    seq(|rows|, i requires 0 <= i < |rows| =>
      CleanRow(rows[i].id, rows[i].fields, seq(width, j requires 0 <= j < width => CellValue(table[i], j).value)))
  }

  /** The frame after line 67. */
  function Decoded(df: JoinedFrame): seq<CleanRow>
    requires Decodes(df)
  {
    DecodesMeans(df);
    var table := SplitAll(df.rows);
    DecodedRows(df.rows, table, Width(table))
  }

  // ---------------------------------------------------------------- line 70

  /** The row's value in column k is the anomalous 2. */
  predicate RelatedIs2(row: CleanRow, k: nat)
  {
    k < |row.flags| && row.flags[k] == AnomalousValue
  }

  /** `df.drop(df[df['related'] == 2].index)`, with `related` at position k. */
  function DropRelated2(rows: seq<CleanRow>, k: nat): seq<CleanRow>
    decreases |rows|
  {
    if |rows| == 0 then []
    else
      var init, last := rows[..|rows| - 1], rows[|rows| - 1];
      DropRelated2(init, k) + (if RelatedIs2(last, k) then [] else [last])
  }

  /**
   * The filter keeps exactly the rows whose value in column k is not 2, each
   * as often as it occurs, in order.
   */
  lemma DropRelated2Members(rows: seq<CleanRow>, k: nat)
    ensures forall r :: r in DropRelated2(rows, k) <==> r in rows && !RelatedIs2(r, k)
    ensures forall r :: multiset(DropRelated2(rows, k))[r] == if RelatedIs2(r, k) then 0 else multiset(rows)[r]
    ensures IsSubsequence(DropRelated2(rows, k), rows)
  {
    var kept := DropRelated2(rows, k);
    DropRelated2Counts(rows, k);
    DropRelated2Subsequence(rows, k);
    forall r ensures r in kept <==> r in rows && !RelatedIs2(r, k) {
      assert r in kept <==> multiset(kept)[r] > 0;
      assert r in rows <==> multiset(rows)[r] > 0;
    }
  }

  /** The multiplicities behind `DropRelated2Members`, one row at a time. */
  lemma {:induction false} DropRelated2Counts(rows: seq<CleanRow>, k: nat)
    ensures forall r :: multiset(DropRelated2(rows, k))[r] == if RelatedIs2(r, k) then 0 else multiset(rows)[r]
    decreases |rows|
  {
    if |rows| > 0 {
      var init, last := rows[..|rows| - 1], rows[|rows| - 1];
      DropRelated2Counts(init, k);
      assert rows == init + [last];
      var f0 := DropRelated2(init, k);
      if RelatedIs2(last, k) {
        assert DropRelated2(rows, k) == f0;
      } else {
        assert DropRelated2(rows, k) == f0 + [last];
      }
    }
  }

  /** The order behind `DropRelated2Members`: the kept rows are a subsequence. */
  lemma {:induction false} DropRelated2Subsequence(rows: seq<CleanRow>, k: nat)
    ensures IsSubsequence(DropRelated2(rows, k), rows)
    decreases |rows|
  {
    if |rows| > 0 {
      var init, last := rows[..|rows| - 1], rows[|rows| - 1];
      var f0 := DropRelated2(init, k);
      DropRelated2Subsequence(init, k);
      assert rows == init + [last];
      if RelatedIs2(last, k) {
        assert DropRelated2(rows, k) == f0;
        SubsequenceExtend(f0, init, last);
      } else {
        var kept := f0 + [last];
        assert DropRelated2(rows, k) == kept;
        assert kept[..|kept| - 1] == f0;
      }
    }
  }

  /**
   * The filter keeps the relative order of first occurrences: it removes rows
   * by value, so of two kept rows the one that first occurs earlier among the
   * kept rows is the one that first occurs earlier in the input.
   */
  lemma {:induction false} DropRelated2KeepsOrder(rows: seq<CleanRow>, k: nat, x: CleanRow, y: CleanRow)
    requires x in DropRelated2(rows, k) && y in DropRelated2(rows, k)
    ensures x in rows && y in rows
    ensures FirstOccursBefore(DropRelated2(rows, k), x, y) <==> FirstOccursBefore(rows, x, y)
    decreases |rows|
  {
    var init, last := rows[..|rows| - 1], rows[|rows| - 1];
    var f0 := DropRelated2(init, k);
    assert rows == init + [last];
    if RelatedIs2(last, k) {
      assert DropRelated2(rows, k) == f0;
      DropRelated2KeepsOrder(init, k, x, y);
      AppendKeepsFirstOccurs(init, [last], x, y);
    } else if x in f0 && y in f0 {
      assert DropRelated2(rows, k) == f0 + [last];
      DropRelated2KeepsOrder(init, k, x, y);
      AppendKeepsFirstOccurs(f0, [last], x, y);
      AppendKeepsFirstOccurs(init, [last], x, y);
    } else {
      DropRelated2KeepsNewLast(rows, k, x, y);
    }
  }

  /** The case of `DropRelated2KeepsOrder` where one of the rows first occurs as the last input row. */
  lemma DropRelated2KeepsNewLast(rows: seq<CleanRow>, k: nat, x: CleanRow, y: CleanRow)
    requires |rows| > 0 && !RelatedIs2(rows[|rows| - 1], k)
    requires x in DropRelated2(rows, k) && y in DropRelated2(rows, k)
    requires var f0 := DropRelated2(rows[..|rows| - 1], k); !(x in f0 && y in f0)
    ensures x in rows && y in rows
    ensures FirstOccursBefore(DropRelated2(rows, k), x, y) <==> FirstOccursBefore(rows, x, y)
  {
    var init, last := rows[..|rows| - 1], rows[|rows| - 1];
    var f0 := DropRelated2(init, k);
    assert rows == init + [last];
    assert DropRelated2(rows, k) == f0 + [last];
    DropRelated2Members(init, k);
    if x in f0 || y in f0 {
      var z := if x in f0 then x else y;
      assert last !in f0;
      assert last !in init;
      NewLastOccursAfter(f0, last, z);
      NewLastOccursAfter(init, last, z);
    }
  }

  /** Rows none of which has the anomalous value pass the filter unchanged. */
  lemma {:induction false} DropRelated2Unchanged(rows: seq<CleanRow>, k: nat)
    requires forall i :: 0 <= i < |rows| ==> !RelatedIs2(rows[i], k)
    ensures DropRelated2(rows, k) == rows
    decreases |rows|
  {
    if |rows| > 0 {
      var init := rows[..|rows| - 1];
      forall i | 0 <= i < |init| ensures !RelatedIs2(init[i], k) {
        assert init[i] == rows[i];
      }
      DropRelated2Unchanged(init, k);
      assert rows == init + [rows[|rows| - 1]];
    }
  }

  /** Lines 70-73 applied to decoded rows with `related` at position k. */
  function FilterAndDeduplicate(rows: seq<CleanRow>, k: nat): seq<CleanRow>
  {
    FirstOccurrences(DropRelated2(rows, k))
  }

  /** Applying lines 70-73 a second time changes nothing. */
  lemma FilterAndDeduplicateIdempotent(rows: seq<CleanRow>, k: nat)
    ensures FilterAndDeduplicate(FilterAndDeduplicate(rows, k), k) == FilterAndDeduplicate(rows, k)
  {
    var once := FilterAndDeduplicate(rows, k);
    DropRelated2Members(rows, k);
    FirstOccurrencesElements(DropRelated2(rows, k));
    forall i | 0 <= i < |once| ensures !RelatedIs2(once[i], k) {
      assert once[i] in once;
    }
    DropRelated2Unchanged(once, k);
    FirstOccurrencesIdempotent(DropRelated2(rows, k));
  }

  // ---------------------------------------------------------------- the whole function

  /** The position of the `related` column among the category names (lines 70-73). */
  function RelatedColumn(names: seq<string>): (k: nat)
    requires Related in names
    ensures k < |names| && names[k] == Related && Related !in names[..k]
  {
    IndexOf(names, Related)
  }

  /** What `clean_data(df)` returns, or the error it raises. */
  function Cleaned(df: JoinedFrame): Result<CleanFrame, CleanError>
  {
    match DecodeError(df)
    case Some(e) => Err(e)
    case None =>
      var names := CategoryNames(df);
      if Related !in names then Err(NoRelatedColumn)
      else Ok(CleanFrame(df.fieldNames, names, FilterAndDeduplicate(Decoded(df), RelatedColumn(names))))
  }

  // ---------------------------------------------------------------- the steps, as the source performs them

  lemma SplitAllStep(rows: seq<JoinedRow>, i: nat)
    requires i < |rows|
    ensures SplitAll(rows[..i + 1]) == SplitAll(rows[..i]) + [Tokens(rows[i])]
    ensures (SplitAll(rows[..i]) + [Tokens(rows[i])])[..i] == SplitAll(rows[..i])
  {
    assert SplitAll(rows[..i + 1]) == SplitAll(rows[..i]) + [Tokens(rows[i])];
  }

  /** Line 47: split every row's categories, and count the columns of the expanded frame. */
  method SplitCategories(rows: seq<JoinedRow>) returns (table: TokenTable, width: nat)
    ensures table == SplitAll(rows)
    ensures width == Width(table)
  {
    table, width := [], 0;
    var i := 0;
    while i < |rows|
      invariant 0 <= i <= |rows|
      invariant table == SplitAll(rows[..i])
      invariant width == Width(table)
    {
      var tokens := match rows[i].categories
        case None => None
        case Some(s) => Some(Split(s));
      SplitAllStep(rows, i);
      table := table + [tokens];
      width := Max(width, TokenCount(tokens));
      i := i + 1;
    }
    assert rows[..i] == rows;
  }

  /** Whether column j's label repeats, as the failing `.str` access at line 58 detects it. */
  lemma DuplicatedBySlices(names: seq<string>, j: nat)
    requires j < |names|
    ensures Duplicated(names, j) <==> names[j] in names[..j] || names[j] in names[j + 1..]
  {
    if names[j] in names[..j] {
      var k :| 0 <= k < j && names[..j][k] == names[j];
      assert names[k] == names[j];
    } else if names[j] in names[j + 1..] {
      var k :| 0 <= k < |names| - j - 1 && names[j + 1..][k] == names[j];
      assert names[j + 1 + k] == names[j];
    } else {
      forall k | 0 <= k < |names| && k != j ensures names[k] != names[j] {
        if k < j {
          assert names[k] == names[..j][k];
        } else {
          assert names[k] == names[j + 1..][k - j - 1];
        }
      }
    }
  }

  /** Line 58: selecting column j's label gives a frame, not one column, when the label repeats. */
  method IsDuplicated(names: seq<string>, j: nat) returns (duplicated: bool)
    requires j < |names|
    ensures duplicated <==> Duplicated(names, j)
  {
    DuplicatedBySlices(names, j);
    duplicated := names[j] in names[..j] || names[j] in names[j + 1..];
  }

  /** Line 58: the last character of cell j of every row. */
  method LastCharacters(table: TokenTable, j: nat) returns (lasts: seq<Option<char>>)
    ensures |lasts| == |table|
    ensures forall i :: 0 <= i < |table| ==> lasts[i] == LastChar(ExpandedCell(table[i], j))
  {
    lasts := [];
    var i := 0;
    while i < |table|
      invariant 0 <= i <= |table|
      invariant |lasts| == i
      invariant forall i' :: 0 <= i' < i ==> lasts[i'] == LastChar(ExpandedCell(table[i'], j))
    {
      lasts := lasts + [LastChar(ExpandedCell(table[i], j))];
      i := i + 1;
    }
  }

  /** Line 61: `astype(int)` on a column of characters; None when some character is not a digit. */
  method ToIntegers(lasts: seq<Option<char>>) returns (column: Option<seq<int>>)
    ensures column.None? <==> exists i :: 0 <= i < |lasts| && (lasts[i].None? || DecimalValue(lasts[i].value).None?)
    ensures column.Some? ==> |column.value| == |lasts|
    ensures column.Some? ==>
      forall i :: 0 <= i < |lasts| ==> lasts[i].Some? && DecimalValue(lasts[i].value) == Some(column.value[i])
  {
    var values: seq<int> := [];
    var i := 0;
    while i < |lasts|
      invariant 0 <= i <= |lasts|
      invariant |values| == i
      invariant forall i' :: 0 <= i' < i ==> lasts[i'].Some? && DecimalValue(lasts[i'].value) == Some(values[i'])
    {
      if lasts[i].None? || DecimalValue(lasts[i].value).None? {
        return None;
      }
      values := values + [DecimalValue(lasts[i].value).value];
      i := i + 1;
    }
    return Some(values);
  }

  /** Lines 58-61 for one column: its cells' last characters converted to integers. */
  method DecodeColumn(table: TokenTable, j: nat) returns (column: Option<seq<int>>)
    ensures column.None? <==> !ColumnDecodes(table, j)
    ensures column.Some? ==> |column.value| == |table|
    ensures column.Some? ==> forall i :: 0 <= i < |table| ==> CellValue(table[i], j) == Some(column.value[i])
  {
    var lasts := LastCharacters(table, j);
    column := ToIntegers(lasts);
    if column.None? {
      var i :| 0 <= i < |lasts| && (lasts[i].None? || DecimalValue(lasts[i].value).None?);
      assert CellValue(table[i], j).None?;
    } else {
      forall i | 0 <= i < |table| ensures CellValue(table[i], j) == Some(column.value[i]) {
        assert lasts[i] == LastChar(ExpandedCell(table[i], j));
      }
    }
  }

  /** A column that raises nothing passes the search for the first error on. */
  lemma FirstColumnErrorStep(table: TokenTable, names: seq<string>, j: nat)
    requires j < |names| && !Duplicated(names, j) && ColumnDecodes(table, j)
    ensures FirstColumnError(table, names, j) == FirstColumnError(table, names, j + 1)
  {
  }

  /** Column c of `columns` holds the converted cells of column c of the table. */
  predicate DecodedColumns(table: TokenTable, columns: seq<seq<int>>)
  {
    (forall c :: 0 <= c < |columns| ==> |columns[c]| == |table|) &&
    forall c, i :: 0 <= c < |columns| && 0 <= i < |table| ==> CellValue(table[i], c) == Some(columns[c][i])
  }

  lemma DecodedColumnsAppend(table: TokenTable, columns: seq<seq<int>>, column: seq<int>)
    requires DecodedColumns(table, columns)
    requires |column| == |table|
    requires forall i :: 0 <= i < |table| ==> CellValue(table[i], |columns|) == Some(column[i])
    ensures DecodedColumns(table, columns + [column])
  {
    var next := columns + [column];
    forall c | 0 <= c < |next| ensures next[c] == if c < |columns| then columns[c] else column {
    }
    forall c, i | 0 <= c < |next| && 0 <= i < |table| ensures CellValue(table[i], c) == Some(next[c][i]) {
      if c < |columns| {
        assert next[c] == columns[c];
      } else {
        assert c == |columns| && next[c] == column;
      }
    }
  }

  /**
   * Lines 56-61: for each column label in turn, take the last character of
   * every cell, then convert those characters to integers. The first column
   * that cannot be converted raises.
   */
  method DecodeColumns(table: TokenTable, names: seq<string>) returns (r: Result<seq<seq<int>>, CleanError>)
    ensures r.Err? <==> FirstColumnError(table, names, 0).Some?
    ensures r.Err? ==> Some(r.error) == FirstColumnError(table, names, 0)
    ensures r.Ok? ==> |r.value| == |names| && DecodedColumns(table, r.value)
  {
    var columns: seq<seq<int>> := [];
    var j := 0;
    while j < |names|
      invariant 0 <= j <= |names|
      invariant |columns| == j
      invariant DecodedColumns(table, columns)
      invariant FirstColumnError(table, names, 0) == FirstColumnError(table, names, j)
    {
      var duplicated := IsDuplicated(names, j);
      if duplicated {
        return Err(DuplicateColumn(names[j]));
      }
      var column := DecodeColumn(table, j);
      if column.None? {
        return Err(NotAnInteger(names[j]));
      }
      FirstColumnErrorStep(table, names, j);
      DecodedColumnsAppend(table, columns, column.value);
      columns := columns + [column.value];
      j := j + 1;
    }
    return Ok(columns);
  }

  /** Lines 64-67: every row keeps its id and message fields and gains the decoded columns in label order. */
  method Concatenate(rows: seq<JoinedRow>, columns: seq<seq<int>>) returns (decoded: seq<CleanRow>)
    requires forall c :: 0 <= c < |columns| ==> |columns[c]| == |rows|
    ensures |decoded| == |rows|
    ensures forall i :: 0 <= i < |rows| ==>
      decoded[i].id == rows[i].id && decoded[i].fields == rows[i].fields && |decoded[i].flags| == |columns|
    ensures forall i, c :: 0 <= i < |rows| && 0 <= c < |columns| ==> decoded[i].flags[c] == columns[c][i]
  {
    decoded := [];
    var i := 0;
    while i < |rows|
      invariant 0 <= i <= |rows|
      invariant |decoded| == i
      invariant forall i' :: 0 <= i' < i ==>
        decoded[i'].id == rows[i'].id && decoded[i'].fields == rows[i'].fields && |decoded[i'].flags| == |columns|
      invariant forall i', c :: 0 <= i' < i && 0 <= c < |columns| ==> decoded[i'].flags[c] == columns[c][i']
    {
      var flags: seq<int> := [];
      var c := 0;
      while c < |columns|
        invariant 0 <= c <= |columns|
        invariant |flags| == c
        invariant forall c' :: 0 <= c' < c ==> flags[c'] == columns[c'][i]
      {
        flags := flags + [columns[c][i]];
        c := c + 1;
      }
      decoded := decoded + [CleanRow(rows[i].id, rows[i].fields, flags)];
      i := i + 1;
    }
  }

  /** The position of the column `column`, as `df[column]` finds it; None where that raises. */
  method FindColumn(names: seq<string>, column: string) returns (k: Option<nat>)
    ensures k.None? <==> column !in names
    ensures k.Some? ==> column in names && k.value == IndexOf(names, column)
  {
    var j := 0;
    while j < |names| && names[j] != column
      invariant 0 <= j <= |names|
      invariant column !in names[..j]
    {
      assert names[..j + 1] == names[..j] + [names[j]];
      j := j + 1;
    }
    if j == |names| {
      assert names[..j] == names;
      return None;
    }
    IndexOfIsFirst(names, column, j);
    return Some(j);
  }

  /** Line 70: drop every row whose value in column k is 2. */
  method DropAnomalous(rows: seq<CleanRow>, k: nat) returns (kept: seq<CleanRow>)
    ensures kept == DropRelated2(rows, k)
  {
    kept := [];
    var i := 0;
    while i < |rows|
      invariant 0 <= i <= |rows|
      invariant kept == DropRelated2(rows[..i], k)
    {
      assert rows[..i + 1][..i] == rows[..i];
      if !RelatedIs2(rows[i], k) {
        kept := kept + [rows[i]];
      }
      i := i + 1;
    }
    assert rows[..i] == rows;
  }

  /** Line 73: `drop_duplicates()`, keeping the first of equal rows. */
  method DropDuplicates<T(==)>(rows: seq<T>) returns (unique: seq<T>)
    ensures unique == FirstOccurrences(rows)
  {
    unique := [];
    var i := 0;
    while i < |rows|
      invariant 0 <= i <= |rows|
      invariant unique == FirstOccurrences(rows[..i])
      invariant forall x :: x in unique <==> x in rows[..i]
    {
      assert rows[..i + 1] == rows[..i] + [rows[i]];
      assert rows[..i + 1][..i] == rows[..i];
      if rows[i] !in unique {
        unique := unique + [rows[i]];
      }
      i := i + 1;
    }
    assert rows[..i] == rows;
  }

  /** The rows `Concatenate` builds from the decoded columns are `DecodedRows`. */
  lemma ConcatenatedIsDecoded(rows: seq<JoinedRow>, table: TokenTable, columns: seq<seq<int>>, decoded: seq<CleanRow>)
    requires |table| == |rows|
    requires DecodedColumns(table, columns)
    requires |decoded| == |rows|
    requires forall i :: 0 <= i < |rows| ==>
      decoded[i].id == rows[i].id && decoded[i].fields == rows[i].fields && |decoded[i].flags| == |columns|
    requires forall i, c :: 0 <= i < |rows| && 0 <= c < |columns| ==> decoded[i].flags[c] == columns[c][i]
    ensures AllCellsDecode(table, |columns|)
    ensures decoded == DecodedRows(rows, table, |columns|)
  {
    var w := |columns|;
    assert AllCellsDecode(table, w) by {
      forall i, c | 0 <= i < |rows| && 0 <= c < w ensures CellValue(table[i], c).Some? {
        assert CellValue(table[i], c) == Some(columns[c][i]);
      }
    }
    forall i | 0 <= i < |rows| ensures decoded[i] == DecodedRows(rows, table, w)[i] {
      var expected := DecodedRows(rows, table, w)[i];
      forall c | 0 <= c < w ensures decoded[i].flags[c] == expected.flags[c] {
        assert CellValue(table[i], c) == Some(columns[c][i]);
      }
      assert decoded[i].flags == expected.flags;
    }
  }

  /** `clean_data(df)`, lines 36-75. */
  method CleanData(df: JoinedFrame) returns (r: Result<CleanFrame, CleanError>)
    ensures r == Cleaned(df)
  {
    var rows := df.rows;
    var table, width := SplitCategories(rows);
    if |rows| == 0 {
      return Err(EmptyFrame);
    }
    if table[0].None? || |table[0].value| != width {
      return Err(FirstRowIncomplete);
    }
    var names := HeaderNames(table[0].value);
    var columns := DecodeColumns(table, names);
    if columns.Err? {
      return Err(columns.error);
    }
    assert Decodes(df) && names == CategoryNames(df);
    var decoded := Concatenate(rows, columns.value);
    ConcatenatedIsDecoded(rows, table, columns.value, decoded);
    var k := FindColumn(names, Related);
    if k.None? {
      return Err(NoRelatedColumn);
    }
    var kept := DropAnomalous(decoded, k.value);
    var unique := DropDuplicates(kept);
    r := Ok(CleanFrame(df.fieldNames, names, unique));
  }
}
