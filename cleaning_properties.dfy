/**
 * What `clean_data` promises, stated independently of how `Cleaned` is
 * computed and proved about it.
 */
module CleaningProperties {
  import opened Wrappers
  import opened Sequences
  import opened Strings
  import opened Frames
  import opened Cleaning

  /** A merged row with a categories string of `width` tokens, each ending in a digit. */
  predicate WellFormedRow(row: JoinedRow, width: nat)
  {
    && row.categories.Some?
    && var tokens := Split(row.categories.value);
       |tokens| == width && forall j :: 0 <= j < width ==> EndsInDigit(tokens[j])
  }

  /**
   * When `clean_data` returns instead of raising: the frame has rows, every row
   * has a categories string with as many tokens as the first row's, every
   * token ends in a digit, and the names derived from the first row are
   * distinct and include `related`.
   */
  predicate Cleanable(df: JoinedFrame)
  {
    && |df.rows| > 0
    && df.rows[0].categories.Some?
    && var first := Split(df.rows[0].categories.value);
       && (forall i :: 0 <= i < |df.rows| ==> WellFormedRow(df.rows[i], |first|))
       && Distinct(HeaderNames(first))
       && Related in HeaderNames(first)
  }

  /** `clean_data`'s output row `clean` is what lines 56-67 make of the merged row `row`. */
  predicate DecodesTo(row: JoinedRow, clean: CleanRow)
  {
    && clean.id == row.id
    && clean.fields == row.fields
    && row.categories.Some?
    && var tokens := Split(row.categories.value);
       && |clean.flags| == |tokens|
       && forall j :: 0 <= j < |tokens| ==>
            0 <= clean.flags[j] <= 9 && LastChar(tokens[j]) == Some(DigitChar(clean.flags[j]))
  }

  /** A row whose cells all convert has a full categories string of digit-ended tokens. */
  lemma RowWellFormed(row: JoinedRow, width: nat)
    requires width >= 1
    requires TokenCount(Tokens(row)) <= width
    requires forall j :: 0 <= j < width ==> CellValue(Tokens(row), j).Some?
    ensures WellFormedRow(row, width)
  {
    MissingCellFails(0);
    assert CellValue(Tokens(row), 0).Some?;
    var tokens := Split(row.categories.value);
    PaddingCellFails(tokens, |tokens|);
    assert |tokens| == width;
    forall j | 0 <= j < width ensures EndsInDigit(tokens[j]) {
      assert CellValue(Tokens(row), j).Some?;
      assert ExpandedCell(Tokens(row), j) == tokens[j];
    }
  }

  /** Every row of a frame that decodes is well formed, at the first row's width. */
  lemma DecodesWellFormed(df: JoinedFrame)
    requires Decodes(df)
    ensures |df.rows| > 0 && df.rows[0].categories.Some?
    ensures Width(SplitAll(df.rows)) == |Split(df.rows[0].categories.value)|
    ensures forall i :: 0 <= i < |df.rows| ==> WellFormedRow(df.rows[i], Width(SplitAll(df.rows)))
  {
    DecodesMeans(df);
    var table := SplitAll(df.rows);
    WidthIsLongest(table);
    var w := Width(table);
    forall i | 0 <= i < |df.rows| ensures WellFormedRow(df.rows[i], w) {
      assert table[i] == Tokens(df.rows[i]);
      RowWellFormed(df.rows[i], w);
    }
  }

  lemma CleanableIsOk(df: JoinedFrame)
    requires Cleanable(df)
    ensures Cleaned(df).Ok?
  {
    var rows := df.rows;
    var first := Split(rows[0].categories.value);
    var w := |first|;
    var table := SplitAll(rows);
    forall i | 0 <= i < |rows| ensures TokenCount(table[i]) <= w {
      assert WellFormedRow(rows[i], w);
    }
    WidthAtMost(table, w);
    WidthIsLongest(table);
    assert FirstRowComplete(table);
    var names := HeaderNames(first);
    forall c | 0 <= c < |names| ensures !Duplicated(names, c) && ColumnDecodes(table, c) {
      forall i | 0 <= i < |rows| ensures CellValue(table[i], c).Some? {
        assert WellFormedRow(rows[i], w);
        var tokens := Split(rows[i].categories.value);
        assert EndsInDigit(tokens[c]);
        assert ExpandedCell(Tokens(rows[i]), c) == tokens[c];
      }
      forall k | 0 <= k < |names| && k != c ensures names[k] != names[c] {
        assert k < c || c < k;
      }
    }
    FirstColumnErrorNone(table, names, 0);
    assert Decodes(df);
  }

  lemma OkIsCleanable(df: JoinedFrame)
    requires Cleaned(df).Ok?
    ensures Cleanable(df)
  {
    assert Decodes(df);
    DecodesMeans(df);
    DecodesWellFormed(df);
  }

  /** `clean_data` returns exactly when the frame is `Cleanable`; otherwise it raises. */
  lemma CleanedSucceedsIff(df: JoinedFrame)
    ensures Cleaned(df).Ok? <==> Cleanable(df)
  {
    if Cleanable(df) {
      CleanableIsOk(df);
    }
    if Cleaned(df).Ok? {
      OkIsCleanable(df);
    }
  }

  /**
   * A row without a categories value, which is what the merge gives a message
   * no category row matched, makes `clean_data` raise: `astype(str)` turns it
   * into "nan", whose last character is not a digit.
   */
  lemma MissingCategoriesFail(df: JoinedFrame, i: nat)
    requires i < |df.rows| && df.rows[i].categories.None?
    ensures Cleaned(df).Err?
  {
    CleanedSucceedsIff(df);
    if df.rows[0].categories.Some? {
      assert !WellFormedRow(df.rows[i], |Split(df.rows[0].categories.value)|);
    }
  }

  /** A token anywhere whose last character is not a decimal digit makes `clean_data` raise. */
  lemma NonDigitTokenFails(df: JoinedFrame, i: nat, j: nat)
    requires i < |df.rows| && df.rows[i].categories.Some?
    requires j < |Split(df.rows[i].categories.value)|
    requires !EndsInDigit(Split(df.rows[i].categories.value)[j])
    ensures Cleaned(df).Err?
  {
    CleanedSucceedsIff(df);
    if df.rows[0].categories.Some? {
      assert !WellFormedRow(df.rows[i], |Split(df.rows[0].categories.value)|);
    }
  }

  /**
   * A row with a different number of tokens than the first makes `clean_data`
   * raise: `expand=True` pads the shorter rows, and the padding never converts.
   */
  lemma RaggedRowFails(df: JoinedFrame, i: nat)
    requires i < |df.rows| && df.rows[0].categories.Some? && df.rows[i].categories.Some?
    requires |Split(df.rows[i].categories.value)| != |Split(df.rows[0].categories.value)|
    ensures Cleaned(df).Err?
  {
    CleanedSucceedsIff(df);
    assert !WellFormedRow(df.rows[i], |Split(df.rows[0].categories.value)|);
  }

  /**
   * The columns of the result: the category names are the first row's tokens
   * without their last two characters, one per token, all distinct, and they
   * follow the message columns in place of the dropped `categories` column.
   */
  lemma CleanedHeader(df: JoinedFrame)
    requires Cleaned(df).Ok?
    ensures |df.rows| > 0 && df.rows[0].categories.Some?
    ensures var first, t := Split(df.rows[0].categories.value), Cleaned(df).value;
      && |t.categoryNames| == |first|
      && (forall j :: 0 <= j < |first| ==> t.categoryNames[j] == DropLastTwo(first[j]))
      && Distinct(t.categoryNames)
      && Related in t.categoryNames
      && t.fieldNames == df.fieldNames
      && CleanColumns(t) == JoinedColumns(df)[..|JoinedColumns(df)| - 1] + t.categoryNames
  {
    OkIsCleanable(df);
    var t := Cleaned(df).value;
    assert JoinedColumns(df)[..|JoinedColumns(df)| - 1] == [IdColumn] + df.fieldNames;
  }

  /** `DecodesTo` determines the decoded row. */
  lemma DecodesToUnique(row: JoinedRow, a: CleanRow, b: CleanRow)
    requires DecodesTo(row, a) && DecodesTo(row, b)
    ensures a == b
  {
    var tokens := Split(row.categories.value);
    forall j | 0 <= j < |tokens| ensures a.flags[j] == b.flags[j] {
      DecimalValueOfDigit(a.flags[j]);
      DecimalValueOfDigit(b.flags[j]);
    }
  }

  /** Row i of the decoded frame is what lines 56-67 make of merged row i. */
  lemma DecodedRowsDecode(df: JoinedFrame)
    requires Decodes(df)
    ensures |Decoded(df)| == |df.rows|
    ensures forall i :: 0 <= i < |df.rows| ==> DecodesTo(df.rows[i], Decoded(df)[i])
  {
    DecodesWellFormed(df);
    var table := SplitAll(df.rows);
    var w := Width(table);
    forall i | 0 <= i < |df.rows| ensures DecodesTo(df.rows[i], Decoded(df)[i]) {
      var row, clean := df.rows[i], Decoded(df)[i];
      assert WellFormedRow(row, w);
      assert table[i] == Tokens(row);
      var tokens := Split(row.categories.value);
      forall j | 0 <= j < |tokens|
        ensures 0 <= clean.flags[j] <= 9 && LastChar(tokens[j]) == Some(DigitChar(clean.flags[j]))
      {
        assert ExpandedCell(table[i], j) == tokens[j];
        assert clean.flags[j] == CellValue(table[i], j).value;
      }
    }
  }

  /** The result's rows are the decoded rows after the filter of line 70 and the de-duplication of line 73. */
  lemma CleanedRows(df: JoinedFrame)
    requires Cleaned(df).Ok?
    ensures Decodes(df) && Related in Cleaned(df).value.categoryNames
    ensures var t := Cleaned(df).value;
      t.rows == FirstOccurrences(DropRelated2(Decoded(df), RelatedColumn(t.categoryNames)))
  {
  }

  /**
   * Every output row decodes some merged row: same id and message fields, one
   * integer per category, and value j is the digit ending that row's token j.
   */
  lemma CleanedRowsDecode(df: JoinedFrame)
    requires Cleaned(df).Ok?
    ensures forall r :: r in Cleaned(df).value.rows ==>
      |r.flags| == |Cleaned(df).value.categoryNames| &&
      exists i :: 0 <= i < |df.rows| && DecodesTo(df.rows[i], r)
  {
    var t := Cleaned(df).value;
    var decoded := Decoded(df);
    CleanedRowsFromDecoded(df);
    DecodedFlagsWidth(df);
    DecodedRowsDecode(df);
    forall r | r in t.rows
      ensures |r.flags| == |t.categoryNames| && exists i :: 0 <= i < |df.rows| && DecodesTo(df.rows[i], r)
    {
      var i :| 0 <= i < |decoded| && decoded[i] == r;
      assert DecodesTo(df.rows[i], r);
    }
  }

  /** Every output row is a decoded row. */
  lemma CleanedRowsFromDecoded(df: JoinedFrame)
    requires Cleaned(df).Ok?
    ensures Decodes(df) && Cleaned(df).value.categoryNames == CategoryNames(df)
    ensures forall r :: r in Cleaned(df).value.rows ==> r in Decoded(df)
  {
    CleanedRows(df);
    var t := Cleaned(df).value;
    var decoded := Decoded(df);
    var k := RelatedColumn(t.categoryNames);
    DropRelated2Members(decoded, k);
    FirstOccurrencesElements(DropRelated2(decoded, k));
  }

  /** Every decoded row has one value per category name. */
  lemma DecodedFlagsWidth(df: JoinedFrame)
    requires Decodes(df)
    ensures forall r :: r in Decoded(df) ==> |r.flags| == |CategoryNames(df)|
  {
    DecodesMeans(df);
  }

  /**
   * Line 70: no output row has `related` equal to 2, and every merged row whose
   * decoded `related` is not 2 is in the output.
   */
  lemma CleanedFilter(df: JoinedFrame)
    requires Cleaned(df).Ok?
    ensures Related in Cleaned(df).value.categoryNames
    ensures var t := Cleaned(df).value; var k := RelatedColumn(t.categoryNames);
      && (forall r :: r in t.rows ==> k < |r.flags| && r.flags[k] != AnomalousValue)
      && (forall i, c :: 0 <= i < |df.rows| && DecodesTo(df.rows[i], c) && !RelatedIs2(c, k) ==> c in t.rows)
  {
    CleanedRows(df);
    CleanedRowsDecode(df);
    var t := Cleaned(df).value;
    var decoded := Decoded(df);
    var k := RelatedColumn(t.categoryNames);
    DecodedRowsDecode(df);
    DropRelated2Members(decoded, k);
    FirstOccurrencesElements(DropRelated2(decoded, k));
    forall r | r in t.rows ensures k < |r.flags| && r.flags[k] != AnomalousValue {
      assert r in DropRelated2(decoded, k);
    }
    forall i, c | 0 <= i < |df.rows| && DecodesTo(df.rows[i], c) && !RelatedIs2(c, k) ensures c in t.rows {
      DecodesToUnique(df.rows[i], c, decoded[i]);
      assert decoded[i] in decoded;
    }
  }

  /**
   * Line 73: no two output rows are equal, and the output is the first
   * occurrences of the filtered rows: a subsequence of them holding each of
   * them, listed in the order in which each first occurs.
   */
  lemma CleanedDeduplicated(df: JoinedFrame)
    requires Cleaned(df).Ok?
    ensures Decodes(df) && Related in Cleaned(df).value.categoryNames
    ensures var t := Cleaned(df).value; var filtered := DropRelated2(Decoded(df), RelatedColumn(t.categoryNames));
      && Distinct(t.rows)
      && IsSubsequence(t.rows, filtered)
      && (forall r :: r in t.rows <==> r in filtered)
      && InFirstOccurrenceOrder(t.rows, filtered)
  {
    CleanedRows(df);
    var t := Cleaned(df).value;
    var filtered := DropRelated2(Decoded(df), RelatedColumn(t.categoryNames));
    FirstOccurrencesDistinct(filtered);
    FirstOccurrencesSubsequence(filtered);
    FirstOccurrencesElements(filtered);
    FirstOccurrencesKeepFirst(filtered);
  }

  /**
   * `clean_data` as a whole: it returns exactly when the frame is `Cleanable`,
   * and then its rows are the decoded rows whose `related` value is not 2,
   * each once, in the order in which each first occurs among the decoded rows.
   * By `FirstOccurrenceOrderUnique` these facts fix the output rows.
   */
  lemma CleanedCharacterised(df: JoinedFrame)
    ensures Cleaned(df).Ok? <==> Cleanable(df)
    ensures Cleaned(df).Ok? ==> Decodes(df) && Related in Cleaned(df).value.categoryNames
    ensures Cleaned(df).Ok? ==>
      var t, decoded := Cleaned(df).value, Decoded(df);
      && Distinct(t.rows)
      && (forall r :: r in t.rows <==> r in decoded && !RelatedIs2(r, RelatedColumn(t.categoryNames)))
      && InFirstOccurrenceOrder(t.rows, decoded)
  {
    CleanedSucceedsIff(df);
    if Cleaned(df).Ok? {
      CleanedDeduplicated(df);
      var t, decoded := Cleaned(df).value, Decoded(df);
      var k := RelatedColumn(t.categoryNames);
      var filtered := DropRelated2(decoded, k);
      DropRelated2Members(decoded, k);
      forall p, q | 0 <= p < q < |t.rows|
        ensures FirstOccursBefore(decoded, t.rows[p], t.rows[q])
      {
        assert t.rows[p] in t.rows && t.rows[q] in t.rows;
        DropRelated2KeepsOrder(decoded, k, t.rows[p], t.rows[q]);
      }
      assert InFirstOccurrenceOrder(t.rows, decoded);
    }
  }

  /** Running the filter and the de-duplication again on the output changes nothing. */
  lemma CleanedIdempotent(df: JoinedFrame)
    requires Cleaned(df).Ok?
    ensures Related in Cleaned(df).value.categoryNames
    ensures var t := Cleaned(df).value;
      FilterAndDeduplicate(t.rows, RelatedColumn(t.categoryNames)) == t.rows
  {
    CleanedRows(df);
    var t := Cleaned(df).value;
    FilterAndDeduplicateIdempotent(Decoded(df), RelatedColumn(t.categoryNames));
  }
}
