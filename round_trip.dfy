/**
 * The format `clean_data` reads, written out: every message row carries a
 * categories string `name-d;name-d;...` that lists the same category names in
 * the same order, each followed by a dash and one digit. Cleaning such a frame
 * recovers the names and the digits.
 */
module RoundTrip {
  import opened Wrappers
  import opened Sequences
  import opened Strings
  import opened Frames
  import opened Cleaning
  import opened CleaningProperties

  /** Names that can head the columns: at least one, distinct, none holding a separator. */
  predicate ValidNames(names: seq<string>)
  {
    && |names| >= 1
    && Distinct(names)
    && forall j :: 0 <= j < |names| ==> Separator !in names[j]
  }

  /** One flag per name, each a decimal digit. */
  predicate ValidFlags(names: seq<string>, flags: seq<int>)
  {
    |flags| == |names| && forall j :: 0 <= j < |flags| ==> 0 <= flags[j] <= 9
  }

  /** The token `name-d`. */
  function EncodeToken(name: string, flag: int): (token: string)
    requires 0 <= flag <= 9
    ensures DropLastTwo(token) == name
    ensures LastChar(token) == Some(DigitChar(flag))
  {
    assert (name + "-" + [DigitChar(flag)])[..|name|] == name;
    name + "-" + [DigitChar(flag)]
  }

  /**
   * The tokens of one categories string: token j gives back name j under
   * `x[:-2]` and flag j under `.str[-1]`, and holds no separator.
   */
  function EncodeTokens(names: seq<string>, flags: seq<int>): (tokens: seq<string>)
    requires ValidNames(names) && ValidFlags(names, flags)
    ensures |tokens| == |names|
    ensures forall j :: 0 <= j < |tokens| ==>
      && DropLastTwo(tokens[j]) == names[j]
      && LastChar(tokens[j]) == Some(DigitChar(flags[j]))
      && Separator !in tokens[j]
  {
    var tokens := seq(|names|, j requires 0 <= j < |names| => EncodeToken(names[j], flags[j]));
    assert forall j :: 0 <= j < |tokens| ==> tokens[j] == names[j] + "-" + [DigitChar(flags[j])];
    tokens
  }

  /** `[x[:-2] for x in firstrow]` recovers the names from encoded tokens. */
  lemma HeaderNamesOfEncoded(names: seq<string>, flags: seq<int>)
    requires ValidNames(names) && ValidFlags(names, flags)
    ensures HeaderNames(EncodeTokens(names, flags)) == names
  {
  }

  /** The categories string `name-d;name-d;...`. */
  function EncodeCategories(names: seq<string>, flags: seq<int>): string
    requires ValidNames(names) && ValidFlags(names, flags)
  {
    JoinTokens(EncodeTokens(names, flags))
  }

  /** The merged row a clean row comes from. */
  function EncodeRow(names: seq<string>, r: CleanRow): JoinedRow
    requires ValidNames(names) && ValidFlags(names, r.flags)
  {
    JoinedRow(r.id, r.fields, Some(EncodeCategories(names, r.flags)))
  }

  /** The merged frame whose rows are `rows` encoded. */
  function EncodeFrame(fieldNames: seq<string>, names: seq<string>, rows: seq<CleanRow>): JoinedFrame
    requires ValidNames(names)
    requires forall i :: 0 <= i < |rows| ==> ValidFlags(names, rows[i].flags)
  {
    JoinedFrame(fieldNames, seq(|rows|, i requires 0 <= i < |rows| => EncodeRow(names, rows[i])))
  }

  /** Splitting an encoded categories string gives its tokens back. */
  lemma SplitEncoded(names: seq<string>, flags: seq<int>)
    requires ValidNames(names) && ValidFlags(names, flags)
    ensures Split(EncodeCategories(names, flags)) == EncodeTokens(names, flags)
  {
    SplitJoin(EncodeTokens(names, flags));
  }

  /** An encoded row decodes to the row it encodes. */
  lemma EncodedRowDecodes(names: seq<string>, r: CleanRow)
    requires ValidNames(names) && ValidFlags(names, r.flags)
    ensures WellFormedRow(EncodeRow(names, r), |names|)
    ensures DecodesTo(EncodeRow(names, r), r)
  {
    SplitEncoded(names, r.flags);
    var tokens := EncodeTokens(names, r.flags);
    forall j | 0 <= j < |names| ensures EndsInDigit(tokens[j]) && LastChar(tokens[j]) == Some(DigitChar(r.flags[j])) {
      assert tokens[j] == EncodeToken(names[j], r.flags[j]);
    }
  }

  /** A non-empty encoded frame cleans without error, under the encoded names. */
  lemma EncodedCleanable(fieldNames: seq<string>, names: seq<string>, rows: seq<CleanRow>)
    requires ValidNames(names) && Related in names
    requires |rows| > 0
    requires forall i :: 0 <= i < |rows| ==> ValidFlags(names, rows[i].flags)
    ensures Cleaned(EncodeFrame(fieldNames, names, rows)).Ok?
    ensures Cleaned(EncodeFrame(fieldNames, names, rows)).value.categoryNames == names
  {
    var df := EncodeFrame(fieldNames, names, rows);
    forall i | 0 <= i < |rows| ensures WellFormedRow(df.rows[i], |names|) {
      EncodedRowDecodes(names, rows[i]);
    }
    SplitEncoded(names, rows[0].flags);
    HeaderNamesOfEncoded(names, rows[0].flags);
    assert Cleanable(df);
    CleanedSucceedsIff(df);
    CleanedHeader(df);
  }

  /** The decoded rows of an encoded frame are the rows encoded. */
  lemma EncodedDecoded(fieldNames: seq<string>, names: seq<string>, rows: seq<CleanRow>)
    requires ValidNames(names)
    requires forall i :: 0 <= i < |rows| ==> ValidFlags(names, rows[i].flags)
    requires Decodes(EncodeFrame(fieldNames, names, rows))
    ensures Decoded(EncodeFrame(fieldNames, names, rows)) == rows
  {
    var df := EncodeFrame(fieldNames, names, rows);
    DecodedRowsDecode(df);
    forall i | 0 <= i < |rows| ensures Decoded(df)[i] == rows[i] {
      EncodedRowDecodes(names, rows[i]);
      DecodesToUnique(df.rows[i], Decoded(df)[i], rows[i]);
    }
  }

  /**
   * Encoding then cleaning round-trips: a non-empty frame of encoded rows whose
   * names include `related` cleans to those names and to the rows themselves,
   * after the filter of line 70 and the de-duplication of line 73.
   */
  lemma CleanEncoded(fieldNames: seq<string>, names: seq<string>, rows: seq<CleanRow>)
    requires ValidNames(names) && Related in names
    requires |rows| > 0
    requires forall i :: 0 <= i < |rows| ==> ValidFlags(names, rows[i].flags)
    ensures Cleaned(EncodeFrame(fieldNames, names, rows))
      == Ok(CleanFrame(fieldNames, names, FilterAndDeduplicate(rows, RelatedColumn(names))))
  {
    var df := EncodeFrame(fieldNames, names, rows);
    EncodedCleanable(fieldNames, names, rows);
    CleanedRows(df);
    EncodedDecoded(fieldNames, names, rows);
  }

  /**
   * With distinct rows none of which has `related` equal to 2, cleaning gives
   * back exactly the names and the rows that were encoded.
   */
  lemma CleanEncodedExact(fieldNames: seq<string>, names: seq<string>, rows: seq<CleanRow>)
    requires ValidNames(names) && Related in names
    requires |rows| > 0 && Distinct(rows)
    requires forall i :: 0 <= i < |rows| ==> ValidFlags(names, rows[i].flags)
    requires forall i :: 0 <= i < |rows| ==> !RelatedIs2(rows[i], RelatedColumn(names))
    ensures Cleaned(EncodeFrame(fieldNames, names, rows)) == Ok(CleanFrame(fieldNames, names, rows))
  {
    CleanEncoded(fieldNames, names, rows);
    var k := RelatedColumn(names);
    DropRelated2Unchanged(rows, k);
    FirstOccurrencesOfDistinct(rows);
  }
}
