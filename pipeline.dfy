/**
 * The two stages `main` runs in sequence (data/process_data.py, lines 110-113):
 * `clean_data(load_data(messages, categories))`.
 */
module Pipeline {
  import opened Wrappers
  import opened Frames
  import opened Loading
  import opened Cleaning
  import opened CleaningProperties

  /** The merged and cleaned frame, or the error `clean_data` raises. */
  function LoadAndClean(messages: MessageTable, categories: seq<CategoryRow>): Result<CleanFrame, CleanError>
  {
    Cleaned(LeftJoin(messages, categories))
  }

  /**
   * A single message whose id no category row has makes the pipeline fail:
   * the left merge gives it a missing categories value, which `clean_data`
   * cannot convert.
   */
  lemma UnmatchedMessageFails(messages: MessageTable, categories: seq<CategoryRow>, i: nat)
    requires i < |messages.rows| && Matches(messages.rows[i].id, categories) == []
    ensures LoadAndClean(messages, categories).Err?
  {
    var ms := messages.rows;
    LeftJoinBlocks(messages, categories, i);
    var before := JoinRows(ms[..i], categories);
    var rows := LeftJoin(messages, categories).rows;
    assert rows[|before|] == JoinOne(ms[i], categories)[0];
    MissingCategoriesFail(LeftJoin(messages, categories), |before|);
  }

  /**
   * Every row the pipeline outputs belongs to a message and to a category row
   * with the same id, whose categories string it decodes.
   */
  lemma OutputTracesBack(messages: MessageTable, categories: seq<CategoryRow>)
    requires LoadAndClean(messages, categories).Ok?
    ensures forall r :: r in LoadAndClean(messages, categories).value.rows ==>
      exists m, c ::
        m in messages.rows && c in categories && m.id == c.id && DecodesTo(JoinedRow(m.id, m.fields, c.categories), r)
  {
    var df := LeftJoin(messages, categories);
    var t := Cleaned(df).value;
    CleanedRowsDecode(df);
    forall r | r in t.rows
      ensures exists m, c ::
        m in messages.rows && c in categories && m.id == c.id && DecodesTo(JoinedRow(m.id, m.fields, c.categories), r)
    {
      var i :| 0 <= i < |df.rows| && DecodesTo(df.rows[i], r);
      MatchedRow(messages, categories, df.rows[i], r);
    }
  }

  /** A merged row that decodes pairs a message with a category row of its id. */
  lemma MatchedRow(messages: MessageTable, categories: seq<CategoryRow>, row: JoinedRow, r: CleanRow)
    requires row in LeftJoin(messages, categories).rows && DecodesTo(row, r)
    ensures exists m, c ::
      m in messages.rows && c in categories && m.id == c.id && DecodesTo(JoinedRow(m.id, m.fields, c.categories), r)
  {
    var m :| m in messages.rows && row.id == m.id && row.fields == m.fields;
    var c :| c in categories && c.id == row.id && c.categories == row.categories;
    assert JoinedRow(m.id, m.fields, c.categories) == row;
  }
}
