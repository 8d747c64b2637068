/**
 * `load_data`: the left merge of the messages table with the categories
 * table on `id` (data/process_data.py, line 33).
 */
module Loading {
  import opened Wrappers
  import opened Sequences
  import opened Frames

  /**
   * The category rows whose id is `id`, in their input order: a subsequence of
   * the categories holding each matching row as often as the categories do,
   * and no other row.
   */
  function Matches(id: int, categories: seq<CategoryRow>): (found: seq<CategoryRow>)
    ensures |found| <= |categories|
    ensures IsSubsequence(found, categories)
    ensures forall c :: multiset(found)[c] == if c.id == id then multiset(categories)[c] else 0
    ensures forall c :: c in found <==> c in categories && c.id == id
    decreases |categories|
  {
    if |categories| == 0 then []
    else
      var init, last := categories[..|categories| - 1], categories[|categories| - 1];
      assert categories == init + [last];
      var found := Matches(id, init);
      if last.id == id then
        assert (found + [last])[..|found|] == found;
        found + [last]
      else
        SubsequenceExtend(found, init, last);
        found
  }

  /**
   * The merged rows one message contributes: one per matching category row,
   * each with the message's id and fields and that row's categories in match
   * order, or a single row with missing categories when nothing matches.
   */
  function JoinOne(m: MessageRow, categories: seq<CategoryRow>): (rows: seq<JoinedRow>)
    ensures var found := Matches(m.id, categories);
      && |rows| == (if |found| == 0 then 1 else |found|)
      && (forall k :: 0 <= k < |rows| ==> rows[k].id == m.id && rows[k].fields == m.fields)
      && (|found| == 0 ==> rows[0].categories == None)
      && (forall k :: 0 <= k < |found| ==> rows[k].categories == found[k].categories)
  {
    var found := Matches(m.id, categories);
    if |found| == 0 then [JoinedRow(m.id, m.fields, None)]
    else seq(|found|, k requires 0 <= k < |found| => JoinedRow(m.id, m.fields, found[k].categories))
  }

  /** The merged rows of one message, as a function of the message. */
  function JoinWith(categories: seq<CategoryRow>): MessageRow -> seq<JoinedRow>
  {
    m => JoinOne(m, categories)
  }

  /** The merged rows of all messages, message by message. */
  function JoinRows(messages: seq<MessageRow>, categories: seq<CategoryRow>): seq<JoinedRow>
  {
    FlatMap(JoinWith(categories), messages)
  }

  /**
   * `messages.merge(categories, on='id', how='left')`: the columns are `id`,
   * the message columns and `categories`; no message is lost; and every row
   * comes from a message, with the categories of a category row sharing its
   * id, or missing because no category row has that id.
   */
  function LeftJoin(messages: MessageTable, categories: seq<CategoryRow>): (df: JoinedFrame)
    ensures JoinedColumns(df) == [IdColumn] + messages.fieldNames + [CategoriesColumn]
    ensures |df.rows| >= |messages.rows|
    ensures forall i :: 0 <= i < |messages.rows| ==> HasRowOf(df.rows, messages.rows[i])
    ensures forall r :: r in df.rows ==> FromMessage(r, messages.rows) && CategoriesTraced(r, categories)
  {
    LeftJoinKeepsMessages(messages.rows, categories);
    LeftJoinProvenance(messages.rows, categories);
    JoinedFrame(messages.fieldNames, JoinRows(messages.rows, categories))
  }

  /** The merge distributes over concatenation of the messages table. */
  lemma JoinRowsAppend(a: seq<MessageRow>, b: seq<MessageRow>, categories: seq<CategoryRow>)
    ensures JoinRows(a + b, categories) == JoinRows(a, categories) + JoinRows(b, categories)
  {
    FlatMapAppend(JoinWith(categories), a, b);
  }

  /**
   * Output order follows the messages: the output is the rows of the messages
   * before message i, then the block message i contributes, then the rest.
   */
  lemma LeftJoinBlocks(messages: MessageTable, categories: seq<CategoryRow>, i: nat)
    requires i < |messages.rows|
    ensures var ms := messages.rows;
      LeftJoin(messages, categories).rows
        == JoinRows(ms[..i], categories) + JoinOne(ms[i], categories) + JoinRows(ms[i + 1..], categories)
  {
    var ms := messages.rows;
    assert ms == ms[..i] + ([ms[i]] + ms[i + 1..]);
    JoinRowsAppend(ms[..i], [ms[i]] + ms[i + 1..], categories);
    assert ([ms[i]] + ms[i + 1..])[1..] == ms[i + 1..];
  }

  /** Some row of `rows` carries the id and fields of message `m`. */
  predicate HasRowOf(rows: seq<JoinedRow>, m: MessageRow)
  {
    exists r :: r in rows && r.id == m.id && r.fields == m.fields
  }

  lemma HasRowOfAppend(a: seq<JoinedRow>, b: seq<JoinedRow>, m: MessageRow)
    requires HasRowOf(a, m) || HasRowOf(b, m)
    ensures HasRowOf(a + b, m)
  {
    var r :| (r in a || r in b) && r.id == m.id && r.fields == m.fields;
    assert r in a + b;
  }

  /** Every message row is kept: the output has at least as many rows, and one for each message. */
  lemma {:induction false} LeftJoinKeepsMessages(messages: seq<MessageRow>, categories: seq<CategoryRow>)
    ensures |JoinRows(messages, categories)| >= |messages|
    ensures forall i :: 0 <= i < |messages| ==> HasRowOf(JoinRows(messages, categories), messages[i])
    decreases |messages|
  {
    if |messages| > 0 {
      var tail := messages[1..];
      LeftJoinKeepsMessages(tail, categories);
      var head, rest := JoinOne(messages[0], categories), JoinRows(tail, categories);
      assert JoinRows(messages, categories) == head + rest;
      assert head[0] in head;
      forall i | 0 <= i < |messages| ensures HasRowOf(head + rest, messages[i]) {
        if i > 0 {
          assert messages[i] == tail[i - 1];
        }
        HasRowOfAppend(head, rest, messages[i]);
      }
    }
  }

  /** Row `r` carries the id and fields of some message. */
  predicate FromMessage(r: JoinedRow, messages: seq<MessageRow>)
  {
    exists m :: m in messages && r.id == m.id && r.fields == m.fields
  }

  /** Row `r`'s categories are those of a category row with its id, or missing because none has it. */
  predicate CategoriesTraced(r: JoinedRow, categories: seq<CategoryRow>)
  {
    || (exists c :: c in categories && c.id == r.id && c.categories == r.categories)
    || (r.categories == None && Matches(r.id, categories) == [])
  }

  lemma JoinOneProvenance(m: MessageRow, categories: seq<CategoryRow>)
    ensures forall r :: r in JoinOne(m, categories) ==> r.id == m.id && r.fields == m.fields
    ensures forall r :: r in JoinOne(m, categories) ==> CategoriesTraced(r, categories)
  {
    var found := Matches(m.id, categories);
    forall r | r in JoinOne(m, categories) ensures CategoriesTraced(r, categories) {
      if |found| > 0 {
        var k :| 0 <= k < |found| && JoinOne(m, categories)[k] == r;
        assert found[k] in categories;
      }
    }
  }

  /**
   * Every output row comes from a message, and its categories come from a
   * category row with the same id, or are missing because no category row has that id.
   * In particular an id that occurs only among the categories does not occur in the output.
   */
  lemma {:induction false} LeftJoinProvenance(messages: seq<MessageRow>, categories: seq<CategoryRow>)
    ensures forall r :: r in JoinRows(messages, categories) ==>
      FromMessage(r, messages) && CategoriesTraced(r, categories)
    decreases |messages|
  {
    if |messages| > 0 {
      var tail := messages[1..];
      LeftJoinProvenance(tail, categories);
      JoinOneProvenance(messages[0], categories);
      var head, rest := JoinOne(messages[0], categories), JoinRows(tail, categories);
      assert JoinRows(messages, categories) == head + rest;
      assert messages[0] in messages;
      forall r | r in head + rest ensures FromMessage(r, messages) {
        if r in rest {
          var m :| m in tail && r.id == m.id && r.fields == m.fields;
          assert m in messages;
        }
      }
    }
  }

  /**
   * When every message id matches at most one category row the merge is
   * row-for-row: output row i is message i with its category string, or a
   * missing one when nothing matches.
   */
  lemma {:induction false} LeftJoinOneToOne(messages: seq<MessageRow>, categories: seq<CategoryRow>)
    requires forall i :: 0 <= i < |messages| ==> |Matches(messages[i].id, categories)| <= 1
    ensures var rows := JoinRows(messages, categories);
      && |rows| == |messages|
      && forall i :: 0 <= i < |messages| ==>
           var found := Matches(messages[i].id, categories);
           rows[i] == JoinedRow(messages[i].id, messages[i].fields,
                                if |found| == 0 then None else found[0].categories)
    decreases |messages|
  {
    if |messages| > 0 {
      var rest := messages[1..];
      forall i | 0 <= i < |rest| ensures |Matches(rest[i].id, categories)| <= 1 {
        assert rest[i] == messages[i + 1];
      }
      LeftJoinOneToOne(rest, categories);
      var head, tail := JoinOne(messages[0], categories), JoinRows(rest, categories);
      var rows := JoinRows(messages, categories);
      assert rows == head + tail;
      assert |head| == 1;
      forall i | 1 <= i < |messages|
        ensures var found := Matches(messages[i].id, categories);
          rows[i] == JoinedRow(messages[i].id, messages[i].fields,
                               if |found| == 0 then None else found[0].categories)
      {
        assert messages[i] == rest[i - 1];
        assert rows[i] == tail[i - 1];
      }
    }
  }
}
