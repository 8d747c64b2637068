# Disaster-response ETL: merge and clean, modelled in Dafny

This project models the two data stages of `data/process_data.py`:

- `load_data` left-merges the messages table with the categories table on `id`.
- `clean_data` turns the merged frame's `categories` strings into category columns. A string looks like `related-1;request-0;offer-1`.
  - It splits each string on `;`.
  - It names the columns after the first row's tokens, without their last two characters.
  - It keeps only the last character of every cell and converts it to an integer.
  - It replaces the `categories` column with the new columns.
  - It drops the rows whose `related` value is 2.
  - It removes exact duplicate rows.

The model covers both stages:

- Tables are sequences of row datatypes (`frames.dfy`). A missing value (pandas' NaN) is `None`.
- `Loading.LeftJoin` is the merge (`loading.dfy`).
- `Cleaning.Cleaned` is the cleaning step as a function (`cleaning.dfy`). It returns either the cleaned frame or the error pandas raises, as a `CleanError`.
- `Cleaning.CleanData` performs the same steps with loops and is proved equal to `Cleaned`:
  - split the categories;
  - take each column's last characters and convert them;
  - concatenate the columns;
  - look up `related`;
  - filter;
  - de-duplicate.
- `cleaning_properties.dfy` characterises exactly when cleaning succeeds, and what the output columns and rows are. `CleanedCharacterised` states the output rows without reference to how they are computed: the decoded rows whose `related` is not 2, each once, in order of first occurrence. `Sequences.FirstOccurrenceOrderUnique` shows that these facts leave only one possible output.
- `round_trip.dfy` builds frames in the `name-d;name-d;…` format and proves that cleaning them gives back the names and the values.
- `pipeline.dfy` composes the two stages, as `main` does at lines 110-113.

Pandas behaviour the model writes out explicitly:

- `astype(str)` turns a missing categories value into `"nan"`.
- It turns the padding that `str.split(expand=True)` adds to short rows into `"None"`. Neither ends in a digit, so `astype(int)` raises on both.
- `.str[-1]` of the empty string is missing, which also fails to convert.
- `x[:-2]` of a string shorter than two characters is `""`.
- `loc[0]` on an empty frame raises.
- So does `x[:-2]` on a first row that is missing or shorter than the widest row.
- A repeated column label makes `categories[column]` a frame without `.str`.
- A missing `related` column makes `df['related']` raise.
- The columns are processed in order. The first failing column decides the error.

The comment at line 69 calls every `related` value other than 0 or 1 invalid. The code drops only the rows whose value is exactly 2. The model follows the code: a `related` value of 3 to 9 is kept (`CleaningProperties.CleanedFilter`).

## Model

| member | source | states |
|---|---|---|
| Loading.Matches | data/process_data.py:33 | the category rows the merge pairs with an id are a subsequence of the categories (input order) holding every row with that id as many times as the categories do, and no other row |
| Loading.LeftJoin | data/process_data.py:33 | the merged frame's columns are `id`, the message columns, then `categories`; it has at least as many rows as there are messages and a row for each message; every row carries some message's id and fields, and the categories of a category row with that id, or missing ones because no category row has that id |
| Loading.JoinOne | data/process_data.py:33 | a message matched by k ≥ 1 category rows gives k rows with its id and fields and the categories of those matches in order; an unmatched message gives exactly one row with missing categories |
| Loading.JoinRowsAppend | data/process_data.py:33 | `JoinRows`, the merge message by message (a `FlatMap` of `JoinOne` over the messages), distributes over concatenation: merging a concatenation of message tables is the concatenation of the merges |
| Loading.LeftJoinBlocks | data/process_data.py:33 | output order follows the messages: the rows of the messages before i, then message i's block, then the rest |
| Loading.LeftJoinKeepsMessages | data/process_data.py:33 | `JoinRows` loses no message: there are at least as many rows as messages, and some row carries each message's id and fields |
| Loading.JoinOneProvenance | data/process_data.py:33 | each row of a message's block has its id and fields, and categories from a category row with that id, or missing because none has it |
| Loading.LeftJoinProvenance | data/process_data.py:33 | every row of `JoinRows` comes from some message, and its categories come from a category row with the same id, or are missing because no category row has that id |
| Loading.LeftJoinOneToOne | data/process_data.py:33 | when each id matches at most one category row, output row i is message i with that row's categories, or with missing categories |
| Strings.Split | data/process_data.py:47 | `str.split(';')` gives at least one token, and no token contains the separator |
| Strings.JoinSplit | data/process_data.py:47 | joining the tokens with `;` gives the original string back |
| Strings.SplitJoin | data/process_data.py:47 | splitting the join of separator-free tokens gives the tokens back |
| Strings.SplitAfterPrefix | data/process_data.py:47 | a separator-free prefix followed by `;` is the first token, and the rest splits on its own |
| Strings.DropLastTwo | data/process_data.py:53 | `x[:-2]` is a prefix of x, two characters shorter, or empty when x has fewer than two |
| Strings.LastChar | data/process_data.py:58 | `.str[-1]` is present exactly when the string is non-empty, and it is the string's last character |
| Strings.DecimalValue | data/process_data.py:61 | `int(c)` succeeds exactly on '0'..'9', and the value is the digit written by c |
| Strings.DecimalValueOfDigit | data/process_data.py:61 | converting the character of a digit gives that digit |
| Cleaning.Tokens | data/process_data.py:47 | splitting a row's categories keeps a missing value missing; a present value gives at least one token, no token contains `;`, and the tokens join with `;` back to that value, so by `SplitJoin` they are exactly `Split` of it |
| Cleaning.WidthIsLongest | data/process_data.py:47 | `Width`, the longest token list, bounds every row's token count; `expand=True` creates `Width` columns, except on an all-missing frame, where pandas creates one column of missing values and `Width` is 0 |
| Cleaning.WidthAtMost | data/process_data.py:47 | `Width` is the least bound on the token counts |
| Cleaning.CellValueOfToken | data/process_data.py:56-61 | `CellValue` of a cell inside a row's token list (`ExpandedCell` is that token) is present exactly when the token ends in a digit, and is then the value of that digit |
| Cleaning.MissingCellFails | data/process_data.py:58-61 | a missing categories value becomes "nan", which does not convert |
| Cleaning.PaddingCellFails | data/process_data.py:58-61 | a padding cell becomes "None", which does not convert |
| Cleaning.FirstColumnErrorNone | data/process_data.py:56-61 | `FirstColumnError`: the loop over the columns raises nothing exactly when no label repeats and every cell of every column converts |
| Cleaning.TableDecodes | data/process_data.py:47-61 | when lines 47-61 raise nothing: there are rows, the first row fills every column, there is one label per column, the labels are distinct, and every cell converts |
| Cleaning.DecodesMeans | data/process_data.py:47-61 | the same facts, stated for the merged frame |
| Cleaning.DropRelated2Members | data/process_data.py:70 | `DropRelated2` keeps exactly the rows whose `related` value is not 2, each as many times as it occurs in the input (a multiset equation), as a subsequence in the original order |
| Cleaning.DropRelated2KeepsOrder | data/process_data.py:70 | the filter keeps the relative order of first occurrences: of two kept rows, one first occurs before the other among the kept rows exactly when it does so in the input |
| Cleaning.DropRelated2Unchanged | data/process_data.py:70 | rows without the value 2 pass the filter unchanged |
| Cleaning.FilterAndDeduplicateIdempotent | data/process_data.py:70-73 | `FilterAndDeduplicate`: filtering and de-duplicating a second time changes nothing |
| Cleaning.SplitCategories | data/process_data.py:47 | the loop builds `SplitAll`, every row's token list in row order, and `Width`, the longest token list (the width of the expanded frame unless every value is missing) |
| Cleaning.IsDuplicated | data/process_data.py:58 | a label counts as repeated exactly when another column carries it |
| Cleaning.LastCharacters | data/process_data.py:58 | cell i of the result is the last character of row i's cell in column j, after `astype(str)` |
| Cleaning.ToIntegers | data/process_data.py:61 | `astype(int)` fails exactly when some character is missing or is not a digit; otherwise value i is the digit of character i |
| Cleaning.DecodeColumn | data/process_data.py:58-61 | one column converts exactly when each of its cells does, and then its values are the converted cells |
| Cleaning.DecodeColumns | data/process_data.py:56-61 | the loop raises exactly the first column error, in column order; otherwise it yields one converted column per label |
| Cleaning.Concatenate | data/process_data.py:64-67 | each output row keeps its merged row's id and message fields, and its value c is column c's entry for that row |
| Cleaning.ConcatenatedIsDecoded | data/process_data.py:64-67 | the concatenated rows are `DecodedRows`, the decoded rows of the specification |
| Cleaning.RelatedColumn | data/process_data.py:70 | the position lines 70-73 use for `related`: it holds `related` and no earlier category name does |
| Cleaning.FindColumn | data/process_data.py:70 | `df['related']` is found exactly when the label exists, at its first position |
| Cleaning.DropAnomalous | data/process_data.py:70 | the loop computes the filter of the specification |
| Cleaning.DropDuplicates | data/process_data.py:73 | the loop keeps the first occurrence of every row, in order |
| Cleaning.CleanData | data/process_data.py:36-75 | the imperative steps return exactly what the function `Cleaned` specifies, errors included |
| Sequences.IndexOf | data/process_data.py:70 | the position found holds the sought value, and no earlier position does |
| Sequences.IndexOfIsFirst | data/process_data.py:70 | the first position holding a value is the one `IndexOf` returns |
| Sequences.FirstOccurrencesElements | data/process_data.py:73 | de-duplication keeps every distinct row and adds none |
| Sequences.FirstOccurrencesDistinct | data/process_data.py:73 | after de-duplication no row appears twice |
| Sequences.FirstOccurrencesOfDistinct | data/process_data.py:73 | rows already distinct are unchanged |
| Sequences.FirstOccurrencesIdempotent | data/process_data.py:73 | de-duplicating twice is de-duplicating once |
| Sequences.FirstOccurrencesSubsequence | data/process_data.py:73 | the de-duplicated rows keep their original relative order |
| Sequences.FirstOccurrencesKeepFirst | data/process_data.py:73 | `FirstOccurrences` (keep='first') lists the kept rows in the order in which each first occurs in the input |
| Sequences.FirstOccurrenceOrderUnique | data/process_data.py:73 | two duplicate-free sequences with the same elements, both in first-occurrence order of the same input, are equal: so distinctness, same elements and that order determine the de-duplicated rows |
| CleaningProperties.RowWellFormed | data/process_data.py:47-61 | a row whose cells in every column convert has a categories string with exactly that many tokens, each ending in a digit |
| CleaningProperties.DecodesWellFormed | data/process_data.py:47-61 | in a frame that decodes, every row has exactly as many digit-ended tokens as the first row |
| CleaningProperties.CleanableIsOk | data/process_data.py:36-75 | a `Cleanable` frame is cleaned without error |
| CleaningProperties.OkIsCleanable | data/process_data.py:36-75 | a frame cleaned without error is `Cleanable` |
| CleaningProperties.CleanedSucceedsIff | data/process_data.py:36-75 | cleaning succeeds exactly when the frame is non-empty, every row has as many digit-ended tokens as the first, and the derived names are distinct and include `related` |
| CleaningProperties.MissingCategoriesFail | data/process_data.py:58-61 | any row with missing categories makes cleaning raise |
| CleaningProperties.NonDigitTokenFails | data/process_data.py:61 | any token not ending in a digit makes cleaning raise |
| CleaningProperties.RaggedRowFails | data/process_data.py:47-61 | a row with a different token count than the first makes cleaning raise |
| CleaningProperties.CleanedHeader | data/process_data.py:52-67 | the category names (`HeaderNames` of the first row) are the first row's tokens without their last two characters, one per token and distinct; with `related` among them, they replace `categories` after the message columns |
| CleaningProperties.DecodesToUnique | data/process_data.py:56-67 | a merged row decodes to at most one clean row |
| CleaningProperties.DecodedRowsDecode | data/process_data.py:56-67 | row i of `Decoded` keeps merged row i's id and fields, and its value j is the digit ending that row's token j |
| CleaningProperties.CleanedRows | data/process_data.py:64-73 | the unfolding of `Cleaned`'s definition on success: the output rows are `DecodedRows` passed through `DropRelated2` and then `FirstOccurrences`; a bridge the other lemmas use, not a property of its own |
| CleaningProperties.CleanedRowsFromDecoded | data/process_data.py:64-73 | every output row is a decoded row |
| CleaningProperties.DecodedFlagsWidth | data/process_data.py:56-67 | every decoded row has one value per category name |
| CleaningProperties.CleanedRowsDecode | data/process_data.py:56-73 | every output row has one value per category and decodes some merged row |
| CleaningProperties.CleanedFilter | data/process_data.py:70 | no output row has `related` equal to 2, and every merged row whose decoded `related` is not 2 appears in the output |
| CleaningProperties.CleanedDeduplicated | data/process_data.py:73 | output rows are distinct, and they are an order-preserving subsequence of the filtered rows holding each of them, listed in the order in which each first occurs among the filtered rows |
| CleaningProperties.CleanedCharacterised | data/process_data.py:36-75 | `Cleaned` (`clean_data`) returns exactly when the frame is `Cleanable`; its rows are then the decoded rows whose `related` is not 2, each once, in the order in which each first occurs among the decoded rows |
| CleaningProperties.CleanedIdempotent | data/process_data.py:70-73 | filtering and de-duplicating the output again changes nothing |
| RoundTrip.EncodeToken | data/process_data.py:53-58 | a `name-d` token gives back the name under `x[:-2]` and the digit under `.str[-1]` |
| RoundTrip.EncodeTokens | data/process_data.py:47-58 | there is one token per category name; token j holds no `;`, gives back name j under `x[:-2]` and flag j under `.str[-1]` |
| RoundTrip.HeaderNamesOfEncoded | data/process_data.py:53 | `[x[:-2] for x in firstrow]` of encoded tokens gives back the names |
| RoundTrip.SplitEncoded | data/process_data.py:47 | an encoded categories string splits into its tokens |
| RoundTrip.EncodedRowDecodes | data/process_data.py:47-67 | an encoded row is well formed and decodes to the row it encodes |
| RoundTrip.EncodedCleanable | data/process_data.py:36-75 | a non-empty encoded frame whose names include `related` cleans without error, under those names |
| RoundTrip.EncodedDecoded | data/process_data.py:56-67 | decoding an encoded frame gives the encoded rows |
| RoundTrip.CleanEncoded | data/process_data.py:36-75 | encoding and then cleaning gives the names back, and the rows filtered and de-duplicated |
| RoundTrip.CleanEncodedExact | data/process_data.py:36-75 | distinct encoded rows without `related` = 2 come back exactly |
| Pipeline.UnmatchedMessageFails | data/process_data.py:110-113 | a message that no category row matches makes `LoadAndClean`, the merge-then-clean pipeline, raise |
| Pipeline.OutputTracesBack | data/process_data.py:110-113 | every row `LoadAndClean` outputs decodes the pairing of a message with a category row of the same id |

## Left out

- Reading the CSV files (`pd.read_csv`, lines 31-32): the model starts from tables already in memory. It assumes the messages table has an `id` column, held as `MessageRow.id`, and treats the other columns as opaque optional strings.
- Writing to SQLite (`save_data`, lines 77-89): this is I/O.
- `main`'s argument check and progress messages (lines 92-126): these are I/O. The model composes the two stages as `main` does when it is given three paths.
- Strings.DecimalValue: `int()` also accepts the non-ASCII decimal digits of Unicode, for example Arabic-Indic digits. The model accepts only '0'..'9'.
- Cleaning.FindColumn: a message column named `related` would make `df['related']` see two columns. The model looks `related` up only among the category names.
- Cleaning.Width: on a frame whose every `categories` value is missing, pandas' `expand=True` creates one column of missing values, while `Width` is 0. No result differs: both raise at line 53, where the model returns `FirstRowIncomplete`.
- Cleaning.CleanData: line 64 drops `categories` from the caller's frame in place (`inplace=True`), even on runs that then raise at line 70. The model returns a new frame and leaves its argument as it was.
- Loading.LeftJoin: the column claim puts `id` first. A pandas merge keeps the messages table's own column order, so the claim holds as stated only when `id` is the first column of the messages CSV.
- CleaningProperties.CleanedHeader: its column claim rests on the same assumption, `id` first among the message columns.
- The categories table is modelled with only `id` and `categories`. Any other column of that CSV would pass through the merge into the output; such columns are not modelled.
- Pandas index labels and dtypes are not modelled. Rows are identified by position, which agrees with the default index that `merge` produces. The decoded values are unbounded integers rather than `int64`.
- `drop_duplicates` compares whole rows: id, message fields and category values. The model does the same on `CleanRow`. Missing message fields compare equal to each other, as pandas treats NaN in `drop_duplicates`.
