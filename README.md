# ol2notion reconciliation model

ol2notion reads the "want to read" shelf of an Open Library account. It then
finds the Notion database named by `--notion-database` or `NOTION_DATABASE` and
lists the rows that one query of that database returns. The books on the shelf that have no row yet are the ones it
should add. Everything outside that decision is a call into the Open Library or
Notion client crates. This project models the decision:

- `Reconcile.SelectDatabase`: the search for the database must give exactly one
  result, and that result must be a database. Both panics of the database
  selection (src/main.rs:48, 54) are modelled as `Failure` values
  (`SearchError`), with the program's messages. The `unwrap` at src/main.rs:51
  cannot fail after the length check.
- `Reconcile.TitleIndex`: the `cache` map. It is built as the iterator chain is
  written. `TitledPairs` is the `filter`/`map` step, and `Collect` is the
  `collect` into a `HashMap`. `collect` inserts in iterator order, so the last
  row with a given title wins (`TitleIndexLastWins`).
- `Reconcile.NewBooks`: the `new_books` filter. It keeps the entries whose work
  title is not a key of the index, in shelf order.
- `Reconcile.Reconcile`: the three steps above in sequence. The network calls
  are its inputs: the search results, the query as a function from database to
  rows, and the shelf.
- `Models.DatabaseProperty.ColumnName`: the `name()` table from the five
  schema columns to the store's column names. `Url` maps to `"URL"`.
  `Models.Entity` is the record of `models.rs`. `main.rs` declares only
  `mod arguments;` (src/main.rs:11), so `models.rs` is not compiled into the
  program: neither `Entity` nor `name()` is used by it.

Both source files are pure at the modelled lines, so the model uses
datatypes, recursive functions and lemmas. There are no classes or loops.

## Model

| member | source | states |
|---|---|---|
| `Reconcile.SelectDatabase` | src/main.rs:47-55 | Succeeds iff there is exactly one search result and it is a database, and then returns that database. Any other count fails with `NotExactlyOneResult` carrying the count. One result that is not a database fails with `NotADatabase`. |
| `Reconcile.SearchError.Message` | src/main.rs:47-55 | Each failure carries the non-empty panic message of its branch. |
| `Reconcile.TitledPairs` | src/main.rs:62-65 | The filter/map step keeps no more pairs than there are rows. Every pair is a queried row keyed by its own title. Every titled row appears as a pair. |
| `Reconcile.TitledPairsAppend` | src/main.rs:62-65 | The filter/map step keeps row order: the pairs of two concatenated row lists are the pairs of the first followed by the pairs of the second. |
| `Reconcile.Collect` | src/main.rs:62-66 | The keys of the collected map are exactly the keys of the pairs. Under each key the map holds the value of the last pair with that key. |
| `Reconcile.TitleIndexSnoc` | src/main.rs:62-66 | One more queried row is inserted under its title and overwrites an earlier row. A row with no title leaves the index unchanged. |
| `Reconcile.TitleIndex` | src/main.rs:62-66 | The `cache` map: a string is a key of the index iff some queried row has it as its title. |
| `Reconcile.TitleIndexValues` | src/main.rs:62-66 | Every indexed value is one of the queried rows, and its title is its key. |
| `Reconcile.TitleIndexLastWins` | src/main.rs:62-66 | When several rows share a title, the index holds the last of them in query order. |
| `Reconcile.TitleIndexIgnoresUntitled` | src/main.rs:64 | Inserting a row without a title anywhere in the query result leaves the index unchanged. |
| `Reconcile.NewBooks` | src/main.rs:68-71 | The result is no longer than the shelf. Every kept entry is on the shelf and its title is not indexed. Every shelf entry whose title is not indexed is kept. |
| `Reconcile.KeptPositions` | src/main.rs:68-71 | The kept positions are in range and strictly increasing, and each one holds an entry whose title is not indexed. |
| `Reconcile.KeptPositionsExactly` | src/main.rs:70 | A shelf position is kept iff the title of its entry is not a key of the index. |
| `Reconcile.NewBooksIsSubsequence` | src/main.rs:68-71 | The k-th new book is the shelf entry at the k-th kept position. So `new_books` is exactly the order-preserving subsequence of non-indexed entries. |
| `Reconcile.NewBooksAppend` | src/main.rs:68-71 | Filtering a concatenated shelf gives the filtered parts, concatenated in the same order. |
| `Reconcile.NewBooksIdempotent` | src/main.rs:68-71 | Filtering an already filtered shelf against the same index returns it unchanged. |
| `Reconcile.NewBooksEmptyWhenAllIndexed` | src/main.rs:68-71 | If every work title is an index key, there are no new books. |
| `Reconcile.SameTitleSameFate` | src/main.rs:70 | Two shelf entries with the same work title are both kept or both dropped. |
| `Reconcile.MatchingIsCaseSensitive` | src/main.rs:70 | The entry "dune" is new against a store whose only row is titled "Dune": matching is exact string equality. |
| `Reconcile.Reconcile` | src/main.rs:47-71 | The whole decision succeeds iff there is exactly one search result and it is a database. On failure it carries the selection's error unchanged. On success the entries it yields are exactly the shelf entries whose title is not the title of any row the query returns for that database. |
| `Reconcile.NothingNewWhenAllPresent` | src/main.rs:62-71 | When every shelf title is the title of some row the query returned, a run finds nothing new. |
| `Models.DatabaseProperty.ColumnName` | src/models.rs:21-29 | `name()` is total and every name is non-empty. The name is one of the five store column names. It is "URL" exactly for `Url`. |
| `Models.DatabaseProperty.VariantSpelling` | src/models.rs:11-18 | The variant's derived `Debug` spelling is non-empty. It is the reference for comparing with `name()`. |
| `Models.FromColumnName` | src/models.rs:21-29 | The inverse of the table. A found property has the given column name. No property has a name that is not found. Exactly the five column names are found. |
| `Models.ColumnNameRoundTrip` | src/models.rs:21-29 | Looking up a property's column name gives that property back. |
| `Models.ColumnNameInjective` | src/models.rs:11-29 | Two properties have the same column name iff they are equal under the derived equality. |
| `Models.ColumnNamesAreTheImage` | src/models.rs:12-29 | The table covers all five variants, and its image is exactly the five column names, each hit once. |
| `Models.DatabaseProperty.ColumnNameIsSpellingExceptUrl` | src/models.rs:22-28 | The column name is the variant's own spelling for `Author`, `Name`, `Status` and `Tags`. It differs only for `Url`, whose column is "URL". |

## Left out

- Network calls are not modelled: Open Library login, `get_want_to_read`, `NotionApi::new`, `search` and `query_database` (src/main.rs:16-45, 57-59). Their results are inputs, and the query is a function parameter of `Reconcile.Reconcile`. The client crates are not part of this model.
- The `?` error exits of those calls are not modelled, because they belong to the crates.
- `println!` logging and the async runtime are not modelled. They make no decisions.
- Command-line and environment parsing (src/arguments.rs) is not modelled. It only wraps the argument-parsing crate.
- `HashMap` hashing is not modelled. The index is a `map` built by inserting in order, which is what `collect` observably does.
- The Notion `Object` enum is reduced to `Database` and `Other(kind)`. The code only asks whether a result is a database.
- Paging is not modelled. The program reads only the `results` of one `query_database` call (src/main.rs:57-61) and never follows the response's cursor; `queryDatabase` stands for that single response.
- Reading-log entries are reduced to `work.title`, which is the only field the filter reads (src/main.rs:70), plus `key` and `authorNames`. Entries that differ only in the dropped fields become equal values, so statements about membership in `NewBooks` speak about values; the statements about positions (`KeptPositions`, `NewBooksIsSubsequence`) speak about entries.
- `Page::title()` is a field `title: Option<string>`. How the crate extracts it from the page's properties is not modelled.
- `OpenLibraryResource` is a foreign type. It is kept only as its path string.
- Tag selection, URL building, author joining, the "Inbox" status, the random icon and page creation are not modelled. The code stops at the TODO at src/main.rs:73 before any of them, so there is nothing to model.
