/**
 * The decisions the sync driver in `main.rs` makes between its network calls:
 * which search result is the books database, the title index of the rows one
 * query of that database returns, and the reading-log entries not among them.
 */
module Reconcile {
  import opened Wrappers

  /** The identifier handed to the database query. */
  datatype DatabaseId = DatabaseId(id: string)

  /**
   * One search result of the document store. Only whether it is a database
   * matters to the driver; every other kind of object is `Other`.
   */
  datatype Object = Database(database: DatabaseId) | Other(kind: string)

  /** A row of the database; `title` is what `Page::title()` gives, absent when the row has none. */
  datatype Page = Page(id: string, title: Option<string>)

  /** A catalog work, as a reading-log entry refers to it. */
  datatype Work = Work(key: string, title: string, authorNames: seq<string>)

  /** One entry of the "want to read" shelf. */
  datatype ReadingLogEntry = ReadingLogEntry(work: Work)

  /** The two ways the database search can fail; the program panics on both. */
  datatype SearchError =
    | NotExactlyOneResult(count: nat)
    | NotADatabase
  {
    function Message(): (m: string)
      ensures |m| > 0
    {
      match this
      case NotExactlyOneResult(_) => "Expecting there to only be one result"
      case NotADatabase => "The supplied name for a Notion Database, wasn't a database"
    }
  }

  // ---------------------------------------------------------------------------
  // Selecting the database

  /** The search must give exactly one result, and that result must be a database. */
  function SelectDatabase(results: seq<Object>): (r: Result<DatabaseId, SearchError>)
    ensures r.Success? <==> |results| == 1 && results[0].Database?
    ensures r.Success? ==> r.value == results[0].database
    ensures r.Failure? && r.error.NotExactlyOneResult? <==> |results| != 1
    ensures r.Failure? && r.error.NotExactlyOneResult? ==> r.error.count == |results|
  {
    if |results| != 1 then Failure(NotExactlyOneResult(|results|))
    else
      match results[0]
      case Database(db) => Success(db)
      case Other(_) => Failure(NotADatabase)
  }

  // ---------------------------------------------------------------------------
  // The title index: filter, map, collect

  /** The titles of the rows that have one. */
  function RowTitles(books: seq<Page>): set<string>
  {
    set i | 0 <= i < |books| && books[i].title.Some? :: books[i].title.value
  }

  /** `filter(title is some).map(b -> (title, b))`: each titled row keyed by its title, in row order. */
  function TitledPairs(books: seq<Page>): (r: seq<(string, Page)>)
    ensures |r| <= |books|
    ensures forall k | 0 <= k < |r| :: r[k].1 in books && r[k].1.title == Some(r[k].0)
    ensures forall b | b in books && b.title.Some? :: (b.title.value, b) in r
  {
    if |books| == 0 then []
    else
      var rest := TitledPairs(books[..|books| - 1]);
      var b := books[|books| - 1];
      assert books == books[..|books| - 1] + [b];
      if b.title.Some? then rest + [(b.title.value, b)] else rest
  }

  /** The filter/map step keeps row order: the pairs of a concatenation are the pairs of its parts, in turn. */
  lemma {:induction false} TitledPairsAppend(a: seq<Page>, b: seq<Page>)
    ensures TitledPairs(a + b) == TitledPairs(a) + TitledPairs(b)
  {
    if |b| > 0 {
      var front := b[..|b| - 1];
      var p := b[|b| - 1];
      assert a + b == (a + front) + [p];
      assert (a + b)[..|a + b| - 1] == a + front;
      assert b == front + [p];
      TitledPairsAppend(a, front);
    } else {
      assert a + b == a;
    }
  }

  /** No later pair of `pairs` than position `i` has the same key as `pairs[i]`. */
  ghost predicate LastWithKey<K, V>(pairs: seq<(K, V)>, i: int)
    requires 0 <= i < |pairs|
  {
    forall j | i < j < |pairs| :: pairs[j].0 != pairs[i].0
  }

  /**
   * `collect` into a hash map: insert the pairs in order, a later value
   * overwriting an earlier one under the same key.
   */
  function Collect<K, V>(pairs: seq<(K, V)>): (m: map<K, V>)
    ensures m.Keys == set k | 0 <= k < |pairs| :: pairs[k].0
    ensures forall i | 0 <= i < |pairs| && LastWithKey(pairs, i) :: m[pairs[i].0] == pairs[i].1
  {
    if |pairs| == 0 then map[]
    else
      var front := pairs[..|pairs| - 1];
      var last := pairs[|pairs| - 1];
      assert forall i | 0 <= i < |front| :: front[i] == pairs[i];
      Collect(front)[last.0 := last.1]
  }

  /** `cache`: the existing rows indexed by title; its keys are exactly the titles of the titled rows. */
  function TitleIndex(books: seq<Page>): (index: map<string, Page>)
    ensures index.Keys == RowTitles(books)
  {
    Collect(TitledPairs(books))
  }

  /** Appending a row to the query result inserts it under its title, or changes nothing if it has none. */
  lemma TitleIndexSnoc(books: seq<Page>, b: Page)
    ensures TitleIndex(books + [b]) ==
      if b.title.Some? then TitleIndex(books)[b.title.value := b] else TitleIndex(books)
  {
    assert (books + [b])[..|books|] == books;
  }

  /** Every value of the index is a row of the query whose title is its key. */
  lemma {:induction false} TitleIndexValues(books: seq<Page>)
    ensures forall t | t in TitleIndex(books) ::
      TitleIndex(books)[t] in books && TitleIndex(books)[t].title == Some(t)
  {
    if |books| > 0 {
      var front := books[..|books| - 1];
      var b := books[|books| - 1];
      assert books == front + [b];
      TitleIndexValues(front);
      TitleIndexSnoc(front, b);
    }
  }

  /** When several rows share a title, the index keeps the last of them in query order. */
  lemma {:induction false} TitleIndexLastWins(books: seq<Page>, i: nat)
    requires i < |books| && books[i].title.Some?
    requires forall j | i < j < |books| :: books[j].title != books[i].title
    ensures books[i].title.value in TitleIndex(books)
    ensures TitleIndex(books)[books[i].title.value] == books[i]
  {
    var front := books[..|books| - 1];
    var b := books[|books| - 1];
    assert books == front + [b];
    TitleIndexSnoc(front, b);
    if i < |books| - 1 {
      assert front[i] == books[i];
      TitleIndexLastWins(front, i);
    }
  }

  /** A row without a title contributes nothing, wherever it stands in the query result. */
  lemma {:induction false} TitleIndexIgnoresUntitled(before: seq<Page>, p: Page, after: seq<Page>)
    requires p.title.None?
    ensures TitleIndex(before + [p] + after) == TitleIndex(before + after)
  {
    if |after| == 0 {
      assert before + [p] + after == before + [p];
      assert before + after == before;
      TitleIndexSnoc(before, p);
    } else {
      var front := after[..|after| - 1];
      var a := after[|after| - 1];
      assert before + [p] + after == (before + [p] + front) + [a];
      assert before + after == (before + front) + [a];
      TitleIndexSnoc(before + [p] + front, a);
      TitleIndexSnoc(before + front, a);
      TitleIndexIgnoresUntitled(before, p, front);
    }
  }

  // ---------------------------------------------------------------------------
  // The new books

  /** `new_books`: the entries whose work title is not a key of the index, in shelf order. */
  function NewBooks(wantToRead: seq<ReadingLogEntry>, index: map<string, Page>): (r: seq<ReadingLogEntry>)
    ensures |r| <= |wantToRead|
    ensures forall e | e in r :: e in wantToRead && e.work.title !in index
    ensures forall e | e in wantToRead && e.work.title !in index :: e in r
  {
    if |wantToRead| == 0 then []
    else
      var front := wantToRead[..|wantToRead| - 1];
      var e := wantToRead[|wantToRead| - 1];
      assert wantToRead == front + [e];
      NewBooks(front, index) + (if e.work.title !in index then [e] else [])
  }

  /** The positions of the shelf that `new_books` keeps, in increasing order. */
  function KeptPositions(wantToRead: seq<ReadingLogEntry>, index: map<string, Page>): (pos: seq<nat>)
    ensures forall k | 0 <= k < |pos| :: pos[k] < |wantToRead|
    ensures forall k, l | 0 <= k < l < |pos| :: pos[k] < pos[l]
    ensures forall k | 0 <= k < |pos| :: wantToRead[pos[k]].work.title !in index
  {
    if |wantToRead| == 0 then []
    else
      var front := wantToRead[..|wantToRead| - 1];
      var n := |wantToRead| - 1;
      assert forall j | 0 <= j < n :: front[j] == wantToRead[j];
      KeptPositions(front, index) + (if wantToRead[n].work.title !in index then [n] else [])
  }

  /** A position is kept exactly when the entry there has a work title that is not indexed. */
  lemma {:induction false} KeptPositionsExactly(wantToRead: seq<ReadingLogEntry>, index: map<string, Page>, j: nat)
    requires j < |wantToRead|
    ensures j in KeptPositions(wantToRead, index) <==> wantToRead[j].work.title !in index
  {
    var n := |wantToRead| - 1;
    var front := wantToRead[..n];
    var pf := KeptPositions(front, index);
    if j < n {
      KeptPositionsExactly(front, index, j);
      assert front[j] == wantToRead[j];
      assert n !in pf;
    }
  }

  /**
   * `new_books` is exactly the subsequence of the shelf at the kept positions:
   * the k-th new book is the entry at the k-th kept position.
   */
  lemma {:induction false} NewBooksIsSubsequence(wantToRead: seq<ReadingLogEntry>, index: map<string, Page>)
    ensures |NewBooks(wantToRead, index)| == |KeptPositions(wantToRead, index)|
    ensures forall k | 0 <= k < |NewBooks(wantToRead, index)| ::
      NewBooks(wantToRead, index)[k] == wantToRead[KeptPositions(wantToRead, index)[k]]
  {
    if |wantToRead| > 0 {
      var n := |wantToRead| - 1;
      var front := wantToRead[..n];
      NewBooksIsSubsequence(front, index);
      var e := wantToRead[n];
      var tail := if e.work.title !in index then [e] else [];
      var ptail := if e.work.title !in index then [n] else [];
      var rf, pf := NewBooks(front, index), KeptPositions(front, index);
      assert NewBooks(wantToRead, index) == rf + tail;
      assert KeptPositions(wantToRead, index) == pf + ptail;
      forall k | 0 <= k < |rf + tail|
        ensures (rf + tail)[k] == wantToRead[(pf + ptail)[k]]
      {
        if k < |rf| {
          assert front[pf[k]] == wantToRead[pf[k]];
        }
      }
    }
  }

  /** Filtering a concatenated shelf filters each part and keeps them in order. */
  lemma {:induction false} NewBooksAppend(a: seq<ReadingLogEntry>, b: seq<ReadingLogEntry>, index: map<string, Page>)
    ensures NewBooks(a + b, index) == NewBooks(a, index) + NewBooks(b, index)
  {
    if |b| > 0 {
      var front := b[..|b| - 1];
      var e := b[|b| - 1];
      assert a + b == (a + front) + [e];
      assert (a + b)[..|a + b| - 1] == a + front;
      NewBooksAppend(a, front, index);
    } else {
      assert a + b == a;
    }
  }

  /** Filtering what has already been filtered against the same index changes nothing. */
  lemma {:induction false} NewBooksIdempotent(wantToRead: seq<ReadingLogEntry>, index: map<string, Page>)
    ensures NewBooks(NewBooks(wantToRead, index), index) == NewBooks(wantToRead, index)
  {
    if |wantToRead| > 0 {
      var front := wantToRead[..|wantToRead| - 1];
      var e := wantToRead[|wantToRead| - 1];
      NewBooksIdempotent(front, index);
      var tail := if e.work.title !in index then [e] else [];
      NewBooksAppend(NewBooks(front, index), tail, index);
      if e.work.title !in index {
        assert tail[..0] == [];
      }
    }
  }

  /** Entries with the same work title are kept together or dropped together. */
  lemma SameTitleSameFate(wantToRead: seq<ReadingLogEntry>, index: map<string, Page>, i: nat, j: nat)
    requires i < |wantToRead| && j < |wantToRead|
    requires wantToRead[i].work.title == wantToRead[j].work.title
    ensures wantToRead[i] in NewBooks(wantToRead, index) <==> wantToRead[j] in NewBooks(wantToRead, index)
    ensures i in KeptPositions(wantToRead, index) <==> j in KeptPositions(wantToRead, index)
  {
    KeptPositionsExactly(wantToRead, index, i);
    KeptPositionsExactly(wantToRead, index, j);
  }

  /** Matching is exact string equality: a title differing only in letter case is still new. */
  lemma MatchingIsCaseSensitive()
    ensures
      var dune := ReadingLogEntry(Work("/works/OL893415W", "dune", []));
      NewBooks([dune], TitleIndex([Page("row-1", Some("Dune"))])) == [dune]
  {
    var rows := [Page("row-1", Some("Dune"))];
    assert RowTitles(rows) == {"Dune"};
    assert "dune" != "Dune" by { assert "dune"[0] != "Dune"[0]; }
    var dune := ReadingLogEntry(Work("/works/OL893415W", "dune", []));
    assert [dune][..0] == [];
  }

  // ---------------------------------------------------------------------------
  // The whole decision, between the network calls

  /**
   * From the search results, the rows the query returns for a database, and the
   * shelf: the entries to create, or the reason the program panics. The entries
   * are the shelf minus those whose title, compared case-sensitively, is the
   * title of an existing row; a failed selection is passed through unchanged.
   */
  function Reconcile(
    searchResults: seq<Object>,
    queryDatabase: DatabaseId -> seq<Page>,
    wantToRead: seq<ReadingLogEntry>
  ): (r: Result<seq<ReadingLogEntry>, SearchError>)
    ensures r.Success? <==> |searchResults| == 1 && searchResults[0].Database?
    ensures r.Failure? ==> r.error == SelectDatabase(searchResults).error
    ensures r.Success? ==>
      var rows := queryDatabase(searchResults[0].database);
      forall e :: e in r.value <==> e in wantToRead && e.work.title !in RowTitles(rows)
  {
    match SelectDatabase(searchResults)
    case Failure(err) => Failure(err)
    case Success(db) => Success(NewBooks(wantToRead, TitleIndex(queryDatabase(db))))
  }

  /** Once every title on the shelf is the title of some row, a run finds nothing new. */
  lemma {:induction false} NothingNewWhenAllPresent(wantToRead: seq<ReadingLogEntry>, rows: seq<Page>)
    requires forall e | e in wantToRead :: e.work.title in RowTitles(rows)
    ensures NewBooks(wantToRead, TitleIndex(rows)) == []
  {
    NewBooksEmptyWhenAllIndexed(wantToRead, TitleIndex(rows));
  }

  /** When every work title is a key of the index, nothing is new. */
  lemma {:induction false} NewBooksEmptyWhenAllIndexed(wantToRead: seq<ReadingLogEntry>, index: map<string, Page>)
    requires forall e | e in wantToRead :: e.work.title in index
    ensures NewBooks(wantToRead, index) == []
  {
    if |wantToRead| > 0 {
      var front := wantToRead[..|wantToRead| - 1];
      assert forall e | e in front :: e in wantToRead;
      NewBooksEmptyWhenAllIndexed(front, index);
    }
  }
}
