/**
 * The record and the column-name table of `models.rs`.
 */
module Models {
  import opened Wrappers

  /** The catalog's resource identifier (a foreign type); only its path text is kept. */
  datatype OpenLibraryResource = OpenLibraryResource(path: string)

  /** A catalog work together with its fetched subject tags. */
  datatype Entity = Entity(id: OpenLibraryResource, title: string, authors: seq<string>, tags: seq<string>)

  /** The five typed columns the target database must have. */
  datatype DatabaseProperty = Author | Name | Status | Tags | Url
  {
    /** `name()`: the column's name in the document store, a hard-coded table. */
    function ColumnName(): (r: string)
      ensures |r| > 0
      ensures r in ColumnNames
      ensures r == "URL" <==> this == Url
    {
      match this
      case Author => "Author"
      case Name => "Name"
      case Status => "Status"
      case Tags => "Tags"
      case Url => "URL"
    }

    /** The variant's own spelling, as the derived `Debug` writes it. */
    function VariantSpelling(): (r: string)
      ensures |r| > 0
    {
      match this
      case Author => "Author"
      case Name => "Name"
      case Status => "Status"
      case Tags => "Tags"
      case Url => "Url"
    }
  }

  /** Every variant, in declaration order. */
  const AllProperties: seq<DatabaseProperty> := [Author, Name, Status, Tags, Url]

  /** The five column names the store schema must contain. */
  const ColumnNames: set<string> := {"Author", "Name", "Status", "Tags", "URL"}

  /** Reverse lookup of the column-name table: which property, if any, a column name belongs to. */
  function FromColumnName(s: string): (r: Option<DatabaseProperty>)
    ensures r.Some? ==> r.value.ColumnName() == s
    ensures r.None? ==> forall p: DatabaseProperty :: p.ColumnName() != s
    ensures r.Some? <==> s in ColumnNames
  {
    if s == "Author" then Some(Author)
    else if s == "Name" then Some(Name)
    else if s == "Status" then Some(Status)
    else if s == "Tags" then Some(Tags)
    else if s == "URL" then Some(Url)
    else None
  }

  /** Looking up a property's column name finds that same property again. */
  lemma ColumnNameRoundTrip(p: DatabaseProperty)
    ensures FromColumnName(p.ColumnName()) == Some(p)
  {
    match p
    case Author =>
    case Name =>
    case Status =>
    case Tags =>
    case Url =>
  }

  /** `name()` is injective: two properties share a column name exactly when they are equal. */
  lemma ColumnNameInjective(a: DatabaseProperty, b: DatabaseProperty)
    ensures a.ColumnName() == b.ColumnName() <==> a == b
  {
    ColumnNameRoundTrip(a);
    ColumnNameRoundTrip(b);
  }

  /** The table covers every variant and hits every column name exactly once. */
  lemma ColumnNamesAreTheImage()
    ensures |AllProperties| == 5
    ensures forall p: DatabaseProperty :: p in AllProperties
    ensures ColumnNames == set p | p in AllProperties :: p.ColumnName()
    ensures |ColumnNames| == |AllProperties|
  {
    forall p: DatabaseProperty ensures p in AllProperties {
      match p
      case Author =>
      case Name =>
      case Status =>
      case Tags =>
      case Url =>
    }
    assert ColumnNames == set p | p in AllProperties :: p.ColumnName() by {
      forall s | s in ColumnNames ensures exists p :: p in AllProperties && p.ColumnName() == s {
        var p := FromColumnName(s).value;
        assert p in AllProperties;
      }
    }
    assert "Author" != "Name" && "Status" != "Author" && "Tags" != "Name";
    assert |ColumnNames| == 5;
  }

  /** Every column name is the variant's own spelling except for `Url`, whose column is "URL". */
  lemma ColumnNameIsSpellingExceptUrl(p: DatabaseProperty)
    ensures p.ColumnName() == p.VariantSpelling() <==> p != Url
  {
    if p == Url {
      assert p.ColumnName()[1] != p.VariantSpelling()[1];
    }
  }
}
