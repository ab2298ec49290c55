/** The catalog's single table: its rows, and the mapping between the domain
    entities (authors and books) and the rows that store them. */
module CatalogItems {
  import opened Common

  // ---- Rows ----------------------------------------------------------------

  /** The attribute names that occur in catalog rows. */
  datatype Field = PK | SK | EntityType | EntityID | Title | Year | Name | Bio | Expires

  /** The two attribute types the catalog stores: strings and integer numbers. */
  datatype Attr = S(s: string) | N(n: int)

  type Row = map<Field, Attr>

  /** The composite primary key (PK, SK). */
  datatype Key = Key(pk: string, sk: string)

  type Table = map<Key, Row>

  predicate HasKey(row: Row) {
    PK in row && row[PK].S? && SK in row && row[SK].S?
  }

  function KeyOf(row: Row): Key
    requires HasKey(row)
  {
    Key(row[PK].s, row[SK].s)
  }

  // ---- Strings -------------------------------------------------------------

  const AUTHOR_PREFIX := "AUTHOR#"
  const BOOK_PREFIX := "BOOK#"
  const PROFILE := "PROFILE"

  function TrimPrefix(s: string, prefix: string): string {
    if prefix <= s then s[|prefix|..] else s
  }

  // ---- Authors -------------------------------------------------------------

  datatype Author = Author(id: string, name: string, bio: string) {
    function AsItem(): AuthorItem {
      AuthorItem(AUTHOR_PREFIX + id, PROFILE, "AUTHOR", id, name, bio, None)
    }
  }

  datatype AuthorItem = AuthorItem(pk: string, sk: string, entityType: string, entityID: string,
                                   name: string, bio: string, expires: Option<int>) {
    function ToAuthor(): Author {
      Author(entityID, name, bio)
    }

    function Marshal(): Row {
      map[PK := S(pk), SK := S(sk), EntityType := S(entityType), EntityID := S(entityID),
          Name := S(name), Bio := S(bio)] + ExpiresAttr(expires)
    }
  }

  function AuthorKey(id: string): Key {
    Key(AUTHOR_PREFIX + id, PROFILE)
  }

  // ---- Books ---------------------------------------------------------------

  datatype Book = Book(id: string, authorID: string, title: string, year: int) {
    function AsItem(): BookItem {
      BookItem(AUTHOR_PREFIX + authorID, BOOK_PREFIX + id, "BOOK", id, title, year, None)
    }
  }

  datatype BookItem = BookItem(pk: string, sk: string, entityType: string, entityID: string,
                               title: string, year: int, expires: Option<int>) {
    function ToBook(): Book {
      Book(entityID, TrimPrefix(pk, AUTHOR_PREFIX), title, year)
    }

    function Marshal(): Row {
      map[PK := S(pk), SK := S(sk), EntityType := S(entityType), EntityID := S(entityID),
          Title := S(title), Year := N(year)] + ExpiresAttr(expires)
    }
  }

  function BookKey(authorID: string, bookID: string): Key {
    Key(AUTHOR_PREFIX + authorID, BOOK_PREFIX + bookID)
  }

  // ---- Marshalling ---------------------------------------------------------

  /** A nil Expires pointer is omitted from the row. */
  function ExpiresAttr(expires: Option<int>): Row {
    if expires.Some? then map[Expires := N(expires.value)] else map[]
  }

  /** A missing attribute leaves the Go field at its zero value; an attribute of
      the wrong type is an unmarshalling error. */
  function Text(row: Row, f: Field): Option<string> {
    if f !in row then Some("") else if row[f].S? then Some(row[f].s) else None
  }

  function Number(row: Row, f: Field): Option<int> {
    if f !in row then Some(0) else if row[f].N? then Some(row[f].n) else None
  }

  function ExpiresOf(row: Row): Option<Option<int>> {
    if Expires !in row then Some(None) else if row[Expires].N? then Some(Some(row[Expires].n)) else None
  }

  function UnmarshalAuthor(row: Row): Option<AuthorItem> {
    match (Text(row, PK), Text(row, SK), Text(row, EntityType), Text(row, EntityID),
           Text(row, Name), Text(row, Bio), ExpiresOf(row))
    case (Some(pk), Some(sk), Some(et), Some(id), Some(name), Some(bio), Some(exp)) =>
      Some(AuthorItem(pk, sk, et, id, name, bio, exp))
    case _ => None
  }

  function UnmarshalBook(row: Row): Option<BookItem> {
    match (Text(row, PK), Text(row, SK), Text(row, EntityType), Text(row, EntityID),
           Text(row, Title), Number(row, Year), ExpiresOf(row))
    case (Some(pk), Some(sk), Some(et), Some(id), Some(title), Some(year), Some(exp)) =>
      Some(BookItem(pk, sk, et, id, title, year, exp))
    case _ => None
  }

  /** Reading is lenient about what is missing and strict about types, for any row. */
  lemma Unmarshalled(row: Row)
    ensures UnmarshalBook(row) == None <==>
            || (exists f | f in row && !row[f].S? ::
                  f == PK || f == SK || f == EntityType || f == EntityID || f == Title)
            || (exists f | f in row && !row[f].N? :: f == Year || f == Expires)
    ensures UnmarshalAuthor(row) == None <==>
            || (exists f | f in row && !row[f].S? ::
                  f == PK || f == SK || f == EntityType || f == EntityID || f == Name || f == Bio)
            || (Expires in row && !row[Expires].N?)
    ensures UnmarshalBook(row).Some? ==>
              var i := UnmarshalBook(row).value;
              && (Title !in row ==> i.title == "") && (Year !in row ==> i.year == 0)
              && (i.expires == None <==> Expires !in row)
  {
  }

  // ---- Well-formed rows ----------------------------------------------------

  /** The row is what some author item marshals to, and sits at that author's key. */
  predicate IsAuthorRow(k: Key, row: Row) {
    match UnmarshalAuthor(row)
    case None => false
    case Some(i) => i == i.ToAuthor().AsItem().(expires := i.expires)
                    && row == i.Marshal()
                    && k == AuthorKey(i.entityID)
  }

  /** The row is what some book item marshals to, and sits at that book's key. */
  predicate IsBookRow(k: Key, row: Row) {
    match UnmarshalBook(row)
    case None => false
    case Some(i) => i == i.ToBook().AsItem().(expires := i.expires)
                    && row == i.Marshal()
                    && k == BookKey(i.ToBook().authorID, i.entityID)
  }

  /** PK, SK, EntityType and EntityID agree in every stored row. */
  predicate WellFormed(t: Table) {
    forall k | k in t :: IsAuthorRow(k, t[k]) || IsBookRow(k, t[k])
  }

  /** The layout other readers of the table rely on. */
  lemma Layout(a: Author, b: Book)
    ensures AuthorKey(a.id) == Key("AUTHOR#" + a.id, "PROFILE")
    ensures BookKey(b.authorID, b.id) == Key("AUTHOR#" + b.authorID, "BOOK#" + b.id)
    ensures a.AsItem().Marshal() ==
            map[PK := S("AUTHOR#" + a.id), SK := S("PROFILE"), EntityType := S("AUTHOR"), EntityID := S(a.id),
                Name := S(a.name), Bio := S(a.bio)]
    ensures b.AsItem().Marshal() ==
            map[PK := S("AUTHOR#" + b.authorID), SK := S("BOOK#" + b.id), EntityType := S("BOOK"), EntityID := S(b.id),
                Title := S(b.title), Year := N(b.year)]
  {
  }

  // ---- The mapping is invertible -------------------------------------------

  lemma TrimPrefixed(p: string, s: string)
    ensures TrimPrefix(p + s, p) == s
  {
    assert (p + s)[|p|..] == s;
    assert p <= p + s;
  }

  /** For all strings, including identifiers that contain a key prefix. */
  lemma BookRoundTrip(b: Book)
    ensures b.AsItem().ToBook() == b
  {
    TrimPrefixed(AUTHOR_PREFIX, b.authorID);
  }

  lemma MarshalBookRoundTrip(i: BookItem)
    ensures UnmarshalBook(i.Marshal()) == Some(i)
  {
  }

  lemma MarshalAuthorRoundTrip(i: AuthorItem)
    ensures UnmarshalAuthor(i.Marshal()) == Some(i)
  {
  }

  lemma PrefixInjective(p: string, s: string, s': string)
    ensures p + s == p + s' <==> s == s'
  {
    if p + s == p + s' {
      TrimPrefixed(p, s);
      TrimPrefixed(p, s');
    }
  }

  /** Distinct entities never share a key, whatever their identifiers contain. */
  lemma KeysInjective(a: string, b: string, a': string, b': string)
    ensures BookKey(a, b) == BookKey(a', b') <==> a == a' && b == b'
    ensures AuthorKey(a) == AuthorKey(a') <==> a == a'
    ensures AuthorKey(a) != BookKey(a', b')
  {
    PrefixInjective(AUTHOR_PREFIX, a, a');
    PrefixInjective(BOOK_PREFIX, b, b');
    assert PROFILE[0] != (BOOK_PREFIX + b')[0];
  }

  lemma AuthorRowOf(a: Author, expires: Option<int>)
    ensures IsAuthorRow(AuthorKey(a.id), a.AsItem().(expires := expires).Marshal())
    ensures UnmarshalAuthor(a.AsItem().(expires := expires).Marshal()) == Some(a.AsItem().(expires := expires))
  {
    MarshalAuthorRoundTrip(a.AsItem().(expires := expires));
  }

  lemma BookRowOf(b: Book, expires: Option<int>)
    ensures IsBookRow(BookKey(b.authorID, b.id), b.AsItem().(expires := expires).Marshal())
    ensures UnmarshalBook(b.AsItem().(expires := expires).Marshal()) == Some(b.AsItem().(expires := expires))
    ensures b.AsItem().(expires := expires).ToBook() == b
  {
    MarshalBookRoundTrip(b.AsItem().(expires := expires));
    TrimPrefixed(AUTHOR_PREFIX, b.authorID);
  }

  /** What the cascade relies on: a book read from a well-formed row marshals back
      to that row without its Expires attribute, at the key it was read from. */
  lemma ReputHitsItsRow(k: Key, row: Row)
    requires IsBookRow(k, row)
    ensures var b := UnmarshalBook(row).value.ToBook();
            BookKey(b.authorID, b.id) == k
            && HasKey(b.AsItem().Marshal()) && KeyOf(b.AsItem().Marshal()) == k
            && b.AsItem().Marshal() == row - {Expires}
  {
    var i := UnmarshalBook(row).value;
    var b := i.ToBook();
    MarshalBookRoundTrip(b.AsItem());
    assert i.(expires := None) == b.AsItem();
    assert i.(expires := None).Marshal() == row - {Expires};
  }

  // ---- What SET assignments do to a marshalled item -------------------------

  lemma PatchAuthor(i: AuthorItem, name: string, bio: string)
    ensures map[PK := S(i.pk), SK := S(i.sk)] + i.Marshal() + map[Name := S(name), Bio := S(bio)]
            == i.(name := name, bio := bio).Marshal()
  {
  }

  lemma ExpireAuthor(i: AuthorItem, e: int)
    ensures map[PK := S(i.pk), SK := S(i.sk)] + i.Marshal() + map[Expires := N(e)]
            == i.(expires := Some(e)).Marshal()
  {
  }

  lemma PatchBook(i: BookItem, title: string, year: int)
    ensures map[PK := S(i.pk), SK := S(i.sk)] + i.Marshal() + map[Title := S(title), Year := N(year)]
            == i.(title := title, year := year).Marshal()
  {
  }

  lemma ExpireBook(i: BookItem, e: int)
    ensures map[PK := S(i.pk), SK := S(i.sk)] + i.Marshal() + map[Expires := N(e)]
            == i.(expires := Some(e)).Marshal()
  {
  }
}
