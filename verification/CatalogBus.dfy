/** The business layer: validation, identifier generation, and the operations that
    take several repository calls. */
module CatalogBus {
  import opened Common
  import opened CatalogItems
  import opened CatalogTable
  import opened CatalogStorage

  datatype BusError = Validation | Missing | Clash | Internal(cause: StorageError)

  /** Business operations as a caller sees them, with the identifiers and clock
      readings they draw. */
  datatype BusOp =
    | CreateAuthor(id: string, name: string, bio: string)
    | UpdateAuthor(id: string, name: string, bio: string)
    | DeleteAuthor(id: string, mark: int, stamp: int)
    | CreateBook(authorID: string, id: string, title: string, year: int)
    | UpdateBook(authorID: string, id: string, title: string, year: int)
    | DeleteBook(authorID: string, id: string, mark: int)
    | ExpireExpired(chosen: set<Key>, now: int)

  predicate BookIsValid(title: string, year: int) {
    title != "" && year > 0
  }

  // ---- The cascade -----------------------------------------------------------

  /** What the cascade does to the books of one author: every live one becomes a
      tombstone, and no other row changes. */
  function Cascade(t: Table, id: string, stamp: int): Table {
    map k | k in t ::
      if IsBookRow(k, t[k]) && Expires !in t[k] && UnmarshalBook(t[k]).value.ToBook().authorID == id
      then TombRow(UnmarshalBook(t[k]).value.ToBook(), stamp)
      else t[k]
  }

  /** The table after an operation that runs alone, without failures, and whose
      listings are complete. */
  function Perform(t: Table, op: BusOp): Table {
    match op
    case CreateAuthor(id, name, bio) =>
      if name == "" then t else Apply(t, PutAuthor(Author(id, name, bio)))
    case UpdateAuthor(id, name, bio) =>
      if name == "" then t else Apply(t, RepoOp.UpdateAuthor(id, name, bio))
    case DeleteAuthor(id, mark, stamp) =>
      if AuthorCell(t, id).Live? then Cascade(Apply(t, RepoOp.DeleteAuthor(id, mark)), id, stamp) else t
    case CreateBook(authorID, id, title, year) =>
      if BookIsValid(title, year) && AuthorCell(t, authorID).Live?
      then Apply(t, PutBook(Book(id, authorID, title, year))) else t
    case UpdateBook(authorID, id, title, year) =>
      if BookIsValid(title, year) then Apply(t, RepoOp.UpdateBook(authorID, id, title, year)) else t
    case DeleteBook(authorID, id, mark) => Apply(t, RepoOp.DeleteBook(authorID, id, mark))
    case ExpireExpired(chosen, now) => Apply(t, SweepExpired(chosen, now))
  }

  /** Listings of live books never repeat a key, so no batch built from one is refused. */
  lemma ListedBooksDistinct(t: Table, a: string, books: seq<Book>, complete: bool)
    requires WellFormed(t) && Listing(books, LiveBooksOf(t, a), complete)
    ensures DistinctBooks(books)
    ensures forall i | 0 <= i < |books| :: books[i].authorID == a && BookCell(t, a, books[i].id) == Live(books[i])
  {
    hide WellFormed, BookCell, LiveBooks;
    forall i | 0 <= i < |books| ensures books[i].authorID == a && BookCell(t, a, books[i].id) == Live(books[i]) {
      assert books[i] in books;
      LiveBooksAreLiveCells(t, books[i]);
    }
  }

  /** Marking the author leaves every book cell alone. */
  lemma MarkedAuthor(t: Table, id: string, mark: int)
    requires WellFormed(t) && AuthorCell(t, id).Live?
    ensures var t' := Apply(t, RepoOp.DeleteAuthor(id, mark));
            && WellFormed(t')
            && AuthorCell(t', id) == Tomb(AuthorCell(t, id).v, mark)
            && LiveBooksOf(t', id) == LiveBooksOf(t, id)
  {
    hide WellFormed, AuthorCell, BookCell, LiveBooks, Apply;
    var t' := Apply(t, RepoOp.DeleteAuthor(id, mark));
    Refinement(t, RepoOp.DeleteAuthor(id, mark));
    forall b: Book ensures b in LiveBooks(t') <==> b in LiveBooks(t) {
      LiveBooksAreLiveCells(t, b);
      LiveBooksAreLiveCells(t', b);
    }
  }

  lemma CascadeKeepsForm(t: Table, id: string, stamp: int)
    requires WellFormed(t)
    ensures WellFormed(Cascade(t, id, stamp))
    ensures forall a :: AuthorCell(Cascade(t, id, stamp), a) == AuthorCell(t, a)
    ensures forall a, b :: BookCell(Cascade(t, id, stamp), a, b) ==
                           if a == id && BookCell(t, a, b).Live? then Tomb(BookCell(t, a, b).v, stamp)
                           else BookCell(t, a, b)
  {
    var t' := Cascade(t, id, stamp);
    forall k | k in t' ensures IsAuthorRow(k, t'[k]) || IsBookRow(k, t'[k]) {
      if IsBookRow(k, t[k]) {
        ReputHitsItsRow(k, t[k]);
        BookRowOf(UnmarshalBook(t[k]).value.ToBook(), Some(stamp));
      }
    }
    hide AuthorCell, BookCell, Cascade;
    forall a ensures AuthorCell(t', a) == AuthorCell(t, a) {
      CascadeAuthorCell(t, id, stamp, a);
    }
    forall a, b ensures BookCell(t', a, b) ==
                        if a == id && BookCell(t, a, b).Live? then Tomb(BookCell(t, a, b).v, stamp)
                        else BookCell(t, a, b)
    {
      CascadeBookCell(t, id, stamp, a, b);
    }
  }

  lemma CascadeAuthorCell(t: Table, id: string, stamp: int, a: string)
    requires WellFormed(t)
    ensures AuthorCell(Cascade(t, id, stamp), a) == AuthorCell(t, a)
  {
    RowKinds(t, a, "");
    assert AuthorKey(a) in t ==> !IsBookRow(AuthorKey(a), t[AuthorKey(a)]) by {
      assert PROFILE[0] != BOOK_PREFIX[0];
    }
    hide UnmarshalAuthor, UnmarshalBook, IsBookRow, IsAuthorRow;
  }

  lemma CascadeBookCell(t: Table, id: string, stamp: int, a: string, b: string)
    requires WellFormed(t)
    ensures BookCell(Cascade(t, id, stamp), a, b) ==
            if a == id && BookCell(t, a, b).Live? then Tomb(BookCell(t, a, b).v, stamp) else BookCell(t, a, b)
  {
    RowKinds(t, a, b);
    if BookKey(a, b) in t {
      var book := UnmarshalBook(t[BookKey(a, b)]).value.ToBook();
      BookRowOf(book, Some(stamp));
      assert Expires in t[BookKey(a, b)] <==> BookCell(t, a, b).Tomb?;
      hide UnmarshalAuthor, UnmarshalBook, IsAuthorRow, BookItem.Marshal;
    }
  }

  /** Re-putting a complete listing of the author's live books, in whatever order the
      query returned them, is the cascade. */
  lemma CompleteListingCascades(t: Table, id: string, books: seq<Book>, stamp: int)
    requires WellFormed(t) && Listing(books, LiveBooksOf(t, id), true)
    ensures Tombstoned(t, books, stamp) == Cascade(t, id, stamp)
  {
    hide WellFormed, AuthorCell, BookCell, LiveBooks, Cascade, Tombstoned;
    ListedBooksDistinct(t, id, books, true);
    ReputCells(t, books, stamp);
    CascadeKeepsForm(t, id, stamp);
    forall a, b ensures BookCell(Tombstoned(t, books, stamp), a, b) == BookCell(Cascade(t, id, stamp), a, b) {
      ReputListed(t, id, books, stamp, a, b);
    }
    CellsDetermineTable(Tombstoned(t, books, stamp), Cascade(t, id, stamp));
  }

  /** Re-putting some listed live books: the cell of a listed book becomes the
      tombstone of the very book it held. */
  lemma {:induction false} ReputListed(t: Table, id: string, books: seq<Book>, stamp: int, a: string, b: string)
    requires WellFormed(t)
    requires forall i | 0 <= i < |books| :: books[i] in LiveBooksOf(t, id)
    ensures Reput(books, stamp, a, b, BookCell(t, a, b)) ==
            if a == id && BookCell(t, a, b).Live? && BookCell(t, a, b).v in books
            then Tomb(BookCell(t, a, b).v, stamp) else BookCell(t, a, b)
    ensures BookCell(t, a, b).Live? && a == id ==> BookCell(t, a, b).v in LiveBooksOf(t, id)
  {
    hide WellFormed, BookCell, LiveBooks;
    RowKinds(t, a, b);
    if BookCell(t, a, b).Live? {
      LiveBooksAreLiveCells(t, BookCell(t, a, b).v);
    }
    if books == [] {
    } else {
      var last := books[|books| - 1];
      LiveBooksAreLiveCells(t, last);
      ReputListed(t, id, books[..|books| - 1], stamp, a, b);
      assert books == books[..|books| - 1] + [last];
    }
  }

  // ---- The service -----------------------------------------------------------

  /** What one DeleteAuthor call did after marking the author. */
  datatype CascadeLog = CascadeLog(mark: int, listed: seq<Book>, complete: bool, stamp: int, written: nat)

  /** The table a DeleteAuthor call leaves behind once the author is marked: its first
      `written` listed books are tombstones. */
  function AfterCascade(t: Table, id: string, log: CascadeLog): Table
    requires log.written <= |log.listed|
  {
    Tombstoned(Apply(t, RepoOp.DeleteAuthor(id, log.mark)), log.listed[..log.written], log.stamp)
  }

  lemma NoListing(all: set<Book>)
    ensures Listing([], all, false)
  {
  }

  lemma NothingTombstoned(t: Table, listed: seq<Book>, stamp: int)
    ensures Tombstoned(t, listed[..0], stamp) == t
  {
  }

  /** A cascade that wrote its whole complete listing is the cascade of `Perform`. */
  lemma FullCascade(t: Table, id: string, log: CascadeLog)
    requires WellFormed(t) && AuthorCell(t, id).Live?
    requires log.written == |log.listed| && log.complete && Listing(log.listed, LiveBooksOf(t, id), true)
    ensures AfterCascade(t, id, log) == Perform(t, BusOp.DeleteAuthor(id, log.mark, log.stamp))
  {
    hide WellFormed, AuthorCell, BookCell, LiveBooks, Tombstoned, Cascade, Listing, Apply;
    MarkedAuthor(t, id, log.mark);
    assert log.listed[..log.written] == log.listed;
    CompleteListingCascades(Apply(t, RepoOp.DeleteAuthor(id, log.mark)), id, log.listed, log.stamp);
  }

  class Service {
    const repo: Repo
    /** How many identifiers could not be drawn. */
    ghost var drawFaults: nat

    constructor (repo: Repo)
      ensures this.repo == repo && drawFaults == 0
    {
      this.repo := repo;
      drawFaults := 0;
    }

    /** Everything that has gone wrong below the service. */
    ghost function Faults(): nat
      reads this, repo.ddb
    {
      repo.ddb.faults + drawFaults
    }

    ghost predicate Valid()
      reads repo.ddb
    {
      repo.Valid()
    }

    /** Sixteen random bytes in hexadecimal: an arbitrary string here. */
    method NewID() returns (r: Result<string, StorageError>)
      modifies this`drawFaults
      ensures r.Ok? || r == Err(Failed)
      ensures drawFaults == old(drawFaults) + if r.Err? then 1 else 0
    {
      if * {
        drawFaults := drawFaults + 1;
        return Err(Failed);
      }
      var id: string :| true;
      return Ok(id);
    }

    method GetAuthor(id: string) returns (r: Result<Author, BusError>)
      requires Valid()
      modifies repo.ddb`faults
      ensures old(Faults()) <= Faults() && (r == Err(Internal(Failed)) <==> old(Faults()) < Faults())
      ensures r != Err(Internal(Failed)) ==>
                r == if AuthorCell(repo.ddb.table, id).Live? then Ok(AuthorCell(repo.ddb.table, id).v) else Err(Missing)
    {
      var a := repo.GetAuthor(id);
      if a.Err? {
        return Err(if a.error == NotFound then Missing else Internal(a.error));
      }
      return Ok(a.value);
    }

    method CreateAuthor(name: string, bio: string) returns (r: Result<Author, BusError>, ghost drawn: string)
      requires Valid()
      modifies this`drawFaults, repo.ddb`table, repo.ddb`faults
      ensures Valid()
      ensures old(Faults()) <= Faults() && (r == Err(Internal(Failed)) <==> old(Faults()) < Faults())
      ensures r == Err(Validation) <==> name == ""
      ensures name != "" && r != Err(Internal(Failed)) ==>
                r == if AuthorCell(old(repo.ddb.table), drawn).Absent? then Ok(Author(drawn, name, bio)) else Err(Clash)
      ensures r.Ok? ==> AuthorCell(repo.ddb.table, drawn) == Live(r.value)
                        && repo.ddb.table == Perform(old(repo.ddb.table), BusOp.CreateAuthor(drawn, name, bio))
      ensures r.Err? ==> repo.ddb.table == old(repo.ddb.table)
    {
      hide WellFormed, AuthorCell, BookCell, Apply;
      drawn := "";
      if name == "" {
        return Err(Validation), drawn;
      }
      var id := NewID();
      if id.Err? {
        return Err(Internal(id.error)), drawn;
      }
      drawn := id.value;
      var a := Author(id.value, name, bio);
      var err := repo.PutAuthor(a);
      if err.Some? {
        return Err(if err.value == Conflict then Clash else Internal(err.value)), drawn;
      }
      return Ok(a), drawn;
    }

    /** Write, then read back: alone, the read returns what was written. */
    method UpdateAuthor(id: string, name: string, bio: string) returns (r: Result<Author, BusError>)
      requires Valid()
      modifies repo.ddb`table, repo.ddb`faults
      ensures Valid()
      ensures old(Faults()) <= Faults() && (r == Err(Internal(Failed)) <==> old(Faults()) < Faults())
      ensures r == Err(Validation) <==> name == ""
      ensures name != "" && r != Err(Internal(Failed)) ==>
                r == if AuthorCell(old(repo.ddb.table), id).Live? then Ok(Author(id, name, bio)) else Err(Missing)
      ensures r.Ok? ==> AuthorCell(repo.ddb.table, id) == Live(r.value)
      ensures r != Err(Internal(Failed)) ==>
                repo.ddb.table == Perform(old(repo.ddb.table), BusOp.UpdateAuthor(id, name, bio))
      ensures r.Err? ==> repo.ddb.table == old(repo.ddb.table)
                         || repo.ddb.table == Perform(old(repo.ddb.table), BusOp.UpdateAuthor(id, name, bio))
    {
      hide WellFormed, AuthorCell, BookCell, Apply;
      if name == "" {
        return Err(Validation);
      }
      Refinement(repo.ddb.table, RepoOp.UpdateAuthor(id, name, bio));
      var err := repo.UpdateAuthor(id, name, bio);
      if err.Some? {
        return Err(if err.value == NotFound then Missing else Internal(err.value));
      }
      r := GetAuthor(id);
    }

    /** Mark the author, list its live books, re-put them as tombstones. */
    method DeleteAuthor(id: string) returns (err: Option<BusError>, ghost log: CascadeLog)
      requires Valid()
      modifies repo.ddb
      ensures Valid() && old(repo.ddb.now) <= repo.ddb.now
      ensures log.written <= |log.listed|
      ensures old(repo.ddb.now) + 3600 <= log.mark <= log.stamp <= repo.ddb.now + 3600
      ensures old(Faults()) <= Faults() && (err == Some(Internal(Failed)) <==> old(Faults()) < Faults())
      ensures err != Some(Internal(Failed)) ==>
                err == if AuthorCell(old(repo.ddb.table), id).Live? then None else Some(Missing)
      ensures !AuthorCell(old(repo.ddb.table), id).Live? ==> repo.ddb.table == old(repo.ddb.table)
      ensures err == None ==>
                && Listing(log.listed, LiveBooksOf(old(repo.ddb.table), id), log.complete)
                && log.written == |log.listed|
                && repo.ddb.table == AfterCascade(old(repo.ddb.table), id, log)
                && (log.complete ==> repo.ddb.table ==
                                     Perform(old(repo.ddb.table), BusOp.DeleteAuthor(id, log.mark, log.stamp)))
      ensures err.Some? && repo.ddb.table != old(repo.ddb.table) ==>
                && Listing(log.listed, LiveBooksOf(old(repo.ddb.table), id), log.complete)
                && log.written % 25 == 0
                && (log.written < |log.listed| || log.listed == [])
                && repo.ddb.table == AfterCascade(old(repo.ddb.table), id, log)
    {
      hide WellFormed, AuthorCell, BookCell, LiveBooks, Tombstoned, Perform, Listing, DistinctBooks, Apply;
      ghost var t := repo.ddb.table;
      var e := repo.DeleteAuthor(id);
      ghost var mark := repo.ddb.now + RETENTION;
      log := CascadeLog(mark, [], false, mark, 0);
      if e.Some? {
        return Some(if e.value == NotFound then Missing else Internal(e.value)), log;
      }
      MarkedAuthor(t, id, mark);
      NothingTombstoned(repo.ddb.table, [], mark);
      var books, complete := repo.ListBooks(id);
      if books.Err? {
        NoListing(LiveBooksOf(t, id));
        return Some(Internal(books.error)), log;
      }
      log := CascadeLog(mark, books.value, complete, mark, 0);
      NothingTombstoned(repo.ddb.table, books.value, mark);
      ListedBooksDistinct(repo.ddb.table, id, books.value, complete);
      if |books.value| > 0 {
        var e', written := repo.SoftDeleteBooks(books.value);
        log := CascadeLog(mark, books.value, complete, repo.ddb.now + RETENTION, written);
        if e'.Some? {
          return Some(Internal(e'.value)), log;
        }
      }
      if complete {
        FullCascade(t, id, log);
      }
      return None, log;
    }

    method ListAuthors() returns (r: Result<seq<Author>, BusError>, ghost complete: bool)
      requires Valid()
      modifies repo.ddb`faults
      ensures old(Faults()) <= Faults() && (r == Err(Internal(Failed)) <==> old(Faults()) < Faults())
      ensures r.Ok? ==> Listing(r.value, LiveAuthors(repo.ddb.table), complete)
      ensures r.Err? ==> r.error == Internal(Failed)
    {
      var authors, all := repo.ListAuthors();
      complete := all;
      if authors.Err? {
        return Err(Internal(authors.error)), complete;
      }
      var out: seq<Author> := [];
      for i := 0 to |authors.value|
        invariant out == authors.value[..i]
      {
        var a := authors.value[i];
        out := out + [Author(a.id, a.name, a.bio)];
      }
      assert out == authors.value;
      return Ok(out), complete;
    }

    method GetBook(authorID: string, bookID: string) returns (r: Result<Book, BusError>)
      requires Valid()
      modifies repo.ddb`faults
      ensures old(Faults()) <= Faults() && (r == Err(Internal(Failed)) <==> old(Faults()) < Faults())
      ensures r != Err(Internal(Failed)) ==>
                r == if BookCell(repo.ddb.table, authorID, bookID).Live?
                     then Ok(BookCell(repo.ddb.table, authorID, bookID).v) else Err(Missing)
    {
      var b := repo.GetBook(authorID, bookID);
      if b.Err? {
        return Err(if b.error == NotFound then Missing else Internal(b.error));
      }
      return Ok(b.value);
    }

    /** Check that the author is live, then put. */
    method CreateBook(authorID: string, title: string, year: int)
      returns (r: Result<Book, BusError>, ghost drawn: string)
      requires Valid()
      modifies this`drawFaults, repo.ddb`table, repo.ddb`faults
      ensures Valid()
      ensures old(Faults()) <= Faults() && (r == Err(Internal(Failed)) <==> old(Faults()) < Faults())
      ensures r == Err(Validation) <==> title == "" || year <= 0
      ensures title != "" && year > 0 && r != Err(Internal(Failed)) ==>
                r == if !AuthorCell(old(repo.ddb.table), authorID).Live? then Err(Missing)
                     else if BookCell(old(repo.ddb.table), authorID, drawn).Absent?
                     then Ok(Book(drawn, authorID, title, year)) else Err(Clash)
      ensures r.Ok? ==> BookCell(repo.ddb.table, authorID, drawn) == Live(r.value)
                        && repo.ddb.table == Perform(old(repo.ddb.table),
                                                     BusOp.CreateBook(authorID, drawn, title, year))
      ensures r.Err? ==> repo.ddb.table == old(repo.ddb.table)
    {
      hide WellFormed, AuthorCell, BookCell, Apply;
      drawn := "";
      if title == "" {
        return Err(Validation), drawn;
      }
      if year <= 0 {
        return Err(Validation), drawn;
      }
      var a := repo.GetAuthor(authorID);
      if a.Err? {
        return Err(if a.error == NotFound then Missing else Internal(a.error)), drawn;
      }
      var id := NewID();
      if id.Err? {
        return Err(Internal(id.error)), drawn;
      }
      drawn := id.value;
      var b := Book(id.value, authorID, title, year);
      var err := repo.PutBook(b);
      if err.Some? {
        return Err(if err.value == Conflict then Clash else Internal(err.value)), drawn;
      }
      return Ok(b), drawn;
    }

    method UpdateBook(authorID: string, bookID: string, title: string, year: int) returns (r: Result<Book, BusError>)
      requires Valid()
      modifies repo.ddb`table, repo.ddb`faults
      ensures Valid()
      ensures old(Faults()) <= Faults() && (r == Err(Internal(Failed)) <==> old(Faults()) < Faults())
      ensures r == Err(Validation) <==> title == "" || year <= 0
      ensures title != "" && year > 0 && r != Err(Internal(Failed)) ==>
                r == if BookCell(old(repo.ddb.table), authorID, bookID).Live?
                     then Ok(Book(bookID, authorID, title, year)) else Err(Missing)
      ensures r.Ok? ==> BookCell(repo.ddb.table, authorID, bookID) == Live(r.value)
      ensures r != Err(Internal(Failed)) ==>
                repo.ddb.table == Perform(old(repo.ddb.table), BusOp.UpdateBook(authorID, bookID, title, year))
      ensures r.Err? ==> repo.ddb.table == old(repo.ddb.table)
                         || repo.ddb.table ==
                            Perform(old(repo.ddb.table), BusOp.UpdateBook(authorID, bookID, title, year))
    {
      hide WellFormed, AuthorCell, BookCell, Apply;
      if title == "" {
        return Err(Validation);
      }
      if year <= 0 {
        return Err(Validation);
      }
      Refinement(repo.ddb.table, RepoOp.UpdateBook(authorID, bookID, title, year));
      var err := repo.UpdateBook(authorID, bookID, title, year);
      if err.Some? {
        return Err(if err.value == NotFound then Missing else Internal(err.value));
      }
      r := GetBook(authorID, bookID);
    }

    method DeleteBook(authorID: string, bookID: string) returns (err: Option<BusError>)
      requires Valid()
      modifies repo.ddb
      ensures Valid() && old(repo.ddb.now) <= repo.ddb.now
      ensures old(Faults()) <= Faults() && (err == Some(Internal(Failed)) <==> old(Faults()) < Faults())
      ensures err != Some(Internal(Failed)) ==>
                err == if BookCell(old(repo.ddb.table), authorID, bookID).Live? then None else Some(Missing)
      ensures err == None ==>
                && BookCell(repo.ddb.table, authorID, bookID) ==
                   Tomb(BookCell(old(repo.ddb.table), authorID, bookID).v, repo.ddb.now + 3600)
                && repo.ddb.table == Perform(old(repo.ddb.table),
                                             BusOp.DeleteBook(authorID, bookID, repo.ddb.now + 3600))
      ensures err.Some? ==> repo.ddb.table == old(repo.ddb.table)
    {
      hide WellFormed, AuthorCell, BookCell, Apply;
      ghost var t := repo.ddb.table;
      var e := repo.DeleteBook(authorID, bookID);
      if e.Some? {
        return Some(if e.value == NotFound then Missing else Internal(e.value));
      }
      return None;
    }

    method ListBooks(authorID: string) returns (r: Result<seq<Book>, BusError>, ghost complete: bool)
      requires Valid()
      modifies repo.ddb`faults
      ensures old(Faults()) <= Faults() && (r == Err(Internal(Failed)) <==> old(Faults()) < Faults())
      ensures r != Err(Internal(Failed)) ==>
                if AuthorCell(repo.ddb.table, authorID).Live?
                then r.Ok? && Listing(r.value, LiveBooksOf(repo.ddb.table, authorID), complete)
                else r == Err(Missing)
    {
      complete := false;
      var a := repo.GetAuthor(authorID);
      if a.Err? {
        return Err(if a.error == NotFound then Missing else Internal(a.error)), complete;
      }
      var books, all := repo.ListBooks(authorID);
      complete := all;
      if books.Err? {
        return Err(Internal(books.error)), complete;
      }
      var out := Copied(books.value);
      return Ok(out), complete;
    }

    method ListAllBooks() returns (r: Result<seq<Book>, BusError>, ghost complete: bool)
      requires Valid()
      modifies repo.ddb`faults
      ensures old(Faults()) <= Faults() && (r == Err(Internal(Failed)) <==> old(Faults()) < Faults())
      ensures r.Ok? ==> Listing(r.value, LiveBooks(repo.ddb.table), complete)
      ensures r.Err? ==> r.error == Internal(Failed)
    {
      var books, all := repo.ListAllBooks();
      complete := all;
      if books.Err? {
        return Err(Internal(books.error)), complete;
      }
      var out := Copied(books.value);
      return Ok(out), complete;
    }
  }

  /** The loop that turns storage books into business books, field by field. */
  method Copied(books: seq<Book>) returns (out: seq<Book>)
    ensures out == books
  {
    out := [];
    for i := 0 to |books|
      invariant out == books[..i]
    {
      var b := books[i];
      out := out + [Book(b.id, b.authorID, b.title, b.year)];
    }
  }
}
