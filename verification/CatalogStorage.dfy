/** The repository: its table operations, the abstract view they refine, and the
    class that performs them through the engine. */
module CatalogStorage {
  import opened Common
  import opened CatalogItems
  import opened CatalogTable

  const RETENTION := 3600

  // ---- Repository operations as table transformers --------------------------

  /** Every repository call that can change the table, and the TTL sweep. */
  datatype RepoOp =
    | PutAuthor(a: Author)
    | UpdateAuthor(id: string, name: string, bio: string)
    | DeleteAuthor(id: string, expires: int)
    | PutBook(b: Book)
    | UpdateBook(authorID: string, bookID: string, title: string, year: int)
    | DeleteBook(authorID: string, bookID: string, expires: int)
    | TombstoneBatch(books: seq<Book>, expires: int)
    | SweepExpired(chosen: set<Key>, now: int)

  const ABSENT := AttributeNotExists(PK)
  const LIVE := And(AttributeExists(PK), AttributeNotExists(Expires))

  function TombRow(b: Book, expires: int): (row: Row)
    ensures HasKey(row) && KeyOf(row) == BookKey(b.authorID, b.id)
  {
    b.AsItem().(expires := Some(expires)).Marshal()
  }

  function TombRows(books: seq<Book>, expires: int): (rows: seq<Row>)
    ensures |rows| == |books|
    ensures forall i | 0 <= i < |rows| :: rows[i] == TombRow(books[i], expires) && HasKey(rows[i])
  {
    seq(|books|, i requires 0 <= i < |books| => TombRow(books[i], expires))
  }

  /** The table after all the books have been re-put with Expires set. */
  function Tombstoned(t: Table, books: seq<Book>, e: int): Table {
    PutAll(t, TombRows(books, e))
  }

  /** The table after the call, or None when the engine refuses it. */
  function Attempt(t: Table, op: RepoOp): Option<Table> {
    match op
    case PutAuthor(a) => PutItem(t, a.AsItem().Marshal(), ABSENT)
    case UpdateAuthor(id, name, bio) => UpdateItem(t, AuthorKey(id), map[Name := S(name), Bio := S(bio)], LIVE)
    case DeleteAuthor(id, e) => UpdateItem(t, AuthorKey(id), map[Expires := N(e)], LIVE)
    case PutBook(b) => PutItem(t, b.AsItem().Marshal(), ABSENT)
    case UpdateBook(a, b, title, year) =>
      UpdateItem(t, BookKey(a, b), map[Title := S(title), Year := N(year)], LIVE)
    case DeleteBook(a, b, e) => UpdateItem(t, BookKey(a, b), map[Expires := N(e)], LIVE)
    case TombstoneBatch(books, e) =>
      if BatchAccepted(TombRows(books, e)) then Some(Tombstoned(t, books, e)) else None
    case SweepExpired(chosen, now) => Some(Sweep(t, chosen, now))
  }

  function Apply(t: Table, op: RepoOp): Table {
    match Attempt(t, op)
    case Some(t') => t'
    case None => t
  }

  // ---- The abstract view: one cell per author and per (author, book) ---------

  datatype Cell<+V> = Absent | Live(v: V) | Tomb(v: V, expires: int)

  function CellOf<V>(v: V, expires: Option<int>): Cell<V> {
    if expires.Some? then Tomb(v, expires.value) else Live(v)
  }

  function AuthorCell(t: Table, id: string): Cell<Author> {
    if AuthorKey(id) !in t then Absent
    else match UnmarshalAuthor(t[AuthorKey(id)])
         case None => Absent
         case Some(i) => CellOf(i.ToAuthor(), i.expires)
  }

  function BookCell(t: Table, a: string, b: string): Cell<Book> {
    if BookKey(a, b) !in t then Absent
    else match UnmarshalBook(t[BookKey(a, b)])
         case None => Absent
         case Some(i) => CellOf(i.ToBook(), i.expires)
  }

  predicate DistinctBooks(books: seq<Book>) {
    forall i, j | 0 <= i < j < |books| ::
      books[i].authorID != books[j].authorID || books[i].id != books[j].id
  }

  /** What a cell becomes when the books are re-put one after the other. */
  function Reput(books: seq<Book>, e: int, a: string, b: string, c: Cell<Book>): Cell<Book> {
    if books == [] then c
    else
      var last := books[|books| - 1];
      if last.authorID == a && last.id == b then Tomb(last, e) else Reput(books[..|books| - 1], e, a, b, c)
  }

  /** The abstract operation: every operation acts on each cell by itself. */
  function AuthorAfter(op: RepoOp, id: string, c: Cell<Author>): Cell<Author> {
    match op
    case PutAuthor(a) => if a.id == id && c.Absent? then Live(a) else c
    case UpdateAuthor(i, name, bio) => if i == id && c.Live? then Live(Author(id, name, bio)) else c
    case DeleteAuthor(i, e) => if i == id && c.Live? then Tomb(c.v, e) else c
    case SweepExpired(chosen, now) =>
      if AuthorKey(id) in chosen && c.Tomb? && c.expires <= now then Absent else c
    case _ => c
  }

  function BookAfter(op: RepoOp, a: string, b: string, c: Cell<Book>): Cell<Book> {
    match op
    case PutBook(book) => if book.authorID == a && book.id == b && c.Absent? then Live(book) else c
    case UpdateBook(a', b', title, year) =>
      if a' == a && b' == b && c.Live? then Live(Book(b, a, title, year)) else c
    case DeleteBook(a', b', e) => if a' == a && b' == b && c.Live? then Tomb(c.v, e) else c
    case TombstoneBatch(books, e) =>
      if 0 < |books| <= BATCH_LIMIT && DistinctBooks(books) then Reput(books, e, a, b, c) else c
    case SweepExpired(chosen, now) =>
      if BookKey(a, b) in chosen && c.Tomb? && c.expires <= now then Absent else c
    case _ => c
  }

  /** When the call succeeds, in terms of cells alone. */
  predicate Allowed(t: Table, op: RepoOp) {
    match op
    case PutAuthor(a) => AuthorCell(t, a.id).Absent?
    case UpdateAuthor(id, _, _) => AuthorCell(t, id).Live?
    case DeleteAuthor(id, _) => AuthorCell(t, id).Live?
    case PutBook(b) => BookCell(t, b.authorID, b.id).Absent?
    case UpdateBook(a, b, _, _) => BookCell(t, a, b).Live?
    case DeleteBook(a, b, _) => BookCell(t, a, b).Live?
    case TombstoneBatch(books, _) => 0 < |books| <= BATCH_LIMIT && DistinctBooks(books)
    case SweepExpired(_, _) => true
  }

  // ---- Refinement ------------------------------------------------------------

  /** In a well-formed table an author key holds an author row and a book key a book row. */
  lemma RowKinds(t: Table, a: string, b: string)
    requires WellFormed(t)
    ensures AuthorKey(a) in t ==> IsAuthorRow(AuthorKey(a), t[AuthorKey(a)])
    ensures BookKey(a, b) in t ==> IsBookRow(BookKey(a, b), t[BookKey(a, b)])
    ensures AuthorCell(t, a).Absent? <==> AuthorKey(a) !in t
    ensures BookCell(t, a, b).Absent? <==> BookKey(a, b) !in t
    ensures !AuthorCell(t, a).Absent? ==> AuthorCell(t, a).v.id == a
    ensures !BookCell(t, a, b).Absent? ==> BookCell(t, a, b).v.authorID == a && BookCell(t, a, b).v.id == b
  {
    if AuthorKey(a) in t {
      var row := t[AuthorKey(a)];
      assert !IsBookRow(AuthorKey(a), row) by {
        assert PROFILE[0] != BOOK_PREFIX[0];
      }
      KeysInjective(a, b, UnmarshalAuthor(row).value.entityID, b);
    }
    if BookKey(a, b) in t {
      var row := t[BookKey(a, b)];
      assert !IsAuthorRow(BookKey(a, b), row) by {
        assert (BOOK_PREFIX + b)[0] != PROFILE[0];
      }
      var book := UnmarshalBook(row).value.ToBook();
      KeysInjective(a, b, book.authorID, book.id);
    }
  }

  /** Storing an author row changes that author's cell and no other. */
  lemma StoreAuthor(t: Table, x: Author, e: Option<int>)
    requires WellFormed(t)
    ensures var t' := t[AuthorKey(x.id) := x.AsItem().(expires := e).Marshal()];
            && WellFormed(t')
            && (forall id :: AuthorCell(t', id) == if id == x.id then CellOf(x, e) else AuthorCell(t, id))
            && (forall a, b :: BookCell(t', a, b) == BookCell(t, a, b))
  {
    var t' := t[AuthorKey(x.id) := x.AsItem().(expires := e).Marshal()];
    AuthorRowOf(x, e);
    hide UnmarshalAuthor, UnmarshalBook;
    forall id ensures AuthorCell(t', id) == if id == x.id then CellOf(x, e) else AuthorCell(t, id) {
      KeysInjective(id, "", x.id, "");
    }
    forall a, b ensures BookCell(t', a, b) == BookCell(t, a, b) {
      KeysInjective(x.id, "", a, b);
    }
  }

  lemma StoreBook(t: Table, x: Book, e: Option<int>)
    requires WellFormed(t)
    ensures var t' := t[BookKey(x.authorID, x.id) := x.AsItem().(expires := e).Marshal()];
            && WellFormed(t')
            && (forall id :: AuthorCell(t', id) == AuthorCell(t, id))
            && (forall a, b :: BookCell(t', a, b) ==
                               if a == x.authorID && b == x.id then CellOf(x, e) else BookCell(t, a, b))
  {
    var t' := t[BookKey(x.authorID, x.id) := x.AsItem().(expires := e).Marshal()];
    BookRowOf(x, e);
    hide UnmarshalAuthor, UnmarshalBook;
    forall id ensures AuthorCell(t', id) == AuthorCell(t, id) {
      KeysInjective(id, "", x.authorID, x.id);
    }
    forall a, b ensures BookCell(t', a, b) ==
                        if a == x.authorID && b == x.id then CellOf(x, e) else BookCell(t, a, b) {
      KeysInjective(a, b, x.authorID, x.id);
    }
  }

  /** The row behind a cell: a live or tombstoned entity determines its whole row. */
  lemma RowsOfCells(t: Table, a: string, b: string)
    requires WellFormed(t)
    ensures AuthorCell(t, a).Live? ==> t[AuthorKey(a)] == AuthorCell(t, a).v.AsItem().Marshal()
    ensures BookCell(t, a, b).Live? ==> t[BookKey(a, b)] == BookCell(t, a, b).v.AsItem().Marshal()
    ensures AuthorCell(t, a).Tomb? ==>
              t[AuthorKey(a)] == AuthorCell(t, a).v.AsItem().(expires := Some(AuthorCell(t, a).expires)).Marshal()
    ensures BookCell(t, a, b).Tomb? ==> t[BookKey(a, b)] == TombRow(BookCell(t, a, b).v, BookCell(t, a, b).expires)
  {
    RowKinds(t, a, b);
  }

  /** The engine's test "exists and has no Expires" is exactly liveness of the cell. */
  lemma LiveTest(t: Table, a: string, b: string)
    requires WellFormed(t)
    ensures Holds(LIVE, RowAt(t, AuthorKey(a))) <==> AuthorCell(t, a).Live?
    ensures Holds(LIVE, RowAt(t, BookKey(a, b))) <==> BookCell(t, a, b).Live?
    ensures Holds(ABSENT, RowAt(t, AuthorKey(a))) <==> AuthorCell(t, a).Absent?
    ensures Holds(ABSENT, RowAt(t, BookKey(a, b))) <==> BookCell(t, a, b).Absent?
  {
    RowKinds(t, a, b);
  }

  /** Re-putting books turns their cells into tombstones and changes no other. */
  lemma {:induction false} ReputCells(t: Table, books: seq<Book>, e: int)
    requires WellFormed(t)
    ensures var t' := Tombstoned(t, books, e);
            && WellFormed(t')
            && (forall id :: AuthorCell(t', id) == AuthorCell(t, id))
            && (forall a, b :: BookCell(t', a, b) == Reput(books, e, a, b, BookCell(t, a, b)))
  {
    if books == [] {
    } else {
      var init := books[..|books| - 1];
      var last := books[|books| - 1];
      ReputCells(t, init, e);
      assert TombRows(books, e)[..|books| - 1] == TombRows(init, e);
      StoreBook(Tombstoned(t, init, e), last, Some(e));
    }
  }

  lemma AcceptedBatch(books: seq<Book>, e: int)
    ensures BatchAccepted(TombRows(books, e)) <==> 0 < |books| <= 25 && DistinctBooks(books)
  {
    var rows := TombRows(books, e);
    forall i, j | 0 <= i < j < |books|
      ensures KeyOf(rows[i]) == KeyOf(rows[j]) <==>
              books[i].authorID == books[j].authorID && books[i].id == books[j].id
    {
      KeysInjective(books[i].authorID, books[i].id, books[j].authorID, books[j].id);
    }
  }

  lemma SweepCells(t: Table, chosen: set<Key>, now: int)
    requires WellFormed(t)
    ensures var t' := Sweep(t, chosen, now);
            && WellFormed(t')
            && (forall id :: AuthorCell(t', id) == AuthorAfter(SweepExpired(chosen, now), id, AuthorCell(t, id)))
            && (forall a, b :: BookCell(t', a, b) == BookAfter(SweepExpired(chosen, now), a, b, BookCell(t, a, b)))
  {
    var t' := Sweep(t, chosen, now);
    forall id ensures AuthorCell(t', id) == AuthorAfter(SweepExpired(chosen, now), id, AuthorCell(t, id)) {
      RowKinds(t, id, "");
    }
    forall a, b ensures BookCell(t', a, b) == BookAfter(SweepExpired(chosen, now), a, b, BookCell(t, a, b)) {
      RowKinds(t, a, b);
    }
  }

  /** A sweep of every key removes exactly the expired tombstones. */
  lemma FullSweep(t: Table, now: int)
    requires WellFormed(t)
    ensures var t' := Apply(t, SweepExpired(t.Keys, now));
            && (forall id :: AuthorCell(t', id) ==
                             var c := AuthorCell(t, id); if c.Tomb? && c.expires <= now then Absent else c)
            && (forall a, b :: BookCell(t', a, b) ==
                               var c := BookCell(t, a, b); if c.Tomb? && c.expires <= now then Absent else c)
  {
    SweepCells(t, t.Keys, now);
    hide WellFormed, AuthorCell, BookCell, Sweep;
    forall a, b {
      RowKinds(t, a, b);
    }
  }

  ghost predicate CellsFollow(t: Table, op: RepoOp, t': Table) {
    && (forall id :: AuthorCell(t', id) == AuthorAfter(op, id, AuthorCell(t, id)))
    && (forall a, b :: BookCell(t', a, b) == BookAfter(op, a, b, BookCell(t, a, b)))
  }

  lemma RefineUpdateAuthor(t: Table, op: RepoOp)
    requires WellFormed(t) && op.UpdateAuthor?
    ensures WellFormed(Apply(t, op)) && CellsFollow(t, op, Apply(t, op))
    ensures Attempt(t, op).Some? <==> Allowed(t, op)
  {
    hide UnmarshalAuthor, UnmarshalBook, WellFormed, AuthorCell, BookCell, AuthorItem.Marshal, BookItem.Marshal;
    LiveTest(t, op.id, "");
    RowsOfCells(t, op.id, "");
    RowKinds(t, op.id, "");
    StoreAuthor(t, Author(op.id, op.name, op.bio), None);
    if AuthorCell(t, op.id).Live? {
      PatchAuthor(AuthorCell(t, op.id).v.AsItem(), op.name, op.bio);
    }
  }

  lemma RefineDeleteAuthor(t: Table, op: RepoOp)
    requires WellFormed(t) && op.DeleteAuthor?
    ensures WellFormed(Apply(t, op)) && CellsFollow(t, op, Apply(t, op))
    ensures Attempt(t, op).Some? <==> Allowed(t, op)
  {
    hide UnmarshalAuthor, UnmarshalBook, WellFormed, AuthorCell, BookCell, AuthorItem.Marshal, BookItem.Marshal;
    LiveTest(t, op.id, "");
    RowsOfCells(t, op.id, "");
    RowKinds(t, op.id, "");
    if AuthorCell(t, op.id).Live? {
      ExpireAuthor(AuthorCell(t, op.id).v.AsItem(), op.expires);
      StoreAuthor(t, AuthorCell(t, op.id).v, Some(op.expires));
    }
  }

  lemma RefineUpdateBook(t: Table, op: RepoOp)
    requires WellFormed(t) && op.UpdateBook?
    ensures WellFormed(Apply(t, op)) && CellsFollow(t, op, Apply(t, op))
    ensures Attempt(t, op).Some? <==> Allowed(t, op)
  {
    hide UnmarshalAuthor, UnmarshalBook, WellFormed, AuthorCell, BookCell, AuthorItem.Marshal, BookItem.Marshal;
    LiveTest(t, op.authorID, op.bookID);
    RowsOfCells(t, op.authorID, op.bookID);
    RowKinds(t, op.authorID, op.bookID);
    StoreBook(t, Book(op.bookID, op.authorID, op.title, op.year), None);
    if BookCell(t, op.authorID, op.bookID).Live? {
      PatchBook(BookCell(t, op.authorID, op.bookID).v.AsItem(), op.title, op.year);
    }
  }

  lemma RefineDeleteBook(t: Table, op: RepoOp)
    requires WellFormed(t) && op.DeleteBook?
    ensures WellFormed(Apply(t, op)) && CellsFollow(t, op, Apply(t, op))
    ensures Attempt(t, op).Some? <==> Allowed(t, op)
  {
    hide UnmarshalAuthor, UnmarshalBook, WellFormed, AuthorCell, BookCell, AuthorItem.Marshal, BookItem.Marshal;
    LiveTest(t, op.authorID, op.bookID);
    RowsOfCells(t, op.authorID, op.bookID);
    RowKinds(t, op.authorID, op.bookID);
    if BookCell(t, op.authorID, op.bookID).Live? {
      ExpireBook(BookCell(t, op.authorID, op.bookID).v.AsItem(), op.expires);
      StoreBook(t, BookCell(t, op.authorID, op.bookID).v, Some(op.expires));
    }
  }

  lemma RefineInsert(t: Table, op: RepoOp)
    requires WellFormed(t) && (op.PutAuthor? || op.PutBook?)
    ensures WellFormed(Apply(t, op)) && CellsFollow(t, op, Apply(t, op))
    ensures Attempt(t, op).Some? <==> Allowed(t, op)
  {
    hide UnmarshalAuthor, UnmarshalBook, WellFormed, AuthorCell, BookCell;
    if op.PutAuthor? {
      LiveTest(t, op.a.id, "");
      StoreAuthor(t, op.a, None);
    } else {
      LiveTest(t, op.b.authorID, op.b.id);
      StoreBook(t, op.b, None);
    }
  }

  /** Every operation on the flat table is its cellwise abstract counterpart, succeeds
      exactly when that is allowed, and keeps the table well formed: for arbitrary
      identifier strings. */
  lemma Refinement(t: Table, op: RepoOp)
    requires WellFormed(t)
    ensures WellFormed(Apply(t, op))
    ensures CellsFollow(t, op, Apply(t, op))
    ensures Attempt(t, op).Some? <==> Allowed(t, op)
    ensures !Allowed(t, op) ==> Apply(t, op) == t
  {
    hide WellFormed, AuthorCell, BookCell;
    match op
    case PutAuthor(_) => RefineInsert(t, op);
    case PutBook(_) => RefineInsert(t, op);
    case UpdateAuthor(_, _, _) => RefineUpdateAuthor(t, op);
    case DeleteAuthor(_, _) => RefineDeleteAuthor(t, op);
    case UpdateBook(_, _, _, _) => RefineUpdateBook(t, op);
    case DeleteBook(_, _, _) => RefineDeleteBook(t, op);
    case TombstoneBatch(books, e) =>
      AcceptedBatch(books, e);
      ReputCells(t, books, e);
    case SweepExpired(chosen, now) =>
      SweepCells(t, chosen, now);
  }

  /** The abstraction loses nothing: cells determine the well-formed table. */
  lemma CellsDetermineTable(t: Table, t': Table)
    requires WellFormed(t) && WellFormed(t')
    requires forall id :: AuthorCell(t, id) == AuthorCell(t', id)
    requires forall a, b :: BookCell(t, a, b) == BookCell(t', a, b)
    ensures t == t'
  {
    forall k | k in t ensures k in t' && t[k] == t'[k] {
      SameRow(t, t', k);
    }
    forall k | k in t' ensures k in t {
      SameRow(t', t, k);
    }
  }

  lemma SameRow(t: Table, t': Table, k: Key)
    requires WellFormed(t) && WellFormed(t') && k in t
    requires forall id :: AuthorCell(t, id) == AuthorCell(t', id)
    requires forall a, b :: BookCell(t, a, b) == BookCell(t', a, b)
    ensures k in t' && t[k] == t'[k]
  {
    assert IsAuthorRow(k, t[k]) || IsBookRow(k, t[k]);
    hide WellFormed, AuthorCell, BookCell, AuthorItem.Marshal, BookItem.Marshal, UnmarshalAuthor, UnmarshalBook;
    if IsAuthorRow(k, t[k]) {
      var id := UnmarshalAuthor(t[k]).value.entityID;
      RowKinds(t, id, "");
      RowsOfCells(t, id, "");
      RowKinds(t', id, "");
      RowsOfCells(t', id, "");
    } else {
      var b := UnmarshalBook(t[k]).value.ToBook();
      RowKinds(t, b.authorID, b.id);
      RowsOfCells(t, b.authorID, b.id);
      RowKinds(t', b.authorID, b.id);
      RowsOfCells(t', b.authorID, b.id);
    }
  }

  // ---- Key life cycle --------------------------------------------------------

  /** The only ways one operation can change the cell of author id. */
  predicate AuthorTransition(op: RepoOp, id: string, c: Cell<Author>, c': Cell<Author>) {
    || c' == c
    || (c.Absent? && c'.Live? && op == PutAuthor(c'.v) && c'.v.id == id)
    || (c.Live? && c'.Live? && op.UpdateAuthor? && op.id == id && c'.v.id == c.v.id == id)
    || (c.Live? && c'.Tomb? && c'.v == c.v && op == RepoOp.DeleteAuthor(id, c'.expires))
    || (c.Tomb? && c'.Absent? && op.SweepExpired? && AuthorKey(id) in op.chosen && c.expires <= op.now)
  }

  /** Likewise for a book. Only a batch re-put of that very book touches a tombstone's
      expiry, or makes a tombstone of an absent key. */
  predicate BookTransition(op: RepoOp, a: string, b: string, c: Cell<Book>, c': Cell<Book>) {
    || c' == c
    || (c.Absent? && c'.Live? && op == PutBook(c'.v) && c'.v.authorID == a && c'.v.id == b)
    || (c.Live? && c'.Live? && op.UpdateBook? && op.authorID == a && op.bookID == b
        && c'.v.authorID == a && c'.v.id == b)
    || (c.Live? && c'.Tomb? && c'.v == c.v && op == DeleteBook(a, b, c'.expires))
    || (c'.Tomb? && op.TombstoneBatch? && c'.v in op.books && c'.v.authorID == a && c'.v.id == b
        && c'.expires == op.expires)
    || (c.Tomb? && c'.Absent? && op.SweepExpired? && BookKey(a, b) in op.chosen && c.expires <= op.now)
  }

  lemma {:induction false} ReputIsTomb(books: seq<Book>, e: int, a: string, b: string, c: Cell<Book>)
    ensures (exists i :: 0 <= i < |books| && books[i].authorID == a && books[i].id == b)
            ==> Reput(books, e, a, b, c).Tomb? && Reput(books, e, a, b, c).expires == e
                && Reput(books, e, a, b, c).v in books
                && Reput(books, e, a, b, c).v.authorID == a && Reput(books, e, a, b, c).v.id == b
    ensures (forall i | 0 <= i < |books| :: books[i].authorID != a || books[i].id != b)
            ==> Reput(books, e, a, b, c) == c
  {
    if books == [] {
    } else {
      var init, last := books[..|books| - 1], books[|books| - 1];
      ReputIsTomb(init, e, a, b, c);
      assert forall i | 0 <= i < |init| :: init[i] == books[i];
      if last.authorID != a || last.id != b {
        if i :| 0 <= i < |books| && books[i].authorID == a && books[i].id == b {
          assert init[i] == books[i];
        }
      }
    }
  }

  lemma AuthorMoves(op: RepoOp, id: string, c: Cell<Author>)
    requires !c.Absent? ==> c.v.id == id
    ensures AuthorTransition(op, id, c, AuthorAfter(op, id, c))
  {
  }

  lemma BookMoves(op: RepoOp, a: string, b: string, c: Cell<Book>)
    requires !c.Absent? ==> c.v.authorID == a && c.v.id == b
    ensures BookTransition(op, a, b, c, BookAfter(op, a, b, c))
  {
    if op.TombstoneBatch? {
      ReputIsTomb(op.books, op.expires, a, b, c);
    }
  }

  /** A live key never becomes absent directly, and a tombstone never becomes live
      without first being absent. */
  lemma LifeCycle(t: Table, op: RepoOp, a: string, b: string)
    requires WellFormed(t)
    ensures AuthorTransition(op, a, AuthorCell(t, a), AuthorCell(Apply(t, op), a))
    ensures BookTransition(op, a, b, BookCell(t, a, b), BookCell(Apply(t, op), a, b))
  {
    hide AuthorCell, BookCell, WellFormed, Apply, AuthorAfter, BookAfter, AuthorTransition, BookTransition;
    RowKinds(t, a, b);
    Refinement(t, op);
    AuthorMoves(op, a, AuthorCell(t, a));
    BookMoves(op, a, b, BookCell(t, a, b));
  }

  // ---- What the queries return -----------------------------------------------

  function LiveAuthors(t: Table): set<Author> {
    set k | k in t && IsAuthorRow(k, t[k]) && Expires !in t[k] :: UnmarshalAuthor(t[k]).value.ToAuthor()
  }

  function LiveBooks(t: Table): set<Book> {
    set k | k in t && IsBookRow(k, t[k]) && Expires !in t[k] :: UnmarshalBook(t[k]).value.ToBook()
  }

  function LiveBooksOf(t: Table, a: string): set<Book> {
    set b | b in LiveBooks(t) && b.authorID == a
  }

  lemma LiveBooksAreLiveCells(t: Table, b: Book)
    requires WellFormed(t)
    ensures b in LiveBooks(t) <==> BookCell(t, b.authorID, b.id) == Live(b)
  {
    RowKinds(t, b.authorID, b.id);
    if BookCell(t, b.authorID, b.id) == Live(b) {
      var k := BookKey(b.authorID, b.id);
      assert k in t && IsBookRow(k, t[k]) && Expires !in t[k];
    }
  }

  lemma LiveAuthorsAreLiveCells(t: Table, a: Author)
    requires WellFormed(t)
    ensures a in LiveAuthors(t) <==> AuthorCell(t, a.id) == Live(a)
  {
    RowKinds(t, a.id, "");
    if AuthorCell(t, a.id) == Live(a) {
      var k := AuthorKey(a.id);
      assert k in t && IsAuthorRow(k, t[k]) && Expires !in t[k];
    }
  }

  /** One partition's begins_with query finds exactly the author's live book rows. */
  lemma PartitionQueryIsBooks(t: Table, a: string, k: Key)
    requires WellFormed(t)
    ensures k in PartitionQuery(t, AUTHOR_PREFIX + a, BOOK_PREFIX) <==>
            k in t && IsBookRow(k, t[k]) && Expires !in t[k] && UnmarshalBook(t[k]).value.ToBook().authorID == a
  {
    if k in t {
      if IsBookRow(k, t[k]) {
        var b := UnmarshalBook(t[k]).value.ToBook();
        PrefixInjective(AUTHOR_PREFIX, b.authorID, a);
        assert BOOK_PREFIX <= BOOK_PREFIX + b.id;
      } else {
        assert PROFILE[0] != BOOK_PREFIX[0];
      }
    }
  }

  /** The index query on one entity type finds exactly the live rows of that type. */
  lemma IndexQueryByType(t: Table, k: Key)
    requires WellFormed(t)
    ensures k in IndexQuery(t, "BOOK") <==> k in t && IsBookRow(k, t[k]) && Expires !in t[k]
    ensures k in IndexQuery(t, "AUTHOR") <==> k in t && IsAuthorRow(k, t[k]) && Expires !in t[k]
  {
    assert "BOOK"[0] != "AUTHOR"[0];
  }

  /** The two query paths agree: the BOOK index query is the union, over all
      partitions, of the begins_with query. */
  lemma QueryPathsAgree(t: Table, k: Key)
    requires WellFormed(t)
    ensures k in IndexQuery(t, "BOOK") <==> exists a :: k in PartitionQuery(t, AUTHOR_PREFIX + a, BOOK_PREFIX)
    ensures forall a, a' | k in PartitionQuery(t, AUTHOR_PREFIX + a, BOOK_PREFIX)
                           && k in PartitionQuery(t, AUTHOR_PREFIX + a', BOOK_PREFIX) :: a == a'
  {
    IndexQueryByType(t, k);
    if k in IndexQuery(t, "BOOK") {
      var a := UnmarshalBook(t[k]).value.ToBook().authorID;
      PartitionQueryIsBooks(t, a, k);
    }
    forall a | k in PartitionQuery(t, AUTHOR_PREFIX + a, BOOK_PREFIX)
      ensures k in IndexQuery(t, "BOOK") && a == UnmarshalBook(t[k]).value.ToBook().authorID
    {
      PartitionQueryIsBooks(t, a, k);
    }
  }

  // ---- SoftDeleteBooks as a whole --------------------------------------------

  function KeyOfBook(b: Book): Key {
    BookKey(b.authorID, b.id)
  }

  lemma {:induction false} ReputRowAt(t: Table, books: seq<Book>, e: int, k: Key)
    requires DistinctBooks(books)
    ensures var t' := Tombstoned(t, books, e);
            && (forall i | 0 <= i < |books| && k == KeyOfBook(books[i]) :: k in t' && t'[k] == TombRow(books[i], e))
            && ((forall i | 0 <= i < |books| :: k != KeyOfBook(books[i]))
                ==> (k in t' <==> k in t) && (k in t ==> t'[k] == t[k]))
  {
    hide TombRow;
    if books == [] {
    } else {
      var init := books[..|books| - 1];
      var last := books[|books| - 1];
      ReputRowAt(t, init, e, k);
      assert TombRows(books, e)[..|books| - 1] == TombRows(init, e);
      forall i | 0 <= i < |init| ensures KeyOfBook(init[i]) != KeyOfBook(last) && init[i] == books[i] {
        KeysInjective(books[i].authorID, books[i].id, last.authorID, last.id);
      }
    }
  }

  /** Exactly the listed keys are replaced, each by its own item with the one shared
      Expires; every other key keeps its row. */
  lemma ReputTable(t: Table, books: seq<Book>, e: int)
    requires DistinctBooks(books)
    ensures var t' := Tombstoned(t, books, e);
            && (forall i | 0 <= i < |books| ::
                  KeyOfBook(books[i]) in t' && t'[KeyOfBook(books[i])] == TombRow(books[i], e))
            && (forall k :: (forall i | 0 <= i < |books| :: k != KeyOfBook(books[i]))
                            ==> (k in t' <==> k in t) && (k in t ==> t'[k] == t[k]))
  {
    hide TombRow, Tombstoned, KeyOfBook;
    forall i | 0 <= i < |books| {
      ReputRowAt(t, books, e, KeyOfBook(books[i]));
    }
    forall k {
      ReputRowAt(t, books, e, k);
    }
  }

  lemma TombRowsAppend(xs: seq<Book>, ys: seq<Book>, e: int)
    ensures TombRows(xs + ys, e) == TombRows(xs, e) + TombRows(ys, e)
  {
    hide TombRow;
  }

  predicate WholeBatches(n: nat) {
    n % 25 == 0
  }

  lemma NoBatchYet()
    ensures WholeBatches(0)
  {
  }

  lemma WholeBatchesAre(n: nat)
    ensures WholeBatches(n) <==> n % 25 == 0
  {
  }

  lemma OneMoreBatch(n: nat)
    requires WholeBatches(n)
    ensures WholeBatches(n + BATCH_LIMIT)
  {
  }

  lemma SliceDistinct(books: seq<Book>, i: nat, end: nat)
    requires i <= end <= |books| && DistinctBooks(books)
    ensures DistinctBooks(books[i..end])
  {
    forall x, y | 0 <= x < y < end - i
      ensures books[i..end][x].authorID != books[i..end][y].authorID || books[i..end][x].id != books[i..end][y].id
    {
      assert books[i..end][x] == books[i + x] && books[i..end][y] == books[i + y];
    }
  }

  lemma SliceOfDistinct(books: seq<Book>, i: nat, end: nat)
    requires i <= end <= |books|
    ensures DistinctBooks(books) ==> DistinctBooks(books[i..end])
  {
    hide DistinctBooks;
    if DistinctBooks(books) {
      SliceDistinct(books, i, end);
    }
  }

  lemma NothingWritten(t: Table, books: seq<Book>)
    ensures forall e: int :: Tombstoned(t, books[..0], e) == t
  {
  }

  /** Writing the next batch extends the written prefix. */
  lemma BatchExtends(t: Table, books: seq<Book>, i: nat, end: nat, e: int)
    requires WellFormed(t) && i < end <= |books|
    ensures Tombstoned(Tombstoned(t, books[..i], e), books[i..end], e) == Tombstoned(t, books[..end], e)
    ensures WellFormed(Tombstoned(t, books[..end], e))
  {
    assert books[..end] == books[..i] + books[i..end];
    TombRowsAppend(books[..i], books[i..end], e);
    hide WellFormed, PutAll, TombRow;
    PutAllAppend(t, TombRows(books[..i], e), TombRows(books[i..end], e));
    ReputCells(t, books[..end], e);
  }

  /** The put requests of one batch. */
  method TombstoneRequests(batch: seq<Book>, expires: int) returns (requests: seq<Row>)
    ensures requests == TombRows(batch, expires)
  {
    requests := [];
    for j := 0 to |batch|
      invariant requests == TombRows(batch[..j], expires)
    {
      TombRowsAppend(batch[..j], [batch[j]], expires);
      assert batch[..j + 1] == batch[..j] + [batch[j]];
      requests := requests + [batch[j].AsItem().(expires := Some(expires)).Marshal()];
    }
    assert batch[..|batch|] == batch;
  }

  // ---- The repository class --------------------------------------------------

  datatype StorageError = NotFound | Conflict | Refused | Failed

  /** The sentinel error a refused call is mapped to. */
  function RefusalOf(op: RepoOp): StorageError {
    match op
    case PutAuthor(_) => Conflict
    case PutBook(_) => Conflict
    case TombstoneBatch(_, _) => Refused
    case _ => NotFound
  }

  /** err == None: the operation was allowed and took effect. Otherwise the table is unchanged, and
      the sentinel error says that the operation was not allowed. */
  predicate Performed(t: Table, op: RepoOp, err: Option<StorageError>, t': Table) {
    match err
    case None => Allowed(t, op) && t' == Apply(t, op)
    case Some(e) => t' == t && (e == Failed || (e == RefusalOf(op) && !Allowed(t, op)))
  }

  class Repo {
    const ddb: Engine

    constructor (ddb: Engine)
      ensures this.ddb == ddb
    {
      this.ddb := ddb;
    }

    ghost predicate Valid()
      reads ddb
    {
      WellFormed(ddb.table)
    }

    method GetAuthor(id: string) returns (r: Result<Author, StorageError>)
      requires Valid()
      modifies ddb`faults
      ensures old(ddb.faults) <= ddb.faults && (r == Err(Failed) <==> old(ddb.faults) < ddb.faults)
      ensures r != Err(Failed) ==>
                r == if AuthorCell(ddb.table, id).Live? then Ok(AuthorCell(ddb.table, id).v) else Err(NotFound)
    {
      var reply, row := ddb.Get(AuthorKey(id));
      if reply != Applied {
        return Err(Failed);
      }
      RowKinds(ddb.table, id, "");
      if row == map[] {
        return Err(NotFound);
      }
      var item := UnmarshalAuthor(row);
      if item == None {
        return Err(Failed);
      }
      if item.value.expires.Some? {
        return Err(NotFound);
      }
      return Ok(item.value.ToAuthor());
    }

    method PutAuthor(a: Author) returns (err: Option<StorageError>)
      requires Valid()
      modifies ddb`table, ddb`faults
      ensures Valid()
      ensures old(ddb.faults) <= ddb.faults && (err == Some(Failed) <==> old(ddb.faults) < ddb.faults)
      ensures err != Some(Failed) ==> err == if AuthorCell(old(ddb.table), a.id).Absent? then None else Some(Conflict)
      ensures err == None ==> AuthorCell(ddb.table, a.id) == Live(a)
      ensures Performed(old(ddb.table), RepoOp.PutAuthor(a), err, ddb.table)
    {
      hide AuthorCell, BookCell, WellFormed;
      Refinement(ddb.table, RepoOp.PutAuthor(a));
      var reply := ddb.Put(a.AsItem().Marshal(), ABSENT);
      return if reply == Applied then None else if reply == ConditionFailed then Some(Conflict) else Some(Failed);
    }

    method UpdateAuthor(id: string, name: string, bio: string) returns (err: Option<StorageError>)
      requires Valid()
      modifies ddb`table, ddb`faults
      ensures Valid()
      ensures old(ddb.faults) <= ddb.faults && (err == Some(Failed) <==> old(ddb.faults) < ddb.faults)
      ensures err != Some(Failed) ==> err == if AuthorCell(old(ddb.table), id).Live? then None else Some(NotFound)
      ensures err == None ==> AuthorCell(ddb.table, id) == Live(Author(id, name, bio))
      ensures Performed(old(ddb.table), RepoOp.UpdateAuthor(id, name, bio), err, ddb.table)
    {
      hide AuthorCell, BookCell, WellFormed;
      Refinement(ddb.table, RepoOp.UpdateAuthor(id, name, bio));
      var reply := ddb.Update(AuthorKey(id), map[Name := S(name), Bio := S(bio)], LIVE);
      return if reply == Applied then None else if reply == ConditionFailed then Some(NotFound) else Some(Failed);
    }

    method DeleteAuthor(id: string) returns (err: Option<StorageError>)
      requires Valid()
      modifies ddb
      ensures Valid() && old(ddb.now) <= ddb.now
      ensures old(ddb.faults) <= ddb.faults && (err == Some(Failed) <==> old(ddb.faults) < ddb.faults)
      ensures err != Some(Failed) ==> err == if AuthorCell(old(ddb.table), id).Live? then None else Some(NotFound)
      ensures err == None ==> AuthorCell(ddb.table, id) == Tomb(AuthorCell(old(ddb.table), id).v, ddb.now + 3600)
      ensures Performed(old(ddb.table), RepoOp.DeleteAuthor(id, ddb.now + 3600), err, ddb.table)
    {
      hide AuthorCell, BookCell, WellFormed;
      var now := ddb.Now();
      Refinement(ddb.table, RepoOp.DeleteAuthor(id, now + RETENTION));
      var reply := ddb.Update(AuthorKey(id), map[Expires := N(now + RETENTION)], LIVE);
      return if reply == Applied then None else if reply == ConditionFailed then Some(NotFound) else Some(Failed);
    }

    /** One page of the index query: the whole answer when `complete`. */
    method ListAuthors() returns (r: Result<seq<Author>, StorageError>, ghost complete: bool)
      requires Valid()
      modifies ddb`faults
      ensures r.Ok? ==> Listing(r.value, LiveAuthors(ddb.table), complete)
      ensures r.Err? ==> r.error == Failed
      ensures old(ddb.faults) <= ddb.faults && (r == Err(Failed) <==> old(ddb.faults) < ddb.faults)
    {
      var reply, rows, more := ddb.Page(IndexQuery(ddb.table, "AUTHOR"));
      complete := !more;
      if reply != Applied {
        return Err(Failed), false;
      }
      AuthorRowsRead(ddb.table, rows, complete);
      var authors: seq<Author> := [];
      for i := 0 to |rows|
        invariant |authors| == i
        invariant forall j | 0 <= j < i :: UnmarshalAuthor(rows[j].1).Some?
                                           && authors[j] == UnmarshalAuthor(rows[j].1).value.ToAuthor()
      {
        var item := UnmarshalAuthor(rows[i].1);
        if item == None {
          return Err(Failed), false;
        }
        authors := authors + [item.value.ToAuthor()];
      }
      AuthorListing(ddb.table, rows, authors, complete);
      return Ok(authors), complete;
    }

    method GetBook(authorID: string, bookID: string) returns (r: Result<Book, StorageError>)
      requires Valid()
      modifies ddb`faults
      ensures old(ddb.faults) <= ddb.faults && (r == Err(Failed) <==> old(ddb.faults) < ddb.faults)
      ensures r != Err(Failed) ==>
                r == if BookCell(ddb.table, authorID, bookID).Live?
                     then Ok(BookCell(ddb.table, authorID, bookID).v) else Err(NotFound)
    {
      var reply, row := ddb.Get(BookKey(authorID, bookID));
      if reply != Applied {
        return Err(Failed);
      }
      RowKinds(ddb.table, authorID, bookID);
      if row == map[] {
        return Err(NotFound);
      }
      var item := UnmarshalBook(row);
      if item == None {
        return Err(Failed);
      }
      if item.value.expires.Some? {
        return Err(NotFound);
      }
      return Ok(item.value.ToBook());
    }

    method PutBook(b: Book) returns (err: Option<StorageError>)
      requires Valid()
      modifies ddb`table, ddb`faults
      ensures Valid()
      ensures old(ddb.faults) <= ddb.faults && (err == Some(Failed) <==> old(ddb.faults) < ddb.faults)
      ensures err != Some(Failed) ==>
                err == if BookCell(old(ddb.table), b.authorID, b.id).Absent? then None else Some(Conflict)
      ensures err == None ==> BookCell(ddb.table, b.authorID, b.id) == Live(b)
      ensures Performed(old(ddb.table), RepoOp.PutBook(b), err, ddb.table)
    {
      hide AuthorCell, BookCell, WellFormed;
      Refinement(ddb.table, RepoOp.PutBook(b));
      var reply := ddb.Put(b.AsItem().Marshal(), ABSENT);
      return if reply == Applied then None else if reply == ConditionFailed then Some(Conflict) else Some(Failed);
    }

    method UpdateBook(authorID: string, bookID: string, title: string, year: int) returns (err: Option<StorageError>)
      requires Valid()
      modifies ddb`table, ddb`faults
      ensures Valid()
      ensures old(ddb.faults) <= ddb.faults && (err == Some(Failed) <==> old(ddb.faults) < ddb.faults)
      ensures err != Some(Failed) ==>
                err == if BookCell(old(ddb.table), authorID, bookID).Live? then None else Some(NotFound)
      ensures err == None ==> BookCell(ddb.table, authorID, bookID) == Live(Book(bookID, authorID, title, year))
      ensures Performed(old(ddb.table), RepoOp.UpdateBook(authorID, bookID, title, year), err, ddb.table)
    {
      hide AuthorCell, BookCell, WellFormed;
      Refinement(ddb.table, RepoOp.UpdateBook(authorID, bookID, title, year));
      var reply := ddb.Update(BookKey(authorID, bookID), map[Title := S(title), Year := N(year)], LIVE);
      return if reply == Applied then None else if reply == ConditionFailed then Some(NotFound) else Some(Failed);
    }

    method DeleteBook(authorID: string, bookID: string) returns (err: Option<StorageError>)
      requires Valid()
      modifies ddb
      ensures Valid() && old(ddb.now) <= ddb.now
      ensures old(ddb.faults) <= ddb.faults && (err == Some(Failed) <==> old(ddb.faults) < ddb.faults)
      ensures err != Some(Failed) ==>
                err == if BookCell(old(ddb.table), authorID, bookID).Live? then None else Some(NotFound)
      ensures err == None ==> BookCell(ddb.table, authorID, bookID) ==
                              Tomb(BookCell(old(ddb.table), authorID, bookID).v, ddb.now + 3600)
      ensures Performed(old(ddb.table), RepoOp.DeleteBook(authorID, bookID, ddb.now + 3600), err, ddb.table)
    {
      hide AuthorCell, BookCell, WellFormed;
      var now := ddb.Now();
      Refinement(ddb.table, RepoOp.DeleteBook(authorID, bookID, now + RETENTION));
      var reply := ddb.Update(BookKey(authorID, bookID), map[Expires := N(now + RETENTION)], LIVE);
      return if reply == Applied then None else if reply == ConditionFailed then Some(NotFound) else Some(Failed);
    }

    method ListBooks(authorID: string) returns (r: Result<seq<Book>, StorageError>, ghost complete: bool)
      requires Valid()
      modifies ddb`faults
      ensures r.Ok? ==> Listing(r.value, LiveBooksOf(ddb.table, authorID), complete)
      ensures r.Err? ==> r.error == Failed
      ensures old(ddb.faults) <= ddb.faults && (r == Err(Failed) <==> old(ddb.faults) < ddb.faults)
    {
      var reply, rows, more := ddb.Page(PartitionQuery(ddb.table, AUTHOR_PREFIX + authorID, BOOK_PREFIX));
      complete := !more;
      if reply != Applied {
        return Err(Failed), false;
      }
      ghost var ks := PartitionQuery(ddb.table, AUTHOR_PREFIX + authorID, BOOK_PREFIX);
      forall k ensures k in ks <==> k in ddb.table && IsBookRow(k, ddb.table[k]) && Expires !in ddb.table[k]
                                    && UnmarshalBook(ddb.table[k]).value.ToBook().authorID == authorID
      {
        PartitionQueryIsBooks(ddb.table, authorID, k);
      }
      BookRowsRead(ddb.table, ks, rows, complete);
      r := BooksOf(rows);
      BookListing(ddb.table, ks, rows, r.value, LiveBooksOf(ddb.table, authorID), complete);
    }

    method ListAllBooks() returns (r: Result<seq<Book>, StorageError>, ghost complete: bool)
      requires Valid()
      modifies ddb`faults
      ensures r.Ok? ==> Listing(r.value, LiveBooks(ddb.table), complete)
      ensures r.Err? ==> r.error == Failed
      ensures old(ddb.faults) <= ddb.faults && (r == Err(Failed) <==> old(ddb.faults) < ddb.faults)
    {
      var reply, rows, more := ddb.Page(IndexQuery(ddb.table, "BOOK"));
      complete := !more;
      if reply != Applied {
        return Err(Failed), false;
      }
      ghost var ks := IndexQuery(ddb.table, "BOOK");
      forall k ensures k in ks <==> k in ddb.table && IsBookRow(k, ddb.table[k]) && Expires !in ddb.table[k] {
        IndexQueryByType(ddb.table, k);
      }
      BookRowsRead(ddb.table, ks, rows, complete);
      r := BooksOf(rows);
      BookListing(ddb.table, ks, rows, r.value, LiveBooks(ddb.table), complete);
    }

    /** One BatchWriteItem: the books of the batch are re-put with the shared Expires. */
    method WriteTombstones(batch: seq<Book>, expires: int) returns (err: Option<StorageError>)
      requires Valid() && 0 < |batch| <= 25
      modifies ddb`table, ddb`faults
      ensures Valid()
      ensures old(ddb.faults) <= ddb.faults && (err == Some(Failed) <==> old(ddb.faults) < ddb.faults)
      ensures err != Some(Failed) ==> err == if DistinctBooks(batch) then None else Some(Refused)
      ensures ddb.table == if err == None then Tombstoned(old(ddb.table), batch, expires) else old(ddb.table)
    {
      AcceptedBatch(batch, expires);
      ReputCells(ddb.table, batch, expires);
      var requests := TombstoneRequests(batch, expires);
      hide WellFormed, TombRows, PutAll, BatchAccepted, DistinctBooks;
      var reply := ddb.BatchWrite(requests);
      return if reply == Applied then None else if reply == Rejected then Some(Refused) else Some(Failed);
    }

    /** The batch from i to end, after the books before i have been written to table t. */
    method WriteNext(ghost t: Table, books: seq<Book>, i: nat, end: nat, expires: int)
      returns (err: Option<StorageError>)
      requires Valid() && WellFormed(t) && i < end <= |books| && end - i <= 25
      requires ddb.table == Tombstoned(t, books[..i], expires)
      modifies ddb`table, ddb`faults
      ensures Valid()
      ensures old(ddb.faults) <= ddb.faults && (err == Some(Failed) <==> old(ddb.faults) < ddb.faults)
      ensures err == None || err == Some(Failed) || (err == Some(Refused) && !DistinctBooks(books))
      ensures ddb.table == Tombstoned(t, books[..if err == None then end else i], expires)
    {
      hide WellFormed, Tombstoned, DistinctBooks;
      BatchExtends(t, books, i, end, expires);
      SliceOfDistinct(books, i, end);
      err := WriteTombstones(books[i..end], expires);
    }

    /** Batches of 25. On an error, a prefix made of whole batches has been written;
        a list without repeated books is never refused. */
    method SoftDeleteBooks(books: seq<Book>) returns (err: Option<StorageError>, ghost written: nat)
      requires Valid()
      modifies ddb
      ensures Valid() && old(ddb.now) <= ddb.now
      ensures written <= |books|
      ensures ddb.table == Tombstoned(old(ddb.table), books[..written], ddb.now + 3600)
      ensures err == None ==> written == |books|
      ensures err != None ==> written < |books| && written % 25 == 0
      ensures old(ddb.faults) <= ddb.faults && (err == Some(Failed) <==> old(ddb.faults) < ddb.faults)
      ensures err == None || err == Some(Failed) || (err == Some(Refused) && !DistinctBooks(books))
    {
      NothingWritten(ddb.table, books);
      NoBatchYet();
      hide WellFormed, Tombstoned, DistinctBooks, WholeBatches;
      var expires := ddb.Now();
      expires := expires + RETENTION;
      var i := 0;
      written := 0;
      while i < |books|
        invariant 0 <= i && written <= |books|
        invariant i < |books| ==> written == i
        invariant i >= |books| ==> written == |books|
        invariant WholeBatches(i)
        invariant ddb.now + RETENTION == expires && old(ddb.now) <= ddb.now && ddb.faults == old(ddb.faults)
        invariant ddb.table == Tombstoned(old(ddb.table), books[..written], expires)
        invariant WellFormed(ddb.table)
      {
        var end := if i + BATCH_LIMIT < |books| then i + BATCH_LIMIT else |books|;
        err := WriteNext(old(ddb.table), books, i, end, expires);
        if err != None {
          WholeBatchesAre(i);
          return err, written;
        }
        OneMoreBatch(i);
        written, i := end, i + BATCH_LIMIT;
      }
      return None, written;
    }

    /** The sweep removes tombstones only. */
    method ExpireExpired() returns (err: Option<StorageError>, n: nat)
      requires Valid()
      modifies ddb`table, ddb`faults
      ensures Valid()
      ensures old(ddb.faults) <= ddb.faults && (err == Some(Failed) <==> old(ddb.faults) < ddb.faults)
      ensures err == None || err == Some(Failed)
      ensures Performed(old(ddb.table), SweepExpired(old(ddb.table).Keys, ddb.now), err, ddb.table)
      ensures err == None ==> n == |old(ddb.table)| - |ddb.table|
      ensures err == None ==>
                forall a, b :: BookCell(ddb.table, a, b) ==
                               var c := BookCell(old(ddb.table), a, b);
                               if c.Tomb? && c.expires <= ddb.now then Absent else c
      ensures err == None ==>
                forall id :: AuthorCell(ddb.table, id) ==
                             var c := AuthorCell(old(ddb.table), id);
                             if c.Tomb? && c.expires <= ddb.now then Absent else c
    {
      hide AuthorCell, BookCell, WellFormed;
      Refinement(ddb.table, SweepExpired(ddb.table.Keys, ddb.now));
      FullSweep(ddb.table, ddb.now);
      var reply, count := ddb.ExpireExpired();
      return (if reply == Applied then None else Some(Failed)), count;
    }
  }

  /** The unmarshalling loop of the two book queries. */
  method BooksOf(rows: seq<(Key, Row)>) returns (r: Result<seq<Book>, StorageError>)
    ensures r.Ok? <==> forall i | 0 <= i < |rows| :: UnmarshalBook(rows[i].1).Some?
    ensures r.Ok? ==> |r.value| == |rows|
                      && forall i | 0 <= i < |rows| :: r.value[i] == UnmarshalBook(rows[i].1).value.ToBook()
    ensures r.Err? ==> r.error == Failed
  {
    var books: seq<Book> := [];
    for i := 0 to |rows|
      invariant |books| == i
      invariant forall j | 0 <= j < i :: UnmarshalBook(rows[j].1).Some?
                                         && books[j] == UnmarshalBook(rows[j].1).value.ToBook()
    {
      var item := UnmarshalBook(rows[i].1);
      if item == None {
        return Err(Failed);
      }
      books := books + [item.value.ToBook()];
    }
    return Ok(books);
  }

  /** The rows of a page over book rows can all be unmarshalled. */
  lemma BookRowsRead(t: Table, ks: set<Key>, rows: seq<(Key, Row)>, complete: bool)
    requires ks <= t.Keys && forall k | k in ks :: IsBookRow(k, t[k])
    requires Listing(rows, set k | k in ks :: (k, t[k]), complete)
    ensures forall i | 0 <= i < |rows| :: UnmarshalBook(rows[i].1).Some?
  {
    forall i | 0 <= i < |rows| ensures UnmarshalBook(rows[i].1).Some? {
      assert rows[i] in rows;
    }
  }

  lemma AuthorRowsRead(t: Table, rows: seq<(Key, Row)>, complete: bool)
    requires WellFormed(t)
    requires Listing(rows, set k | k in IndexQuery(t, "AUTHOR") :: (k, t[k]), complete)
    ensures forall i | 0 <= i < |rows| :: UnmarshalAuthor(rows[i].1).Some?
  {
    forall i | 0 <= i < |rows| ensures UnmarshalAuthor(rows[i].1).Some? {
      assert rows[i] in rows;
      IndexQueryByType(t, rows[i].0);
    }
  }

  lemma BookListing(t: Table, ks: set<Key>, rows: seq<(Key, Row)>, books: seq<Book>, all: set<Book>, complete: bool)
    requires ks <= t.Keys
    requires forall k | k in ks :: IsBookRow(k, t[k])
    requires Listing(rows, set k | k in ks :: (k, t[k]), complete)
    requires |books| == |rows|
    requires forall i | 0 <= i < |rows| :: UnmarshalBook(rows[i].1).Some?
                                           && books[i] == UnmarshalBook(rows[i].1).value.ToBook()
    requires all == set k | k in ks && IsBookRow(k, t[k]) :: UnmarshalBook(t[k]).value.ToBook()
    ensures Listing(books, all, complete)
  {
    forall i | 0 <= i < |rows|
      ensures rows[i].0 in ks && rows[i].1 == t[rows[i].0]
              && rows[i].0 == BookKey(books[i].authorID, books[i].id) && books[i] in all
    {
      assert rows[i] in rows;
    }
    if complete {
      forall b | b in all ensures b in books {
        var k :| k in ks && IsBookRow(k, t[k]) && b == UnmarshalBook(t[k]).value.ToBook();
        assert (k, t[k]) in rows;
      }
    }
  }

  lemma AuthorListing(t: Table, rows: seq<(Key, Row)>, authors: seq<Author>, complete: bool)
    requires WellFormed(t)
    requires Listing(rows, set k | k in IndexQuery(t, "AUTHOR") :: (k, t[k]), complete)
    requires |authors| == |rows|
    requires forall i | 0 <= i < |rows| :: UnmarshalAuthor(rows[i].1).Some?
                                           && authors[i] == UnmarshalAuthor(rows[i].1).value.ToAuthor()
    ensures Listing(authors, LiveAuthors(t), complete)
  {
    forall k ensures k in IndexQuery(t, "AUTHOR") <==> k in t && IsAuthorRow(k, t[k]) && Expires !in t[k] {
      IndexQueryByType(t, k);
    }
    forall i | 0 <= i < |rows|
      ensures rows[i].0 in IndexQuery(t, "AUTHOR") && rows[i].1 == t[rows[i].0]
              && rows[i].0 == AuthorKey(authors[i].id) && authors[i] in LiveAuthors(t)
    {
      assert rows[i] in rows;
    }
    if complete {
      forall a | a in LiveAuthors(t) ensures a in authors {
        var k :| k in t && IsAuthorRow(k, t[k]) && Expires !in t[k] && a == UnmarshalAuthor(t[k]).value.ToAuthor();
        assert (k, t[k]) in rows;
      }
    }
  }
}
