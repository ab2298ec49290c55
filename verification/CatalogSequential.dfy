/** Properties of runs in which business operations follow one another. */
module CatalogSequential {
  import opened Common
  import opened CatalogItems
  import opened CatalogTable
  import opened CatalogStorage
  import opened CatalogBus

  /** Every live book has a live author. */
  ghost predicate ReferentialIntegrity(t: Table) {
    forall a, b :: BookCell(t, a, b).Live? ==> AuthorCell(t, a).Live?
  }

  function Run(t: Table, ops: seq<BusOp>): Table
    decreases |ops|
  {
    if ops == [] then t else Run(Perform(t, ops[0]), ops[1..])
  }

  // ---- One operation ---------------------------------------------------------

  /** What a business operation that runs alone does to the cell of one author. */
  function AuthorPerformed(op: BusOp, a: string, c: Cell<Author>): Cell<Author> {
    match op
    case CreateAuthor(id, name, bio) => if id == a && name != "" && c.Absent? then Live(Author(id, name, bio)) else c
    case UpdateAuthor(id, name, bio) => if id == a && name != "" && c.Live? then Live(Author(id, name, bio)) else c
    case DeleteAuthor(id, mark, _) => if id == a && c.Live? then Tomb(c.v, mark) else c
    case ExpireExpired(chosen, now) =>
      if AuthorKey(a) in chosen && c.Tomb? && c.expires <= now then Absent else c
    case _ => c
  }

  /** What it does to the cell of one book, given the cell of the book's author. */
  function BookPerformed(op: BusOp, a: string, b: string, author: Cell<Author>, c: Cell<Book>): Cell<Book> {
    match op
    case DeleteAuthor(id, _, stamp) => if id == a && author.Live? && c.Live? then Tomb(c.v, stamp) else c
    case CreateBook(a', id, title, year) =>
      if a' == a && id == b && BookIsValid(title, year) && author.Live? && c.Absent?
      then Live(Book(id, a', title, year)) else c
    case UpdateBook(a', id, title, year) =>
      if a' == a && id == b && BookIsValid(title, year) && c.Live? then Live(Book(id, a', title, year)) else c
    case DeleteBook(a', id, mark) => if a' == a && id == b && c.Live? then Tomb(c.v, mark) else c
    case ExpireExpired(chosen, now) =>
      if BookKey(a, b) in chosen && c.Tomb? && c.expires <= now then Absent else c
    case _ => c
  }

  /** Every business operation that runs alone acts on each cell by itself. */
  lemma PerformCells(t: Table, op: BusOp)
    requires WellFormed(t)
    ensures var t' := Perform(t, op);
            && WellFormed(t')
            && (forall a :: AuthorCell(t', a) == AuthorPerformed(op, a, AuthorCell(t, a)))
            && (forall a, b :: BookCell(t', a, b) == BookPerformed(op, a, b, AuthorCell(t, a), BookCell(t, a, b)))
  {
    hide WellFormed, AuthorCell, BookCell, Apply, Cascade;
    match op
    case CreateAuthor(id, name, bio) => Refinement(t, PutAuthor(Author(id, name, bio)));
    case UpdateAuthor(id, name, bio) => Refinement(t, RepoOp.UpdateAuthor(id, name, bio));
    case DeleteAuthor(id, mark, stamp) =>
      Refinement(t, RepoOp.DeleteAuthor(id, mark));
      CascadeKeepsForm(Apply(t, RepoOp.DeleteAuthor(id, mark)), id, stamp);
    case CreateBook(authorID, id, title, year) => Refinement(t, PutBook(Book(id, authorID, title, year)));
    case UpdateBook(authorID, id, title, year) => Refinement(t, RepoOp.UpdateBook(authorID, id, title, year));
    case DeleteBook(authorID, id, mark) => Refinement(t, RepoOp.DeleteBook(authorID, id, mark));
    case ExpireExpired(chosen, now) => Refinement(t, SweepExpired(chosen, now));
  }

  lemma PerformKeepsIntegrity(t: Table, op: BusOp)
    requires WellFormed(t) && ReferentialIntegrity(t)
    ensures ReferentialIntegrity(Perform(t, op))
  {
    hide WellFormed, AuthorCell, BookCell, Perform;
    PerformCells(t, op);
  }

  // ---- Whole runs ------------------------------------------------------------

  lemma {:induction false} RunKeepsIntegrity(t: Table, ops: seq<BusOp>)
    requires WellFormed(t) && ReferentialIntegrity(t)
    ensures WellFormed(Run(t, ops)) && ReferentialIntegrity(Run(t, ops))
    decreases |ops|
  {
    if ops == [] {
    } else {
      PerformCells(t, ops[0]);
      PerformKeepsIntegrity(t, ops[0]);
      RunKeepsIntegrity(Perform(t, ops[0]), ops[1..]);
    }
  }

  /** Every sequential failure-free run from the empty table, with any identifiers
      (repeated ones included), any clock readings and any sweeps. */
  lemma SequentialIntegrity(ops: seq<BusOp>)
    ensures WellFormed(Run(map[], ops)) && ReferentialIntegrity(Run(map[], ops))
  {
    RunKeepsIntegrity(map[], ops);
  }

  function Flatten<T>(lists: seq<seq<T>>): seq<T> {
    if lists == [] then [] else lists[0] + Flatten(lists[1..])
  }

  lemma {:induction false} InFlatten<T>(lists: seq<seq<T>>, x: T)
    ensures x in Flatten(lists) <==> exists i :: 0 <= i < |lists| && x in lists[i]
  {
    if lists == [] {
    } else {
      InFlatten(lists[1..], x);
      if i :| 0 <= i < |lists| && x in lists[i] {
        if i > 0 {
          assert lists[1..][i - 1] == lists[i];
        }
      }
      if x in Flatten(lists[1..]) {
        var i :| 0 <= i < |lists[1..]| && x in lists[1..][i];
        assert lists[i + 1] == lists[1..][i];
      }
    }
  }

  lemma {:induction false} FlattenDistinct<T>(lists: seq<seq<T>>)
    requires forall i | 0 <= i < |lists| :: Distinct(lists[i])
    requires forall i, j, x | 0 <= i < j < |lists| && x in lists[i] :: x !in lists[j]
    ensures Distinct(Flatten(lists))
  {
    if lists == [] {
    } else {
      forall i | 0 <= i < |lists[1..]| ensures lists[1..][i] == lists[i + 1] {
      }
      FlattenDistinct(lists[1..]);
      forall x | x in lists[0] ensures x !in Flatten(lists[1..]) {
        InFlatten(lists[1..], x);
      }
      JoinDistinct(lists[0], Flatten(lists[1..]));
    }
  }

  lemma {:induction false} DistinctMultiplicity<T>(s: seq<T>, x: T)
    requires Distinct(s)
    ensures multiset(s)[x] == if x in s then 1 else 0
  {
    if s == [] {
    } else {
      assert s == [s[0]] + s[1..];
      DistinctMultiplicity(s[1..], x);
    }
  }

  lemma SameMembersSameBag<T>(s: seq<T>, s': seq<T>)
    requires Distinct(s) && Distinct(s')
    ensures multiset(s) == multiset(s') <==> forall x :: x in s <==> x in s'
  {
    if forall x :: x in s <==> x in s' {
      forall x ensures multiset(s)[x] == multiset(s')[x] {
        DistinctMultiplicity(s, x);
        DistinctMultiplicity(s', x);
      }
    }
    if multiset(s) == multiset(s') {
      forall x ensures x in s <==> x in s' {
        assert x in multiset(s) <==> x in multiset(s');
      }
    }
  }

  lemma AuthorBooksFlattened(t: Table, authors: seq<Author>, lists: seq<seq<Book>>, b: Book)
    requires WellFormed(t)
    requires Listing(authors, LiveAuthors(t), true)
    requires |lists| == |authors|
    requires forall i | 0 <= i < |lists| :: Listing(lists[i], LiveBooksOf(t, authors[i].id), true)
    ensures b in Flatten(lists) <==> BookCell(t, b.authorID, b.id) == Live(b) && AuthorCell(t, b.authorID).Live?
  {
    hide WellFormed, AuthorCell, BookCell, LiveBooks, LiveAuthors, Flatten;
    InFlatten(lists, b);
    LiveBooksAreLiveCells(t, b);
    if b in Flatten(lists) {
      var i :| 0 <= i < |lists| && b in lists[i];
      assert authors[i] in authors;
      LiveAuthorsAreLiveCells(t, authors[i]);
    }
    if BookCell(t, b.authorID, b.id) == Live(b) && AuthorCell(t, b.authorID).Live? {
      var a := AuthorCell(t, b.authorID).v;
      RowKinds(t, b.authorID, b.id);
      LiveAuthorsAreLiveCells(t, a);
      var i :| 0 <= i < |authors| && authors[i] == a;
      assert b in LiveBooksOf(t, a.id);
      assert b in lists[i];
    }
  }

  /** ListAllBooks is, as a multiset, the concatenation of ListBooks over ListAuthors
      exactly when no live book is orphaned. */
  lemma AllBooksAreTheAuthorsBooks(t: Table, authors: seq<Author>, lists: seq<seq<Book>>, all: seq<Book>)
    requires WellFormed(t)
    requires Listing(authors, LiveAuthors(t), true)
    requires |lists| == |authors|
    requires forall i | 0 <= i < |lists| :: Listing(lists[i], LiveBooksOf(t, authors[i].id), true)
    requires Listing(all, LiveBooks(t), true)
    ensures ReferentialIntegrity(t) <==> multiset(all) == multiset(Flatten(lists))
  {
    hide WellFormed, AuthorCell, BookCell, LiveBooks, LiveAuthors, Flatten;
    forall i, j, x | 0 <= i < j < |lists| && x in lists[i] ensures x !in lists[j] {
      assert authors[i] in authors && authors[j] in authors;
      LiveAuthorsAreLiveCells(t, authors[i]);
      LiveAuthorsAreLiveCells(t, authors[j]);
    }
    FlattenDistinct(lists);
    SameMembersSameBag(all, Flatten(lists));
    forall b: Book
      ensures b in all <==> BookCell(t, b.authorID, b.id) == Live(b)
      ensures b in Flatten(lists) <==> BookCell(t, b.authorID, b.id) == Live(b) && AuthorCell(t, b.authorID).Live?
    {
      LiveBooksAreLiveCells(t, b);
      AuthorBooksFlattened(t, authors, lists, b);
    }
    if forall b :: b in all <==> b in Flatten(lists) {
      forall a, b | BookCell(t, a, b).Live? ensures AuthorCell(t, a).Live? {
        RowKinds(t, a, b);
        assert BookCell(t, a, b).v in all;
      }
    }
  }

  // ---- A cascade that did not finish -----------------------------------------

  /** The cells after a DeleteAuthor call that wrote its first `written` listed books:
      exactly those are tombstones, and nothing else but the author changed. */
  lemma CascadeCells(t: Table, id: string, log: CascadeLog, a: string, b: string)
    requires WellFormed(t) && AuthorCell(t, id).Live? && log.written <= |log.listed|
    requires Listing(log.listed, LiveBooksOf(t, id), log.complete)
    ensures var t' := AfterCascade(t, id, log);
            && WellFormed(t')
            && AuthorCell(t', a) == (if a == id then Tomb(AuthorCell(t, id).v, log.mark) else AuthorCell(t, a))
            && BookCell(t', a, b) ==
               (if a == id && BookCell(t, a, b).Live? && BookCell(t, a, b).v in log.listed[..log.written]
                then Tomb(BookCell(t, a, b).v, log.stamp) else BookCell(t, a, b))
  {
    hide WellFormed, AuthorCell, BookCell, LiveBooks, Tombstoned, Apply;
    var op := RepoOp.DeleteAuthor(id, log.mark);
    Refinement(t, op);
    MarkedAuthor(t, id, log.mark);
    var t1 := Apply(t, op);
    var books := log.listed[..log.written];
    forall i | 0 <= i < |books| ensures books[i] in LiveBooksOf(t1, id) {
      assert books[i] in log.listed;
    }
    ReputCells(t1, books, log.stamp);
    ReputListed(t1, id, books, log.stamp, a, b);
  }

  lemma ProperPrefix(s: seq<Book>, n: nat)
    requires Distinct(s) && n <= |s|
    ensures n < |s| ==> exists x :: x in s && x !in s[..n]
  {
    if n < |s| {
      assert s[n] in s && s[n] !in s[..n];
    }
  }

  /** What README calls the open gap, exactly: after a DeleteAuthor call, integrity is
      kept if and only if the listing held every live book and all of it was written. */
  lemma CascadeIntegrity(t: Table, id: string, log: CascadeLog)
    requires WellFormed(t) && ReferentialIntegrity(t) && AuthorCell(t, id).Live?
    requires log.written <= |log.listed| && Listing(log.listed, LiveBooksOf(t, id), log.complete)
    ensures ReferentialIntegrity(AfterCascade(t, id, log)) <==>
            log.written == |log.listed| && forall b | b in LiveBooksOf(t, id) :: b in log.listed
  {
    hide WellFormed, AuthorCell, BookCell, LiveBooks, AfterCascade;
    var t' := AfterCascade(t, id, log);
    var done := log.listed[..log.written];
    forall a, b
      ensures AuthorCell(t', a).Live? <==> a != id && AuthorCell(t, a).Live?
      ensures BookCell(t', a, b).Live? <==> BookCell(t, a, b).Live? && !(a == id && BookCell(t, a, b).v in done)
    {
      CascadeCells(t, id, log, a, b);
    }
    if log.written == |log.listed| && forall b | b in LiveBooksOf(t, id) :: b in log.listed {
      assert done == log.listed;
      forall b ensures !BookCell(t', id, b).Live? {
        if BookCell(t, id, b).Live? {
          RowKinds(t, id, b);
          LiveBooksAreLiveCells(t, BookCell(t, id, b).v);
        }
      }
    }
    if ReferentialIntegrity(t') {
      assert forall b :: !BookCell(t', id, b).Live?;
      forall b | b in LiveBooksOf(t, id) ensures b in done {
        LiveBooksAreLiveCells(t, b);
        assert !BookCell(t', id, b.id).Live?;
      }
      ProperPrefix(log.listed, log.written);
    }
  }

  // ---- Retention in sequential runs ------------------------------------------

  /** No sweep of the run comes at or after time e. */
  predicate NoSweepFrom(ops: seq<BusOp>, e: int) {
    forall i | 0 <= i < |ops| && ops[i].ExpireExpired? :: ops[i].now < e
  }

  /** In a run of operations that follow one another a tombstone is kept as it is, expiry
      included, until a sweep that comes at its expiry or later. */
  lemma {:induction false} SequentialRetention(t: Table, ops: seq<BusOp>, a: string, b: string)
    requires WellFormed(t)
    ensures AuthorCell(t, a).Tomb? && NoSweepFrom(ops, AuthorCell(t, a).expires) ==>
              AuthorCell(Run(t, ops), a) == AuthorCell(t, a)
    ensures BookCell(t, a, b).Tomb? && NoSweepFrom(ops, BookCell(t, a, b).expires) ==>
              BookCell(Run(t, ops), a, b) == BookCell(t, a, b)
    decreases |ops|
  {
    hide WellFormed, AuthorCell, BookCell, Perform;
    if ops == [] {
    } else {
      PerformCells(t, ops[0]);
      SequentialRetention(Perform(t, ops[0]), ops[1..], a, b);
    }
  }
}
