/** The service under concurrency: each engine call is one atomic step, and each
    business operation in flight is a process with its own program counter. Clock
    ticks and TTL sweeps may come between any two steps, and any call may fail. */
module CatalogMachine {
  import opened Common
  import opened CatalogItems
  import opened CatalogTable
  import opened CatalogStorage
  import CatalogBus

  /** A business operation in flight, named by the call it is about to make. CascadeStamp
      is about to read the clock, which cannot fail. */
  datatype Proc =
    | AuthorPut(a: Author)
    | AuthorWrite(id: string, name: string, bio: string)
    | AuthorRead(id: string)
    | AuthorMark(id: string, expires: int)
    | CascadeList(id: string)
    | CascadeStamp(id: string, pending: seq<Book>)
    | CascadeWrite(id: string, pending: seq<Book>, expires: int)
    | BookCheck(authorID: string, title: string, year: int)
    | BookPut(b: Book)
    | BookWrite(authorID: string, bookID: string, title: string, year: int)
    | BookRead(authorID: string, bookID: string)
    | BookMark(authorID: string, bookID: string, expires: int)
    | Done(err: Option<CatalogBus.BusError>)

  /** The process holds a list of books that it is going to re-put. */
  predicate Writing(proc: Proc) {
    proc.CascadeStamp? || proc.CascadeWrite?
  }

  datatype State = State(table: Table, now: int, procs: map<nat, Proc>, issued: set<string>)

  /** What a caller may ask for. Read-only operations never change the state and are
      not represented. */
  datatype Request =
    | CreateAuthor(name: string, bio: string)
    | UpdateAuthor(id: string, name: string, bio: string)
    | DeleteAuthor(id: string)
    | CreateBook(authorID: string, title: string, year: int)
    | UpdateBook(authorID: string, bookID: string, title: string, year: int)
    | DeleteBook(authorID: string, bookID: string)

  /** How the environment resolves a call: it fails, or it goes through, with the
      identifier newID returns and the page a query returns. */
  datatype Choice = Fault | Go(id: string, page: seq<Book>, complete: bool)

  datatype Label =
    | Begin(p: nat, req: Request, id: string)
    | Act(p: nat, c: Choice)
    | Tick(d: nat)
    | Sweep(chosen: set<Key>)

  // ---- Steps -----------------------------------------------------------------

  predicate Enabled(s: State, l: Label) {
    match l
    case Begin(p, _, _) => p !in s.procs
    case Act(p, c) =>
      && p in s.procs && !s.procs[p].Done?
      && (s.procs[p].CascadeList? && c.Go? ==>
            Listing(c.page, LiveBooksOf(s.table, s.procs[p].id), c.complete))
      && (s.procs[p].CascadeStamp? ==> c.Go?)
    case Tick(_) => true
    case Sweep(_) => true
  }

  /** The process a request becomes once its arguments are validated, its identifier
      drawn and the clock read. */
  function Started(req: Request, id: string, now: int): Proc {
    match req
    case CreateAuthor(name, bio) =>
      if name == "" then Done(Some(CatalogBus.Validation)) else AuthorPut(Author(id, name, bio))
    case UpdateAuthor(i, name, bio) =>
      if name == "" then Done(Some(CatalogBus.Validation)) else AuthorWrite(i, name, bio)
    case DeleteAuthor(i) => AuthorMark(i, now + RETENTION)
    case CreateBook(a, title, year) =>
      if CatalogBus.BookIsValid(title, year) then BookCheck(a, title, year) else Done(Some(CatalogBus.Validation))
    case UpdateBook(a, b, title, year) =>
      if CatalogBus.BookIsValid(title, year) then BookWrite(a, b, title, year) else Done(Some(CatalogBus.Validation))
    case DeleteBook(a, b) => BookMark(a, b, now + RETENTION)
  }

  function NextBatch(pending: seq<Book>): seq<Book> {
    if |pending| <= BATCH_LIMIT then pending else pending[..BATCH_LIMIT]
  }

  /** The table operation a process is about to perform. */
  function CallOf(proc: Proc): Option<RepoOp> {
    match proc
    case AuthorPut(a) => Some(PutAuthor(a))
    case AuthorWrite(id, name, bio) => Some(RepoOp.UpdateAuthor(id, name, bio))
    case AuthorMark(id, e) => Some(RepoOp.DeleteAuthor(id, e))
    case CascadeWrite(_, pending, e) => Some(TombstoneBatch(NextBatch(pending), e))
    case BookPut(b) => Some(PutBook(b))
    case BookWrite(a, b, title, year) => Some(RepoOp.UpdateBook(a, b, title, year))
    case BookMark(a, b, e) => Some(RepoOp.DeleteBook(a, b, e))
    case _ => None
  }

  function EffectOf(s: State, l: Label): Option<RepoOp>
    requires Enabled(s, l)
  {
    match l
    case Act(p, c) => if c.Go? then CallOf(s.procs[p]) else None
    case Sweep(chosen) => Some(SweepExpired(chosen, s.now))
    case _ => None
  }

  /** Where a process is after its call went through. */
  function Continued(s: State, proc: Proc, c: Choice): Proc
    requires c.Go? && !proc.Done?
  {
    match proc
    case AuthorPut(a) => Done(if Allowed(s.table, PutAuthor(a)) then None else Some(CatalogBus.Clash))
    case AuthorWrite(id, _, _) =>
      if AuthorCell(s.table, id).Live? then AuthorRead(id) else Done(Some(CatalogBus.Missing))
    case AuthorRead(id) => Done(if AuthorCell(s.table, id).Live? then None else Some(CatalogBus.Missing))
    case AuthorMark(id, _) =>
      if AuthorCell(s.table, id).Live? then CascadeList(id) else Done(Some(CatalogBus.Missing))
    case CascadeList(id) => if c.page == [] then Done(None) else CascadeStamp(id, c.page)
    case CascadeStamp(id, pending) => CascadeWrite(id, pending, s.now + RETENTION)
    case CascadeWrite(id, pending, e) =>
      if !Allowed(s.table, TombstoneBatch(NextBatch(pending), e)) then Done(Some(CatalogBus.Internal(Refused)))
      else if |pending| <= BATCH_LIMIT then Done(None)
      else CascadeWrite(id, pending[BATCH_LIMIT..], e)
    case BookCheck(a, title, year) =>
      if AuthorCell(s.table, a).Live? then BookPut(Book(c.id, a, title, year)) else Done(Some(CatalogBus.Missing))
    case BookPut(b) => Done(if Allowed(s.table, PutBook(b)) then None else Some(CatalogBus.Clash))
    case BookWrite(a, b, _, _) =>
      if BookCell(s.table, a, b).Live? then BookRead(a, b) else Done(Some(CatalogBus.Missing))
    case BookRead(a, b) => Done(if BookCell(s.table, a, b).Live? then None else Some(CatalogBus.Missing))
    case BookMark(a, b, _) => Done(if BookCell(s.table, a, b).Live? then None else Some(CatalogBus.Missing))
  }

  function ProcsAfter(s: State, l: Label): map<nat, Proc>
    requires Enabled(s, l)
  {
    match l
    case Begin(p, req, id) => s.procs[p := Started(req, id, s.now)]
    case Act(p, c) =>
      s.procs[p := if c.Go? then Continued(s, s.procs[p], c) else Done(Some(CatalogBus.Internal(Failed)))]
    case _ => s.procs
  }

  /** The identifier newID returns in this step, if any. */
  function DrawnID(s: State, l: Label): Option<string>
    requires Enabled(s, l)
  {
    match l
    case Begin(_, req, id) => if Started(req, id, s.now).AuthorPut? then Some(id) else None
    case Act(p, c) =>
      if c.Go? && s.procs[p].BookCheck? && AuthorCell(s.table, s.procs[p].authorID).Live? then Some(c.id) else None
    case _ => None
  }

  function Step(s: State, l: Label): State
    requires Enabled(s, l)
  {
    State(
      match EffectOf(s, l) case Some(op) => Apply(s.table, op) case None => s.table,
      if l.Tick? then s.now + l.d else s.now,
      ProcsAfter(s, l),
      match DrawnID(s, l) case Some(id) => s.issued + {id} case None => s.issued)
  }

  predicate Init(s: State) {
    s.table == map[] && s.procs == map[] && s.issued == {}
  }

  /** ls leads from s to s'. */
  predicate Reaches(s: State, ls: seq<Label>, s': State)
    decreases |ls|
  {
    if ls == [] then s' == s
    else Enabled(s, ls[0]) && Reaches(Step(s, ls[0]), ls[1..], s')
  }

  /** No step draws an identifier that was drawn before. */
  predicate Fresh(s: State, l: Label)
    requires Enabled(s, l)
  {
    DrawnID(s, l).Some? ==> DrawnID(s, l).value !in s.issued
  }

  predicate NonRepeating(s: State, ls: seq<Label>)
    decreases |ls|
  {
    ls == [] || (Enabled(s, ls[0]) ==> Fresh(s, ls[0]) && NonRepeating(Step(s, ls[0]), ls[1..]))
  }

  /** Every call goes through. */
  predicate NoFailure(ls: seq<Label>) {
    forall i | 0 <= i < |ls| && ls[i].Act? :: ls[i].c.Go?
  }

  // ---- Runs put together -----------------------------------------------------

  predicate GoesThrough(l: Label) {
    l.Act? ==> l.c.Go?
  }

  lemma ReachesThree(s: State, l0: Label, l1: Label, l2: Label)
    requires Enabled(s, l0) && Enabled(Step(s, l0), l1) && Enabled(Step(Step(s, l0), l1), l2)
    ensures Reaches(s, [l0, l1, l2], Step(Step(Step(s, l0), l1), l2))
    ensures Fresh(s, l0) && Fresh(Step(s, l0), l1) && Fresh(Step(Step(s, l0), l1), l2) ==>
              NonRepeating(s, [l0, l1, l2])
    ensures GoesThrough(l0) && GoesThrough(l1) && GoesThrough(l2) ==> NoFailure([l0, l1, l2])
  {
    hide Step, Enabled, Fresh;
    assert [l0, l1, l2][1..] == [l1, l2];
    assert [l1, l2][1..] == [l2];
    assert [l2][1..] == [];
    assert Reaches(Step(Step(s, l0), l1), [l2], Step(Step(Step(s, l0), l1), l2));
    assert Reaches(Step(s, l0), [l1, l2], Step(Step(Step(s, l0), l1), l2));
    if Fresh(s, l0) && Fresh(Step(s, l0), l1) && Fresh(Step(Step(s, l0), l1), l2) {
      assert NonRepeating(Step(Step(s, l0), l1), [l2]);
      assert NonRepeating(Step(s, l0), [l1, l2]);
    }
  }

  lemma {:induction false} ReachesAppend(s: State, xs: seq<Label>, s1: State, ys: seq<Label>, s2: State)
    requires Reaches(s, xs, s1) && Reaches(s1, ys, s2)
    ensures Reaches(s, xs + ys, s2)
    ensures NonRepeating(s, xs) && NonRepeating(s1, ys) ==> NonRepeating(s, xs + ys)
    ensures NoFailure(xs) && NoFailure(ys) ==> NoFailure(xs + ys)
    decreases |xs|
  {
    hide Step, Enabled, Fresh;
    if xs == [] {
      assert xs + ys == ys;
    } else {
      assert (xs + ys)[0] == xs[0] && (xs + ys)[1..] == xs[1..] + ys;
      ReachesAppend(Step(s, xs[0]), xs[1..], s1, ys, s2);
    }
  }

  lemma StepThen(s: State, l: Label, ls: seq<Label>, s': State)
    requires Enabled(s, l) && Fresh(s, l) && Reaches(Step(s, l), ls, s') && NonRepeating(Step(s, l), ls)
    ensures Reaches(s, [l] + ls, s') && NonRepeating(s, [l] + ls)
    ensures GoesThrough(l) && NoFailure(ls) ==> NoFailure([l] + ls)
  {
    assert ([l] + ls)[1..] == ls;
  }

  lemma NoStep(s: State)
    ensures Reaches(s, [], s) && NonRepeating(s, []) && NoFailure([])
  {
  }

  lemma OneStep(s: State, l: Label)
    requires Enabled(s, l) && Fresh(s, l)
    ensures Reaches(s, [l], Step(s, l)) && NonRepeating(s, [l])
    ensures GoesThrough(l) ==> NoFailure([l])
  {
    assert [l][1..] == [];
  }

  // ---- What a step does to the table -----------------------------------------

  lemma StepTable(s: State, l: Label)
    requires WellFormed(s.table) && Enabled(s, l)
    ensures WellFormed(Step(s, l).table)
    ensures EffectOf(s, l) == None ==> Step(s, l).table == s.table
    ensures EffectOf(s, l).Some? ==> CellsFollow(s.table, EffectOf(s, l).value, Step(s, l).table)
  {
    hide WellFormed, CellsFollow, Apply, Enabled, CallOf;
    if EffectOf(s, l).Some? {
      Refinement(s.table, EffectOf(s, l).value);
    }
  }

  /** Every step keeps the table well formed, so the repository's query results mean
      the same in every reachable state. */
  lemma {:induction false} ReachableWellFormed(s: State, ls: seq<Label>, s': State)
    requires WellFormed(s.table) && Reaches(s, ls, s')
    ensures WellFormed(s'.table)
    decreases |ls|
  {
    hide WellFormed, Step;
    if ls == [] {
    } else {
      StepTable(s, ls[0]);
      ReachableWellFormed(Step(s, ls[0]), ls[1..], s');
    }
  }

  /** The life cycle of every key over every interleaving: with any clock, any
      failures, and even repeated identifiers. */
  lemma StepLifeCycle(s: State, l: Label, a: string, b: string)
    requires WellFormed(s.table) && Enabled(s, l)
    ensures var t, t' := s.table, Step(s, l).table;
            match EffectOf(s, l)
            case None => t' == t
            case Some(op) =>
              && AuthorTransition(op, a, AuthorCell(t, a), AuthorCell(t', a))
              && BookTransition(op, a, b, BookCell(t, a, b), BookCell(t', a, b))
  {
    hide WellFormed, AuthorCell, BookCell, Apply, Enabled, CallOf, AuthorTransition, BookTransition;
    if EffectOf(s, l).Some? {
      LifeCycle(s.table, EffectOf(s, l).value, a, b);
    }
  }

  // ---- The invariant ---------------------------------------------------------

  /** The identifier was drawn and no process is still about to put it. */
  predicate SpentAuthor(s: State, id: string) {
    id in s.issued && forall p | p in s.procs && s.procs[p].AuthorPut? :: s.procs[p].a.id != id
  }

  predicate SpentBook(s: State, id: string) {
    id in s.issued && forall p | p in s.procs && s.procs[p].BookPut? :: s.procs[p].b.id != id
  }

  predicate ProcOk(s: State, proc: Proc) {
    match proc
    case AuthorPut(a) => a.id in s.issued
    case BookPut(b) => b.id in s.issued
    case CascadeList(id) => SpentAuthor(s, id) && !AuthorCell(s.table, id).Live?
    case CascadeStamp(id, pending) => PendingOk(s, id, pending)
    case CascadeWrite(id, pending, _) => PendingOk(s, id, pending)
    case _ => true
  }

  predicate PendingOk(s: State, id: string, pending: seq<Book>) {
    && SpentAuthor(s, id) && !AuthorCell(s.table, id).Live?
    && pending != [] && DistinctBooks(pending)
    && (forall i | 0 <= i < |pending| :: pending[i].authorID == id && SpentBook(s, pending[i].id))
  }

  ghost predicate Inv(s: State) {
    && WellFormed(s.table)
    && (forall id :: !AuthorCell(s.table, id).Absent? ==> SpentAuthor(s, id))
    && (forall a, b :: !BookCell(s.table, a, b).Absent? ==> SpentBook(s, b))
    && (forall p | p in s.procs :: ProcOk(s, s.procs[p]))
    && (forall p, q | p in s.procs && q in s.procs && p != q && s.procs[p].AuthorPut? && s.procs[q].AuthorPut? ::
          s.procs[p].a.id != s.procs[q].a.id)
    && (forall p, q | p in s.procs && q in s.procs && p != q && s.procs[p].BookPut? && s.procs[q].BookPut? ::
          s.procs[p].b.id != s.procs[q].b.id)
  }

  lemma InvForm(s: State)
    requires Inv(s)
    ensures WellFormed(s.table)
  {
  }

  // ---- Every step keeps the invariant ----------------------------------------

  /** An author cell comes into being, or to life, only by the put of a CreateAuthor. */
  lemma AuthorComesFromPut(s: State, l: Label, id: string)
    requires WellFormed(s.table) && Enabled(s, l)
    requires var c, c' := AuthorCell(s.table, id), AuthorCell(Step(s, l).table, id);
             (c'.Live? && !c.Live?) || (c.Absent? && !c'.Absent?)
    ensures l.Act? && l.c.Go? && s.procs[l.p].AuthorPut? && s.procs[l.p].a.id == id
  {
    hide WellFormed, AuthorCell, Step, Apply;
    StepTable(s, l);
  }

  /** A book cell comes to life only by the put of a CreateBook, and comes into being
      only by that or by the write of a cascade that had listed the book. */
  lemma BookComesFromPut(s: State, l: Label, a: string, b: string)
    requires WellFormed(s.table) && Enabled(s, l)
    requires var c, c' := BookCell(s.table, a, b), BookCell(Step(s, l).table, a, b);
             (c'.Live? && !c.Live?) || (c.Absent? && !c'.Absent?)
    ensures l.Act? && l.c.Go?
    ensures (s.procs[l.p].BookPut? && s.procs[l.p].b.authorID == a && s.procs[l.p].b.id == b) ||
            (!BookCell(Step(s, l).table, a, b).Live? && s.procs[l.p].CascadeWrite? &&
             exists i :: 0 <= i < |s.procs[l.p].pending| && s.procs[l.p].pending[i].id == b)
  {
    hide WellFormed, BookCell, Step, Apply;
    StepTable(s, l);
    if l.Act? && l.c.Go? && s.procs[l.p].CascadeWrite? {
      var batch := NextBatch(s.procs[l.p].pending);
      ReputIsTomb(batch, s.procs[l.p].expires, a, b, BookCell(s.table, a, b));
      assert forall i | 0 <= i < |batch| :: batch[i] == s.procs[l.p].pending[i];
    }
  }

  /** Spent identifiers stay spent as long as identifiers do not repeat. */
  lemma SpentStays(s: State, l: Label, id: string)
    requires Enabled(s, l) && Fresh(s, l)
    ensures SpentAuthor(s, id) ==> SpentAuthor(Step(s, l), id)
    ensures SpentBook(s, id) ==> SpentBook(Step(s, l), id)
  {
    hide Listing, Apply, Allowed, AuthorCell, BookCell;
  }

  /** The process that puts an identifier is gone once it has put it. */
  lemma PutSpends(s: State, l: Label)
    requires Inv(s) && Enabled(s, l) && l.Act? && l.c.Go?
    ensures s.procs[l.p].AuthorPut? ==> SpentAuthor(Step(s, l), s.procs[l.p].a.id)
    ensures s.procs[l.p].BookPut? ==> SpentBook(Step(s, l), s.procs[l.p].b.id)
  {
    hide Listing, Apply, Allowed, AuthorCell, BookCell, WellFormed;
  }

  lemma AuthorsSpent(s: State, l: Label, id: string)
    requires Inv(s) && Enabled(s, l) && Fresh(s, l)
    requires !AuthorCell(Step(s, l).table, id).Absent?
    ensures SpentAuthor(Step(s, l), id)
  {
    hide WellFormed, AuthorCell, BookCell, Step, SpentAuthor, SpentBook, Fresh, Enabled;
    SpentStays(s, l, id);
    if AuthorCell(s.table, id).Absent? {
      AuthorComesFromPut(s, l, id);
      PutSpends(s, l);
    }
  }

  lemma BooksSpent(s: State, l: Label, a: string, b: string)
    requires Inv(s) && Enabled(s, l) && Fresh(s, l)
    requires !BookCell(Step(s, l).table, a, b).Absent?
    ensures SpentBook(Step(s, l), b)
  {
    hide WellFormed, AuthorCell, BookCell, Step, SpentAuthor, SpentBook, Fresh;
    SpentStays(s, l, b);
    if BookCell(s.table, a, b).Absent? {
      BookComesFromPut(s, l, a, b);
      PutSpends(s, l);
      assert ProcOk(s, s.procs[l.p]);
    }
  }

  /** An author whose identifier is spent never comes back to life. */
  lemma DeadAuthorStays(s: State, l: Label, id: string)
    requires WellFormed(s.table) && Enabled(s, l)
    requires SpentAuthor(s, id) && !AuthorCell(s.table, id).Live?
    ensures !AuthorCell(Step(s, l).table, id).Live?
  {
    hide WellFormed, AuthorCell, Step;
    if AuthorCell(Step(s, l).table, id).Live? {
      AuthorComesFromPut(s, l, id);
    }
  }

  lemma DeadBookStays(s: State, l: Label, a: string, b: string)
    requires WellFormed(s.table) && Enabled(s, l)
    requires SpentBook(s, b) && !BookCell(s.table, a, b).Live?
    ensures !BookCell(Step(s, l).table, a, b).Live?
  {
    hide WellFormed, BookCell, Step;
    if BookCell(Step(s, l).table, a, b).Live? {
      BookComesFromPut(s, l, a, b);
    }
  }

  lemma PendingStaysOk(s: State, l: Label, id: string, pending: seq<Book>)
    requires Inv(s) && Enabled(s, l) && Fresh(s, l) && PendingOk(s, id, pending)
    ensures PendingOk(Step(s, l), id, pending)
  {
    hide WellFormed, AuthorCell, BookCell, Step, SpentAuthor, SpentBook, Enabled, Fresh;
    SpentStays(s, l, id);
    DeadAuthorStays(s, l, id);
    forall i | 0 <= i < |pending| ensures SpentBook(Step(s, l), pending[i].id) {
      SpentStays(s, l, pending[i].id);
    }
  }

  lemma IssuedGrows(s: State, l: Label)
    requires Enabled(s, l)
    ensures s.issued <= Step(s, l).issued
  {
    hide AuthorCell, BookCell, Apply, Continued, EffectOf;
  }

  lemma ProcIsOk(s: State, p: nat)
    requires Inv(s) && p in s.procs
    ensures ProcOk(s, s.procs[p])
  {
    hide ProcOk, WellFormed, AuthorCell, BookCell, SpentAuthor, SpentBook;
  }

  /** Processes that do not act stay as they should be. */
  lemma BystanderOk(s: State, l: Label, p: nat)
    requires Inv(s) && Enabled(s, l) && Fresh(s, l)
    requires p in s.procs
    ensures ProcOk(Step(s, l), s.procs[p])
  {
    IssuedGrows(s, l);
    ProcIsOk(s, p);
    InvForm(s);
    hide Inv, WellFormed, AuthorCell, BookCell, Step, SpentAuthor, SpentBook, Enabled, Fresh, PendingOk;
    match s.procs[p]
    case CascadeList(id) =>
      SpentStays(s, l, id);
      DeadAuthorStays(s, l, id);
    case CascadeStamp(id, pending) => PendingStaysOk(s, l, id, pending);
    case CascadeWrite(id, pending, _) => PendingStaysOk(s, l, id, pending);
    case _ =>
  }

  /** The acting process of a cascade moves to a state as it should be. */
  lemma CascadeActs(s: State, l: Label)
    requires Inv(s) && Enabled(s, l) && Fresh(s, l) && l.Act? && l.c.Go?
    requires s.procs[l.p].AuthorMark? || s.procs[l.p].CascadeList? || Writing(s.procs[l.p])
    ensures ProcOk(Step(s, l), Continued(s, s.procs[l.p], l.c))
  {
    hide Step, Inv, Fresh, ProcOk;
    match s.procs[l.p]
    case AuthorMark(_, _) => MarkActs(s, l);
    case CascadeList(_) => ListActs(s, l);
    case CascadeStamp(_, _) => StampActs(s, l);
    case CascadeWrite(_, _, _) => WriteActs(s, l);
  }

  lemma MarkActs(s: State, l: Label)
    requires Inv(s) && Enabled(s, l) && Fresh(s, l) && l.Act? && l.c.Go? && s.procs[l.p].AuthorMark?
    ensures ProcOk(Step(s, l), Continued(s, s.procs[l.p], l.c))
  {
    hide WellFormed, AuthorCell, BookCell, Step, SpentAuthor, SpentBook, Fresh;
    var id := s.procs[l.p].id;
    if AuthorCell(s.table, id).Live? {
      SpentStays(s, l, id);
      StepTable(s, l);
    }
  }

  lemma ListActs(s: State, l: Label)
    requires Inv(s) && Enabled(s, l) && Fresh(s, l) && l.Act? && l.c.Go? && s.procs[l.p].CascadeList?
    ensures ProcOk(Step(s, l), Continued(s, s.procs[l.p], l.c))
  {
    assert ProcOk(s, s.procs[l.p]);
    hide WellFormed, AuthorCell, BookCell, Step, SpentAuthor, SpentBook, Fresh, DistinctBooks, LiveBooksOf;
    ListedBooksOk(s, s.procs[l.p].id, l.c);
    if l.c.page != [] {
      PendingStaysOk(s, l, s.procs[l.p].id, l.c.page);
    }
  }

  lemma StampActs(s: State, l: Label)
    requires Inv(s) && Enabled(s, l) && Fresh(s, l) && l.Act? && l.c.Go? && s.procs[l.p].CascadeStamp?
    ensures ProcOk(Step(s, l), Continued(s, s.procs[l.p], l.c))
  {
    assert ProcOk(s, s.procs[l.p]);
    hide WellFormed, AuthorCell, BookCell, Step, Fresh, PendingOk;
    PendingStaysOk(s, l, s.procs[l.p].id, s.procs[l.p].pending);
  }

  lemma WriteActs(s: State, l: Label)
    requires Inv(s) && Enabled(s, l) && Fresh(s, l) && l.Act? && l.c.Go? && s.procs[l.p].CascadeWrite?
    ensures ProcOk(Step(s, l), Continued(s, s.procs[l.p], l.c))
  {
    assert ProcOk(s, s.procs[l.p]);
    hide WellFormed, AuthorCell, BookCell, Step, SpentAuthor, SpentBook, Fresh, DistinctBooks, Allowed;
    var pending := s.procs[l.p].pending;
    if |pending| > BATCH_LIMIT {
      var rest := pending[BATCH_LIMIT..];
      SliceDistinct(pending, BATCH_LIMIT, |pending|);
      assert forall i | 0 <= i < |rest| :: rest[i] == pending[BATCH_LIMIT + i];
      PendingStaysOk(s, l, s.procs[l.p].id, rest);
    }
  }

  lemma ListedBooksOk(s: State, id: string, c: Choice)
    requires Inv(s) && c.Go? && Listing(c.page, LiveBooksOf(s.table, id), c.complete)
    ensures DistinctBooks(c.page)
    ensures forall i | 0 <= i < |c.page| :: c.page[i].authorID == id && SpentBook(s, c.page[i].id)
  {
    hide WellFormed, AuthorCell, BookCell, SpentAuthor, SpentBook, LiveBooksOf, Listing;
    CatalogBus.ListedBooksDistinct(s.table, id, c.page, c.complete);
  }

  /** A process about to put was already about to, or has just drawn its identifier. */
  lemma PutOrigin(s: State, l: Label, p: nat)
    requires Enabled(s, l) && p in Step(s, l).procs
    ensures var proc := Step(s, l).procs[p];
            && (proc.AuthorPut? && !(p in s.procs && s.procs[p] == proc) ==> DrawnID(s, l) == Some(proc.a.id))
            && (proc.BookPut? && !(p in s.procs && s.procs[p] == proc) ==> DrawnID(s, l) == Some(proc.b.id))
            && (!(p in s.procs && s.procs[p] == proc) ==> (l.Act? || l.Begin?) && p == l.p)
    ensures DrawnID(s, l).Some? ==> DrawnID(s, l).value in Step(s, l).issued
  {
    hide AuthorCell, BookCell, Listing, Apply, Allowed;
  }

  lemma CascadeOrigin(s: State, l: Label, p: nat)
    requires Enabled(s, l) && p in Step(s, l).procs
    requires !(p in s.procs && s.procs[p] == Step(s, l).procs[p])
    ensures var proc := Step(s, l).procs[p];
            proc.CascadeList? || Writing(proc) ==>
              l.Act? && l.c.Go? && p == l.p && proc == Continued(s, s.procs[p], l.c)
              && (s.procs[p].AuthorMark? || s.procs[p].CascadeList? || Writing(s.procs[p]))
  {
    hide AuthorCell, BookCell, Listing, Apply, Allowed, EffectOf, DrawnID;
  }

  lemma ProcsStayOk(s: State, l: Label, p: nat)
    requires Inv(s) && Enabled(s, l) && Fresh(s, l)
    requires p in Step(s, l).procs
    ensures ProcOk(Step(s, l), Step(s, l).procs[p])
  {
    hide WellFormed, AuthorCell, BookCell, SpentAuthor, SpentBook, PendingOk, Step, Enabled, DrawnID, Fresh, Continued;
    PutOrigin(s, l, p);
    if p in s.procs && s.procs[p] == Step(s, l).procs[p] {
      BystanderOk(s, l, p);
    } else {
      CascadeOrigin(s, l, p);
      if Step(s, l).procs[p].CascadeList? || Writing(Step(s, l).procs[p]) {
        CascadeActs(s, l);
      }
    }
  }

  lemma PutsStayDistinct(s: State, l: Label)
    requires Inv(s) && Enabled(s, l) && Fresh(s, l)
    ensures var ps := Step(s, l).procs;
            && (forall p, q | p in ps && q in ps && p != q && ps[p].AuthorPut? && ps[q].AuthorPut? ::
                  ps[p].a.id != ps[q].a.id)
            && (forall p, q | p in ps && q in ps && p != q && ps[p].BookPut? && ps[q].BookPut? ::
                  ps[p].b.id != ps[q].b.id)
  {
    forall p | p in s.procs
      ensures s.procs[p].AuthorPut? ==> s.procs[p].a.id in s.issued
      ensures s.procs[p].BookPut? ==> s.procs[p].b.id in s.issued
    {
      assert ProcOk(s, s.procs[p]);
    }
    hide WellFormed, AuthorCell, BookCell, SpentAuthor, SpentBook, ProcOk, Step, Enabled;
    forall p | p in Step(s, l).procs {
      PutOrigin(s, l, p);
    }
  }

  lemma InvStep(s: State, l: Label)
    requires Inv(s) && Enabled(s, l) && Fresh(s, l)
    ensures Inv(Step(s, l))
  {
    hide WellFormed, AuthorCell, BookCell, SpentAuthor, SpentBook, Enabled, Fresh, Step, ProcOk;
    StepTable(s, l);
    forall id | !AuthorCell(Step(s, l).table, id).Absent? ensures SpentAuthor(Step(s, l), id) {
      AuthorsSpent(s, l, id);
    }
    forall a, b | !BookCell(Step(s, l).table, a, b).Absent? ensures SpentBook(Step(s, l), b) {
      BooksSpent(s, l, a, b);
    }
    forall p | p in Step(s, l).procs ensures ProcOk(Step(s, l), Step(s, l).procs[p]) {
      ProcsStayOk(s, l, p);
    }
    PutsStayDistinct(s, l);
  }

  lemma InvInit(s: State)
    requires Init(s)
    ensures Inv(s)
  {
  }

  lemma {:induction false} InvReaches(s: State, ls: seq<Label>, s': State)
    requires Inv(s) && Reaches(s, ls, s') && NonRepeating(s, ls)
    ensures Inv(s')
    decreases |ls|
  {
    hide Inv, Step, Fresh, Enabled;
    if ls == [] {
    } else {
      InvStep(s, ls[0]);
      InvReaches(Step(s, ls[0]), ls[1..], s');
    }
  }
}
