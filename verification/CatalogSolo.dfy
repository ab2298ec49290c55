/** A process of the step system that runs without interference, while the clock goes on,
    does what the business operation does on its own: the steps refine `Perform`. */
module CatalogSolo {
  import opened Common
  import opened CatalogItems
  import opened CatalogTable
  import opened CatalogStorage
  import opened CatalogMachine
  import CatalogCascade
  import CatalogBus

  type BusOp = CatalogBus.BusOp
  type BusError = CatalogBus.BusError

  /** What a caller is told when nothing fails and nothing interferes. */
  function Outcome(t: Table, op: BusOp): Option<BusError> {
    match op
    case CreateAuthor(id, name, _) =>
      if name == "" then Some(CatalogBus.Validation) else UnlessTaken(AuthorCell(t, id))
    case UpdateAuthor(id, name, _) =>
      if name == "" then Some(CatalogBus.Validation) else UnlessMissing(AuthorCell(t, id))
    case DeleteAuthor(id, _, _) => UnlessMissing(AuthorCell(t, id))
    case CreateBook(a, id, title, year) =>
      if title == "" || year <= 0 then Some(CatalogBus.Validation)
      else if !AuthorCell(t, a).Live? then Some(CatalogBus.Missing)
      else UnlessTaken(BookCell(t, a, id))
    case UpdateBook(a, id, title, year) =>
      if title == "" || year <= 0 then Some(CatalogBus.Validation) else UnlessMissing(BookCell(t, a, id))
    case DeleteBook(a, id, _) => UnlessMissing(BookCell(t, a, id))
    case ExpireExpired(_, _) => None
  }

  function UnlessTaken<V>(c: Cell<V>): Option<BusError> {
    if c.Absent? then None else Some(CatalogBus.Clash)
  }

  function UnlessMissing<V>(c: Cell<V>): Option<BusError> {
    if c.Live? then None else Some(CatalogBus.Missing)
  }

  /** An expiry an hour after a clock reading between `now` and `end`. */
  predicate ReadBetween(now: int, expires: int, end: int) {
    now + 3600 <= expires <= end + 3600
  }

  /** The operation is the one requested, with some identifier drawn for it. The clock read
      `now` when it started, which is the reading its mark is due an hour after; the
      cascade reads the clock again, no later than `end`. */
  predicate Answers(req: Request, now: int, end: int, op: BusOp) {
    match (req, op)
    case (CreateAuthor(name, bio), CreateAuthor(_, name', bio')) => name' == name && bio' == bio
    case (UpdateAuthor(id, name, bio), UpdateAuthor(id', name', bio')) => id' == id && name' == name && bio' == bio
    case (DeleteAuthor(id), DeleteAuthor(id', mark, stamp)) =>
      id' == id && mark == now + 3600 && ReadBetween(now, stamp, end)
    case (CreateBook(a, title, year), CreateBook(a', _, title', year')) => a' == a && title' == title && year' == year
    case (UpdateBook(a, b, title, year), UpdateBook(a', b', title', year')) =>
      a' == a && b' == b && title' == title && year' == year
    case (DeleteBook(a, b), DeleteBook(a', b', mark)) => a' == a && b' == b && mark == now + 3600
    case _ => false
  }

  /** Only process p acts, though time may pass; no call fails; every listing is complete. */
  predicate Alone(ls: seq<Label>, p: nat) {
    forall i | 0 <= i < |ls| :: ls[i].Tick? || (ls[i].Act? && ls[i].p == p && ls[i].c.Go? && ls[i].c.complete)
  }

  /** Left to itself from this point, with the clock at `end` when it is done, the process
      leaves table t' and returns err. */
  ghost predicate Finishes(t: Table, now: int, proc: Proc, end: int, t': Table, err: Option<BusError>) {
    match proc
    case AuthorPut(a) => t' == Apply(t, PutAuthor(a)) && err == UnlessTaken(AuthorCell(t, a.id))
    case AuthorWrite(id, name, bio) =>
      t' == Apply(t, RepoOp.UpdateAuthor(id, name, bio)) && err == UnlessMissing(AuthorCell(t, id))
    case AuthorRead(id) => t' == t && err == UnlessMissing(AuthorCell(t, id))
    case AuthorMark(id, e) =>
      if AuthorCell(t, id).Live?
      then Cascaded(Apply(t, RepoOp.DeleteAuthor(id, e)), now, id, end, t') && err == None
      else t' == t && err == Some(CatalogBus.Missing)
    case CascadeList(id) => Cascaded(t, now, id, end, t') && err == None
    case CascadeStamp(_, pending) =>
      (exists stamp :: ReadBetween(now, stamp, end) && t' == Tombstoned(t, pending, stamp)) && err == None
    case CascadeWrite(_, pending, e) => t' == Tombstoned(t, pending, e) && err == None
    case BookCheck(a, title, year) =>
      if AuthorCell(t, a).Live?
      then exists id :: t' == Apply(t, PutBook(Book(id, a, title, year))) && err == UnlessTaken(BookCell(t, a, id))
      else t' == t && err == Some(CatalogBus.Missing)
    case BookPut(b) => t' == Apply(t, PutBook(b)) && err == UnlessTaken(BookCell(t, b.authorID, b.id))
    case BookWrite(a, b, title, year) =>
      t' == Apply(t, RepoOp.UpdateBook(a, b, title, year)) && err == UnlessMissing(BookCell(t, a, b))
    case BookRead(a, b) => t' == t && err == UnlessMissing(BookCell(t, a, b))
    case BookMark(a, b, e) => t' == Apply(t, RepoOp.DeleteBook(a, b, e)) && err == UnlessMissing(BookCell(t, a, b))
    case Done(e) => t' == t && err == e
  }

  ghost predicate Cascaded(t: Table, now: int, id: string, end: int, t': Table) {
    exists stamp :: ReadBetween(now, stamp, end) && t' == CatalogBus.Cascade(t, id, stamp)
  }

  /** A cascade never holds an empty or repeating list of books to write. */
  predicate Ready(proc: Proc) {
    Writing(proc) ==> proc.pending != [] && DistinctBooks(proc.pending)
  }

  // ---- One step --------------------------------------------------------------

  /** A step of the listing or writing stage leaves as much to do as it did. */
  lemma ListingStep(s: State, p: nat, c: Choice, end: int, t': Table, err: Option<BusError>)
    requires WellFormed(s.table) && p in s.procs && s.procs[p].CascadeList?
    requires c.Go? && c.complete && Enabled(s, Act(p, c)) && s.now <= end
    requires var s1 := Step(s, Act(p, c)); Finishes(s1.table, s1.now, s1.procs[p], end, t', err)
    ensures Finishes(s.table, s.now, s.procs[p], end, t', err)
  {
    hide WellFormed, Listing, LiveBooksOf, DistinctBooks, CatalogBus.Cascade, Tombstoned;
    var id := s.procs[p].id;
    CatalogBus.ListedBooksDistinct(s.table, id, c.page, true);
    forall stamp ensures Tombstoned(s.table, c.page, stamp) == CatalogBus.Cascade(s.table, id, stamp) {
      CatalogBus.CompleteListingCascades(s.table, id, c.page, stamp);
    }
    CatalogBus.NothingTombstoned(s.table, [], s.now + RETENTION);
    assert ReadBetween(s.now, s.now + RETENTION, end);
  }

  lemma StampStep(s: State, p: nat, c: Choice, end: int, t': Table, err: Option<BusError>)
    requires p in s.procs && s.procs[p].CascadeStamp? && c.Go? && Enabled(s, Act(p, c)) && s.now <= end
    requires var s1 := Step(s, Act(p, c)); Finishes(s1.table, s1.now, s1.procs[p], end, t', err)
    ensures Finishes(s.table, s.now, s.procs[p], end, t', err)
  {
    hide Tombstoned;
    assert ReadBetween(s.now, s.now + RETENTION, end);
  }

  lemma WritingStep(s: State, p: nat, c: Choice, end: int, t': Table, err: Option<BusError>)
    requires WellFormed(s.table) && p in s.procs && s.procs[p].CascadeWrite? && Ready(s.procs[p])
    requires c.Go? && Enabled(s, Act(p, c))
    requires var s1 := Step(s, Act(p, c)); Finishes(s1.table, s1.now, s1.procs[p], end, t', err)
    ensures Finishes(s.table, s.now, s.procs[p], end, t', err)
  {
    hide WellFormed, DistinctBooks, BatchAccepted, Tombstoned, TombRows;
    var pending, e := s.procs[p].pending, s.procs[p].expires;
    var end := |NextBatch(pending)|;
    assert NextBatch(pending) == pending[0..end] == pending[..end];
    SliceDistinct(pending, 0, end);
    AcceptedBatch(NextBatch(pending), e);
    assert pending[end..] == pending[end..|pending|] && pending[..|pending|] == pending;
    if end < |pending| {
      BatchExtends(s.table, pending, end, |pending|, e);
    }
  }

  lemma BookCheckStep(s: State, p: nat, c: Choice, end: int, t': Table, err: Option<BusError>)
    requires p in s.procs && s.procs[p].BookCheck? && c.Go? && Enabled(s, Act(p, c))
    requires var s1 := Step(s, Act(p, c)); Finishes(s1.table, s1.now, s1.procs[p], end, t', err)
    ensures Finishes(s.table, s.now, s.procs[p], end, t', err)
  {
    hide Apply, AuthorCell, BookCell;
  }

  /** An update is read back as it was written. */
  lemma UpdateStep(s: State, p: nat, c: Choice, end: int, t': Table, err: Option<BusError>)
    requires WellFormed(s.table) && p in s.procs && c.Go? && Enabled(s, Act(p, c))
    requires s.procs[p].AuthorWrite? || s.procs[p].BookWrite?
    requires var s1 := Step(s, Act(p, c)); Finishes(s1.table, s1.now, s1.procs[p], end, t', err)
    ensures Finishes(s.table, s.now, s.procs[p], end, t', err)
  {
    hide WellFormed, Apply, AuthorCell, BookCell, DrawnID;
    Refinement(s.table, CallOf(s.procs[p]).value);
  }

  lemma SimpleStep(s: State, p: nat, c: Choice, end: int, t': Table, err: Option<BusError>)
    requires WellFormed(s.table) && p in s.procs && c.Go? && Enabled(s, Act(p, c))
    requires !s.procs[p].CascadeList? && !Writing(s.procs[p]) && !s.procs[p].BookCheck?
    requires !s.procs[p].AuthorWrite? && !s.procs[p].BookWrite?
    requires var s1 := Step(s, Act(p, c)); Finishes(s1.table, s1.now, s1.procs[p], end, t', err)
    ensures Finishes(s.table, s.now, s.procs[p], end, t', err)
  {
    hide WellFormed, Apply, AuthorCell, BookCell, Cascaded, CellsFollow, Listing, DrawnID;
    if s.procs[p].AuthorMark? {
      Refinement(s.table, CallOf(s.procs[p]).value);
    }
  }

  lemma SoloStep(s: State, p: nat, c: Choice, end: int, t': Table, err: Option<BusError>)
    requires WellFormed(s.table) && p in s.procs && Ready(s.procs[p])
    requires c.Go? && c.complete && Enabled(s, Act(p, c)) && s.now <= end
    requires var s1 := Step(s, Act(p, c)); Finishes(s1.table, s1.now, s1.procs[p], end, t', err)
    ensures Finishes(s.table, s.now, s.procs[p], end, t', err)
  {
    hide WellFormed, Step, Finishes, Ready, Enabled;
    match s.procs[p]
    case CascadeList(_) => ListingStep(s, p, c, end, t', err);
    case CascadeStamp(_, _) => StampStep(s, p, c, end, t', err);
    case CascadeWrite(_, _, _) => WritingStep(s, p, c, end, t', err);
    case BookCheck(_, _, _) => BookCheckStep(s, p, c, end, t', err);
    case AuthorWrite(_, _, _) => UpdateStep(s, p, c, end, t', err);
    case BookWrite(_, _, _, _) => UpdateStep(s, p, c, end, t', err);
    case _ => SimpleStep(s, p, c, end, t', err);
  }

  lemma TimePasses(s: State, p: nat, d: nat, end: int, t': Table, err: Option<BusError>)
    requires p in s.procs
    requires var s1 := Step(s, Tick(d)); Finishes(s1.table, s1.now, s1.procs[p], end, t', err)
    ensures Finishes(s.table, s.now, s.procs[p], end, t', err)
  {
    hide Tombstoned, CatalogBus.Cascade, Apply, AuthorCell, BookCell;
    assert forall stamp | ReadBetween(s.now + d, stamp, end) :: ReadBetween(s.now, stamp, end);
  }

  lemma StaysReady(s: State, p: nat, c: Choice)
    requires WellFormed(s.table) && p in s.procs && Ready(s.procs[p])
    requires c.Go? && Enabled(s, Act(p, c))
    ensures p in Step(s, Act(p, c)).procs && Ready(Step(s, Act(p, c)).procs[p])
  {
    hide WellFormed, Listing, LiveBooksOf, DistinctBooks, Apply, AuthorCell, BookCell, Allowed;
    match s.procs[p]
    case CascadeList(id) => CatalogBus.ListedBooksDistinct(s.table, id, c.page, c.complete);
    case CascadeWrite(_, pending, _) =>
      if |pending| > BATCH_LIMIT {
        SliceDistinct(pending, BATCH_LIMIT, |pending|);
        assert pending[BATCH_LIMIT..] == pending[BATCH_LIMIT..|pending|];
      }
    case _ =>
  }

  // ---- Whole solo runs -------------------------------------------------------

  lemma {:induction false} SoloFinishes(s: State, p: nat, ls: seq<Label>, s': State)
    requires WellFormed(s.table) && p in s.procs && Ready(s.procs[p])
    requires Alone(ls, p) && Reaches(s, ls, s') && p in s'.procs && s'.procs[p].Done?
    ensures s.now <= s'.now && Finishes(s.table, s.now, s.procs[p], s'.now, s'.table, s'.procs[p].err)
    decreases |ls|
  {
    CatalogCascade.NowReaches(s, ls, s');
    if ls == [] {
    } else {
      assert ls[0].Tick? || ls[0] == Act(p, ls[0].c);
      TickProcs(s, ls[0], p);
      hide WellFormed, Step, Finishes, Ready, Enabled;
      StepTable(s, ls[0]);
      if ls[0].Act? {
        StaysReady(s, p, ls[0].c);
      }
      SoloFinishes(Step(s, ls[0]), p, ls[1..], s');
      if ls[0].Act? {
        SoloStep(s, p, ls[0].c, s'.now, s'.table, s'.procs[p].err);
      } else {
        TimePasses(s, p, ls[0].d, s'.now, s'.table, s'.procs[p].err);
      }
    }
  }

  lemma TickProcs(s: State, l: Label, p: nat)
    requires Enabled(s, l)
    ensures l.Tick? ==> Step(s, l).procs == s.procs
  {
  }

  /** From any state, a request that is started, and runs to its end without interference or
      failure and with complete listings, has exactly the effect and the outcome of the
      business operation, however much time its calls take. */
  lemma SoloRun(s: State, p: nat, req: Request, id: string, ls: seq<Label>, s': State)
    requires WellFormed(s.table) && Enabled(s, Begin(p, req, id))
    requires Alone(ls, p) && Reaches(Step(s, Begin(p, req, id)), ls, s')
    requires p in s'.procs && s'.procs[p].Done?
    ensures exists op :: Answers(req, s.now, s'.now, op)
                         && s'.table == CatalogBus.Perform(s.table, op)
                         && s'.procs[p].err == Outcome(s.table, op)
  {
    var s1 := Step(s, Begin(p, req, id));
    assert s1.table == s.table && s1.now == s.now && s1.procs[p] == Started(req, id, s.now);
    hide WellFormed, Step, Apply, AuthorCell, BookCell, CatalogBus.Cascade, Reaches;
    SoloFinishes(s1, p, ls, s');
    var op := Requested(s.table, req, id, s.now, s'.now, s'.table, s'.procs[p].err);
  }

  /** The operation a finished request amounts to. */
  lemma Requested(t: Table, req: Request, id: string, now: int, end: int, t': Table, err: Option<BusError>)
    returns (op: BusOp)
    requires Finishes(t, now, Started(req, id, now), end, t', err)
    requires WellFormed(t) && now <= end
    ensures Answers(req, now, end, op) && t' == CatalogBus.Perform(t, op) && err == Outcome(t, op)
  {
    hide WellFormed, Apply, AuthorCell, BookCell, CatalogBus.Cascade;
    match req
    case CreateAuthor(name, bio) => op := BusOp.CreateAuthor(id, name, bio);
    case UpdateAuthor(i, name, bio) => op := BusOp.UpdateAuthor(i, name, bio);
    case DeleteAuthor(i) =>
      op := BusOp.DeleteAuthor(i, now + RETENTION, now + RETENTION);
      if AuthorCell(t, i).Live? {
        var stamp :| ReadBetween(now, stamp, end)
                     && t' == CatalogBus.Cascade(Apply(t, RepoOp.DeleteAuthor(i, now + RETENTION)), i, stamp);
        op := BusOp.DeleteAuthor(i, now + RETENTION, stamp);
      }
    case CreateBook(a, title, year) =>
      op := BusOp.CreateBook(a, id, title, year);
      if CatalogBus.BookIsValid(title, year) && AuthorCell(t, a).Live? {
        var i :| t' == Apply(t, PutBook(Book(i, a, title, year))) && err == UnlessTaken(BookCell(t, a, i));
        op := BusOp.CreateBook(a, i, title, year);
      }
    case UpdateBook(a, b, title, year) => op := BusOp.UpdateBook(a, b, title, year);
    case DeleteBook(a, b) => op := BusOp.DeleteBook(a, b, now + RETENTION);
  }
}
