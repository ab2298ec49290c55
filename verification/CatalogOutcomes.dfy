/** What a caller of the concurrent service can conclude from how its operation ended, and
    what is true of everything that is stored, over every interleaving. */
module CatalogOutcomes {
  import opened Common
  import opened CatalogItems
  import opened CatalogTable
  import opened CatalogStorage
  import opened CatalogMachine
  import CatalogBus
  import CatalogCascade

  // ---- What can happen -------------------------------------------------------

  /** A caller may start any request at any time; any call may fail, and any may go through
      with any identifier and any page a query can return; time may pass, and a sweep may
      come. */
  lemma AnythingMayHappen(s: State, p: nat, req: Request, id: string, c: Choice, d: nat, chosen: set<Key>)
    ensures p !in s.procs ==> Enabled(s, Begin(p, req, id))
    ensures p in s.procs && !s.procs[p].Done? ==>
              && (Enabled(s, Act(p, Choice.Fault)) <==> !s.procs[p].CascadeStamp?)
              && (c.Go? && (s.procs[p].CascadeList? ==>
                              Listing(c.page, LiveBooksOf(s.table, s.procs[p].id), c.complete))
                  ==> Enabled(s, Act(p, c)))
    ensures Enabled(s, Tick(d)) && Enabled(s, CatalogMachine.Sweep(chosen))
  {
  }

  // ---- How operations end ----------------------------------------------------

  /** Not found: what the call was about was not live when it was made. */
  predicate WasMissing(t: Table, proc: Proc) {
    match proc
    case AuthorWrite(id, _, _) => !AuthorCell(t, id).Live?
    case AuthorRead(id) => !AuthorCell(t, id).Live?
    case AuthorMark(id, _) => !AuthorCell(t, id).Live?
    case BookCheck(a, _, _) => !AuthorCell(t, a).Live?
    case BookWrite(a, b, _, _) => !BookCell(t, a, b).Live?
    case BookRead(a, b) => !BookCell(t, a, b).Live?
    case BookMark(a, b, _) => !BookCell(t, a, b).Live?
    case _ => false
  }

  /** Conflict: the key was occupied. */
  predicate WasTaken(t: Table, proc: Proc) {
    match proc
    case AuthorPut(a) => !AuthorCell(t, a.id).Absent?
    case BookPut(b) => !BookCell(t, b.authorID, b.id).Absent?
    case _ => false
  }

  /** No error: the last call of the operation did what it was for. */
  predicate WasDone(t: Table, proc: Proc, c: Choice, t': Table) {
    match proc
    case AuthorPut(a) => AuthorCell(t, a.id).Absent? && AuthorCell(t', a.id) == Live(a)
    case AuthorRead(id) => AuthorCell(t, id).Live?
    case BookPut(b) => BookCell(t, b.authorID, b.id).Absent? && BookCell(t', b.authorID, b.id) == Live(b)
    case BookRead(a, b) => BookCell(t, a, b).Live?
    case BookMark(a, b, e) => BookCell(t, a, b).Live? && BookCell(t', a, b) == Tomb(BookCell(t, a, b).v, e)
    case CascadeList(_) => c.Go? && c.page == []
    case CascadeWrite(_, pending, e) =>
      && |pending| <= 25
      && forall i | 0 <= i < |pending| ::
           BookCell(t', pending[i].authorID, pending[i].id).Tomb?
           && BookCell(t', pending[i].authorID, pending[i].id).expires == e
    case _ => false
  }

  /** In every step that ends an operation: failure means that its call failed, and every
      other answer is true of the table at that moment. */
  lemma EndMeans(s: State, l: Label, p: nat)
    requires WellFormed(s.table) && Enabled(s, l)
    requires p in s.procs && !s.procs[p].Done? && Step(s, l).procs[p].Done?
    ensures l.Act? && l.p == p
    ensures var t, t', err := s.table, Step(s, l).table, Step(s, l).procs[p].err;
            && (err == Some(CatalogBus.Internal(Failed)) <==> l.c.Fault?)
            && (err == Some(CatalogBus.Missing) ==> WasMissing(t, s.procs[p]))
            && (err == Some(CatalogBus.Clash) ==> WasTaken(t, s.procs[p]))
            && (err == Some(CatalogBus.Internal(Refused)) ==> s.procs[p].CascadeWrite?)
            && (err == None ==> WasDone(t, s.procs[p], l.c, t'))
            && err != Some(CatalogBus.Validation)
  {
    OnlyActsEnd(s, l, p);
    if l.c.Go? {
      if s.procs[p].CascadeWrite? {
        CascadeEnd(s, l, p);
      } else {
        CallEnd(s, l, p);
      }
    }
  }

  lemma OnlyActsEnd(s: State, l: Label, p: nat)
    requires Enabled(s, l) && p in s.procs && !s.procs[p].Done? && Step(s, l).procs[p].Done?
    ensures l.Act? && l.p == p
    ensures l.c.Fault? ==> Step(s, l).procs[p] == Done(Some(CatalogBus.Internal(Failed)))
    ensures l.c.Go? ==> Step(s, l).procs[p] == Continued(s, s.procs[p], l.c)
  {
    hide AuthorCell, BookCell, Apply, Continued, EffectOf, DrawnID;
  }

  lemma CallEnd(s: State, l: Label, p: nat)
    requires WellFormed(s.table) && Enabled(s, l) && l.Act? && l.p == p && l.c.Go?
    requires !s.procs[p].CascadeWrite? && Continued(s, s.procs[p], l.c).Done?
    ensures var t, t', err := s.table, Step(s, l).table, Continued(s, s.procs[p], l.c).err;
            && err != Some(CatalogBus.Internal(Failed)) && err != Some(CatalogBus.Internal(Refused))
            && (err == Some(CatalogBus.Missing) ==> WasMissing(t, s.procs[p]))
            && (err == Some(CatalogBus.Clash) ==> WasTaken(t, s.procs[p]))
            && (err == None ==> WasDone(t, s.procs[p], l.c, t'))
            && err != Some(CatalogBus.Validation)
  {
    hide WellFormed, AuthorCell, BookCell, Step, Listing, LiveBooksOf;
    StepTable(s, l);
  }

  lemma CascadeEnd(s: State, l: Label, p: nat)
    requires WellFormed(s.table) && Enabled(s, l) && l.Act? && l.p == p && l.c.Go?
    requires s.procs[p].CascadeWrite? && Continued(s, s.procs[p], l.c).Done?
    ensures var err := Continued(s, s.procs[p], l.c).err;
            && (err == None || err == Some(CatalogBus.Internal(Refused)))
            && (err == None ==> WasDone(s.table, s.procs[p], l.c, Step(s, l).table))
  {
    var pending, e := s.procs[p].pending, s.procs[p].expires;
    hide WellFormed, AuthorCell, BookCell, Step, DistinctBooks;
    StepTable(s, l);
    if Continued(s, s.procs[p], l.c).err == None {
      forall i | 0 <= i < |pending|
        ensures var b := pending[i];
                BookCell(Step(s, l).table, b.authorID, b.id).Tomb?
                && BookCell(Step(s, l).table, b.authorID, b.id).expires == e
      {
        ReputIsTomb(pending, e, pending[i].authorID, pending[i].id,
                    BookCell(s.table, pending[i].authorID, pending[i].id));
      }
    }
  }

  // ---- A CreateBook as a whole -----------------------------------------------

  /** What process p is after a step: what it was, unless the step was its own. */
  lemma OwnStep(s: State, l: Label, p: nat)
    requires Enabled(s, l) && p in s.procs
    ensures p in Step(s, l).procs
    ensures !(l.Act? && l.p == p) ==> Step(s, l).procs[p] == s.procs[p]
    ensures l.Act? && l.p == p && s.procs[p].BookCheck? ==>
              var proc := Step(s, l).procs[p];
              || (proc.Done? && proc.err.Some?)
              || (AuthorCell(s.table, s.procs[p].authorID).Live?
                  && proc == BookPut(Book(l.c.id, s.procs[p].authorID, s.procs[p].title, s.procs[p].year)))
    ensures l.Act? && l.p == p && s.procs[p].BookPut? ==> Step(s, l).procs[p].Done?
  {
    hide AuthorCell, BookCell, Apply, EffectOf, DrawnID, Listing;
  }

  /** A step at which the book is put: its key was free before and holds the book after. */
  predicate IsPutOf(s: State, l: Label, p: nat, b: Book) {
    && Enabled(s, l) && l.Act? && l.p == p && p in s.procs && s.procs[p] == BookPut(b)
    && BookCell(s.table, b.authorID, b.id).Absent? && BookCell(Step(s, l).table, b.authorID, b.id) == Live(b)
  }

  /** Some step of the run is such a put. */
  ghost predicate PutOccurs(s: State, ls: seq<Label>, p: nat, b: Book)
    decreases |ls|
  {
    ls != [] && Enabled(s, ls[0]) && (IsPutOf(s, ls[0], p, b) || PutOccurs(Step(s, ls[0]), ls[1..], p, b))
  }

  lemma PutIsPut(s: State, l: Label, p: nat, b: Book)
    requires WellFormed(s.table) && Enabled(s, l) && l.Act? && l.p == p
    requires p in s.procs && s.procs[p] == BookPut(b) && Step(s, l).procs[p] == Done(None)
    ensures IsPutOf(s, l, p, b)
  {
    EndMeans(s, l, p);
    hide WellFormed, BookCell, AuthorCell, Step, Enabled;
  }

  lemma {:induction false} PutHappens(s: State, ls: seq<Label>, s': State, p: nat, b: Book)
    requires WellFormed(s.table) && Reaches(s, ls, s')
    requires p in s.procs && s.procs[p] == BookPut(b) && p in s'.procs && s'.procs[p] == Done(None)
    ensures PutOccurs(s, ls, p, b)
    decreases |ls|
  {
    assert ls != [] && Enabled(s, ls[0]) && Reaches(Step(s, ls[0]), ls[1..], s');
    var l, s1 := ls[0], Step(s, ls[0]);
    hide WellFormed, BookCell, AuthorCell, Step, Enabled, IsPutOf, Reaches;
    OwnStep(s, l, p);
    StepTable(s, l);
    if l.Act? && l.p == p {
      CatalogCascade.DoneStays(s1, ls[1..], s', p);
      PutIsPut(s, l, p, b);
    } else {
      PutHappens(s1, ls[1..], s', p, b);
    }
  }

  /** Over every interleaving, with failures: a CreateBook that ends without an error has,
      on the way, put a book with the requested fields on a key that was free. */
  lemma {:induction false} CreatedBookWasPut(s: State, ls: seq<Label>, s': State, p: nat) returns (b: Book)
    requires WellFormed(s.table) && Reaches(s, ls, s')
    requires p in s.procs && s.procs[p].BookCheck? && p in s'.procs && s'.procs[p] == Done(None)
    ensures b.authorID == s.procs[p].authorID && b.title == s.procs[p].title && b.year == s.procs[p].year
    ensures PutOccurs(s, ls, p, b)
    decreases |ls|
  {
    assert ls != [] && Enabled(s, ls[0]) && Reaches(Step(s, ls[0]), ls[1..], s');
    var l, s1 := ls[0], Step(s, ls[0]);
    hide WellFormed, BookCell, AuthorCell, Step, Enabled, IsPutOf, Reaches;
    OwnStep(s, l, p);
    StepTable(s, l);
    if !(l.Act? && l.p == p) {
      b := CreatedBookWasPut(s1, ls[1..], s', p);
    } else if s1.procs[p].Done? {
      CatalogCascade.DoneStays(s1, ls[1..], s', p);
      assert false;
    } else {
      b := s1.procs[p].b;
      PutHappens(s1, ls[1..], s', p, b);
    }
  }

  // ---- What is stored is valid -----------------------------------------------

  ghost predicate ValidContent(t: Table) {
    && (forall id :: AuthorCell(t, id).Live? ==> AuthorCell(t, id).v.name != "")
    && (forall a, b :: BookCell(t, a, b).Live? ==> BookCell(t, a, b).v.title != "" && BookCell(t, a, b).v.year >= 1)
  }

  /** An operation in flight carries only what validation lets through. */
  predicate Validated(proc: Proc) {
    match proc
    case AuthorPut(a) => a.name != ""
    case AuthorWrite(_, name, _) => name != ""
    case BookCheck(_, title, year) => title != "" && year >= 1
    case BookPut(b) => b.title != "" && b.year >= 1
    case BookWrite(_, _, title, year) => title != "" && year >= 1
    case _ => true
  }

  lemma StaysValidated(s: State, l: Label, p: nat)
    requires Enabled(s, l) && p in Step(s, l).procs
    requires p in s.procs ==> Validated(s.procs[p])
    ensures Validated(Step(s, l).procs[p])
  {
    hide AuthorCell, BookCell, Apply, EffectOf, DrawnID, Listing, Allowed;
  }

  lemma ContentStep(s: State, l: Label)
    requires WellFormed(s.table) && Enabled(s, l) && ValidContent(s.table)
    requires forall p | p in s.procs :: Validated(s.procs[p])
    ensures ValidContent(Step(s, l).table)
  {
    hide WellFormed, AuthorCell, BookCell, Step, Apply;
    StepTable(s, l);
    forall a, b | BookCell(Step(s, l).table, a, b).Live?
      ensures BookCell(Step(s, l).table, a, b).v.title != "" && BookCell(Step(s, l).table, a, b).v.year >= 1
    {
      if l.Act? && l.c.Go? && s.procs[l.p].CascadeWrite? {
        ReputIsTomb(NextBatch(s.procs[l.p].pending), s.procs[l.p].expires, a, b, BookCell(s.table, a, b));
      }
    }
  }

  lemma {:induction false} ContentReaches(s: State, ls: seq<Label>, s': State)
    requires WellFormed(s.table) && Reaches(s, ls, s') && ValidContent(s.table)
    requires forall p | p in s.procs :: Validated(s.procs[p])
    ensures ValidContent(s'.table)
    decreases |ls|
  {
    hide WellFormed, ValidContent, Validated, Step, Enabled;
    if ls == [] {
    } else {
      StepTable(s, ls[0]);
      ContentStep(s, ls[0]);
      forall p | p in Step(s, ls[0]).procs ensures Validated(Step(s, ls[0]).procs[p]) {
        StaysValidated(s, ls[0], p);
      }
      ContentReaches(Step(s, ls[0]), ls[1..], s');
    }
  }

  /** In every reachable state each live author has a name, and each live book a title and a
      year of at least 1: over every interleaving, with failures and repeated identifiers. */
  lemma StoredIsValid(init: State, ls: seq<Label>, s: State)
    requires Init(init) && Reaches(init, ls, s)
    ensures forall id :: AuthorCell(s.table, id).Live? ==> AuthorCell(s.table, id).v.name != ""
    ensures forall a, b :: BookCell(s.table, a, b).Live? ==>
                             BookCell(s.table, a, b).v.title != "" && BookCell(s.table, a, b).v.year >= 1
  {
    assert WellFormed(init.table) && ValidContent(init.table);
    hide WellFormed, AuthorCell, BookCell, Reaches;
    ContentReaches(init, ls, s);
  }
}
