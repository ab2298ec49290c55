/** Exactly when the promises hold that interleavings can break, and that they do break:
    orphans behind a successful DeleteAuthor, tombstones cut short by a stale re-put, and
    a book revived by a repeated identifier. */
module CatalogRaces {
  import opened Common
  import opened CatalogItems
  import opened CatalogTable
  import opened CatalogStorage
  import opened CatalogMachine
  import opened CatalogCascade
  import CatalogBus
  import CatalogSolo

  const GO := Go("", [], true)

  /** Act(p, GO) goes through. */
  lemma GoGoes(p: nat)
    ensures GoesThrough(Act(p, GO)) && GO.Go?
  {
  }

  // ---- A cascade left to itself ----------------------------------------------

  lemma WriteOne(s: State, p: nat)
    requires p in s.procs && s.procs[p].CascadeWrite? && s.procs[p].pending != []
    requires DistinctBooks(s.procs[p].pending)
    ensures var l := Act(p, GO);
            var (id, pending, e) := (s.procs[p].id, s.procs[p].pending, s.procs[p].expires);
            && Enabled(s, l) && Fresh(s, l)
            && Step(s, l) == State(
                 Tombstoned(s.table, NextBatch(pending), e), s.now,
                 s.procs[p := if |pending| <= BATCH_LIMIT then Done(None)
                              else CascadeWrite(id, pending[BATCH_LIMIT..], e)],
                 s.issued)
            && (|pending| > BATCH_LIMIT ==> DistinctBooks(pending[BATCH_LIMIT..]))
  {
    var pending := s.procs[p].pending;
    hide Tombstoned, DistinctBooks, AuthorCell, BookCell, BatchAccepted, TombRows;
    SliceDistinct(pending, 0, |NextBatch(pending)|);
    assert NextBatch(pending) == pending[0..|NextBatch(pending)|];
    AcceptedBatch(NextBatch(pending), s.procs[p].expires);
    if |pending| > BATCH_LIMIT {
      SliceDistinct(pending, BATCH_LIMIT, |pending|);
      assert pending[BATCH_LIMIT..] == pending[BATCH_LIMIT..|pending|];
    }
  }

  /** However many batches it takes, it re-puts every book it has listed. */
  lemma {:induction false} CascadeFinishes(s: State, p: nat) returns (ls: seq<Label>, s': State)
    requires WellFormed(s.table) && p in s.procs && s.procs[p].CascadeWrite?
    requires s.procs[p].pending != [] && DistinctBooks(s.procs[p].pending)
    ensures Reaches(s, ls, s') && NonRepeating(s, ls) && NoFailure(ls)
    ensures s' == s.(table := Tombstoned(s.table, s.procs[p].pending, s.procs[p].expires),
                     procs := s.procs[p := Done(None)])
    decreases |s.procs[p].pending|
  {
    hide *;
    var pending, e := s.procs[p].pending, s.procs[p].expires;
    var l := Act(p, GO);
    GoGoes(p);
    WriteOne(s, p);
    var s1 := Step(s, l);
    if |pending| > BATCH_LIMIT {
      FirstBatch(s.table, pending, e);
      ls, s' := CascadeFinishes(s1, p);
      StepThen(s, l, ls, s');
      ls := [l] + ls;
    } else {
      assert pending == NextBatch(pending) by { WholeBatch(pending); }
      OneStep(s, l);
      ls, s' := [l], s1;
    }
  }

  lemma WholeBatch(pending: seq<Book>)
    ensures |pending| <= BATCH_LIMIT ==> NextBatch(pending) == pending
  {
  }

  lemma FirstBatch(t: Table, pending: seq<Book>, e: int)
    requires WellFormed(t) && |pending| > BATCH_LIMIT
    ensures var t1 := Tombstoned(t, NextBatch(pending), e);
            WellFormed(t1) && Tombstoned(t1, pending[BATCH_LIMIT..], e) == Tombstoned(t, pending, e)
    ensures pending[BATCH_LIMIT..] != [] && |pending[BATCH_LIMIT..]| < |pending|
  {
    hide WellFormed, Tombstoned;
    BatchExtends(t, pending, BATCH_LIMIT, |pending|, e);
    ReputCells(t, NextBatch(pending), e);
    assert pending[BATCH_LIMIT..] == pending[BATCH_LIMIT..|pending|] && pending[..|pending|] == pending;
  }

  /** From the clock read on. */
  lemma StampedFinishes(s: State, p: nat) returns (ls: seq<Label>, s': State)
    requires WellFormed(s.table) && p in s.procs && s.procs[p].CascadeStamp?
    requires s.procs[p].pending != [] && DistinctBooks(s.procs[p].pending)
    ensures Reaches(s, ls, s') && NonRepeating(s, ls) && NoFailure(ls)
    ensures s' == s.(table := Tombstoned(s.table, s.procs[p].pending, s.now + RETENTION),
                     procs := s.procs[p := Done(None)])
  {
    var l := Act(p, GO);
    var s1 := Step(s, l);
    StampOne(s, p);
    hide WellFormed, Step, DistinctBooks, Tombstoned, Enabled, Fresh;
    ls, s' := CascadeFinishes(s1, p);
    StepThen(s, l, ls, s');
    ls := [l] + ls;
  }

  lemma StampOne(s: State, p: nat)
    requires p in s.procs && s.procs[p].CascadeStamp?
    ensures Enabled(s, Act(p, GO)) && Fresh(s, Act(p, GO))
    ensures Step(s, Act(p, GO)) ==
            s.(procs := s.procs[p := CascadeWrite(s.procs[p].id, s.procs[p].pending, s.now + RETENTION)])
  {
  }

  // ---- Exactly when DeleteAuthor can leave orphans ---------------------------

  lemma PutStep(s: State, q: nat, b: Book)
    requires WellFormed(s.table) && q in s.procs && s.procs[q] == BookPut(b)
    requires BookCell(s.table, b.authorID, b.id).Absent?
    ensures Enabled(s, Act(q, GO)) && Fresh(s, Act(q, GO))
    ensures var s' := Step(s, Act(q, GO));
            && WellFormed(s'.table)
            && (forall x, y :: BookCell(s'.table, x, y) ==
                               if x == b.authorID && y == b.id then Live(b) else BookCell(s.table, x, y))
            && (forall x :: AuthorCell(s'.table, x) == AuthorCell(s.table, x))
            && s'.procs == s.procs[q := Done(None)] && s'.now == s.now && s'.issued == s.issued
  {
    hide WellFormed, AuthorCell, BookCell, Apply;
    StepTable(s, Act(q, GO));
  }

  /** A book about to be put for the first time is not in the table. */
  lemma InFlightAbsent(s: State, q: nat)
    requires Inv(s) && q in s.procs && s.procs[q].BookPut?
    ensures forall a :: BookCell(s.table, a, s.procs[q].b.id).Absent?
  {
    hide WellFormed, AuthorCell, BookCell;
    assert !SpentBook(s, s.procs[q].b.id);
  }

  /** The creates in flight for an author put their books one after the other. */
  lemma {:induction false} PutInFlight(s: State, id: string) returns (ls: seq<Label>, s': State)
    requires Inv(s)
    ensures Reaches(s, ls, s') && NonRepeating(s, ls) && NoFailure(ls)
    ensures LiveIDs(s'.table, id) == LiveIDs(s.table, id) + InFlightIDs(s, id)
    ensures forall p | p in s.procs && p !in InFlight(s, id) :: p in s'.procs && s'.procs[p] == s.procs[p]
    decreases |InFlight(s, id)|
  {
    hide *;
    if InFlight(s, id) == {} {
      NoStep(s);
      NoneInFlight(s, id);
      ls, s' := [], s;
    } else {
      var q :| q in InFlight(s, id);
      var l := Act(q, GO);
      GoGoes(q);
      OnePut(s, q, id);
      var s1 := Step(s, l);
      ls, s' := PutInFlight(s1, id);
      StepThen(s, l, ls, s');
      ls := [l] + ls;
    }
  }

  lemma NoneInFlight(s: State, id: string)
    requires InFlight(s, id) == {}
    ensures InFlightIDs(s, id) == {}
  {
  }

  lemma OnePut(s: State, q: nat, id: string)
    requires Inv(s) && q in InFlight(s, id)
    ensures q in s.procs && Enabled(s, Act(q, GO)) && Fresh(s, Act(q, GO))
    ensures var s1 := Step(s, Act(q, GO));
            && Inv(s1)
            && InFlight(s1, id) == InFlight(s, id) - {q}
            && LiveIDs(s1.table, id) + InFlightIDs(s1, id) == LiveIDs(s.table, id) + InFlightIDs(s, id)
            && s1.procs == s.procs[q := Done(None)]
  {
    var b, s1 := s.procs[q].b, Step(s, Act(q, GO));
    InvForm(s);
    hide Inv, WellFormed, AuthorCell, BookCell, Step, Enabled, Fresh, LiveIDs, InFlightIDs;
    InFlightAbsent(s, q);
    PutStep(s, q, b);
    InvStep(s, Act(q, GO));
    OneFewer(s, s1, q, id);
    forall x ensures x in LiveIDs(s1.table, id) <==> x in LiveIDs(s.table, id) || x == b.id {
      LiveIDIsLive(s.table, id, x);
      LiveIDIsLive(s1.table, id, x);
    }
  }

  lemma OneFewer(s: State, s1: State, q: nat, id: string)
    requires q in InFlight(s, id) && s1.procs == s.procs[q := Done(None)]
    ensures InFlight(s1, id) == InFlight(s, id) - {q}
    ensures InFlightIDs(s, id) == InFlightIDs(s1, id) + {s.procs[q].b.id}
  {
    assert InFlight(s1, id) == InFlight(s, id) - {q};
    forall r | r in InFlight(s1, id) ensures s1.procs[r] == s.procs[r] {
    }
  }

  /** The listing step. */
  lemma ListStep(s: State, p: nat, c: Choice)
    requires Inv(s) && p in s.procs && s.procs[p].CascadeList? && c.Go? && Enabled(s, Act(p, c))
    ensures var s1 := Step(s, Act(p, c));
            var id := s.procs[p].id;
            && Fresh(s, Act(p, c)) && Inv(s1)
            && s1 == s.(procs := s.procs[p := if c.page == [] then Done(None) else CascadeStamp(id, c.page)])
            && DistinctBooks(c.page)
            && (forall b :: b in Unlisted(s.table, id, c.page) <==>
                            BookCell(s.table, id, b).Live? && !Listed(c.page, b))
            && (forall i | 0 <= i < |c.page| :: c.page[i].authorID == id)
  {
    var id := s.procs[p].id;
    assert Step(s, Act(p, c)) ==
           s.(procs := s.procs[p := if c.page == [] then Done(None) else CascadeStamp(id, c.page)]);
    assert Listing(c.page, LiveBooksOf(s.table, id), c.complete) && Fresh(s, Act(p, c));
    InvForm(s);
    hide Inv, WellFormed, AuthorCell, BookCell, Step, Enabled, Fresh, Unlisted, Listed, DistinctBooks, Listing;
    InvStep(s, Act(p, c));
    CatalogBus.ListedBooksDistinct(s.table, id, c.page, c.complete);
    forall b ensures b in Unlisted(s.table, id, c.page) <==> BookCell(s.table, id, b).Live? && !Listed(c.page, b) {
      UnlistedIsLive(s.table, id, c.page, c.complete, b);
    }
  }

  lemma UnlistedIsLive(t: Table, id: string, page: seq<Book>, complete: bool, b: string)
    requires WellFormed(t) && Listing(page, LiveBooksOf(t, id), complete)
    ensures b in Unlisted(t, id, page) <==> BookCell(t, id, b).Live? && !Listed(page, b)
  {
    hide WellFormed, BookCell, LiveBooks;
    CatalogBus.ListedBooksDistinct(t, id, page, complete);
    RowKinds(t, id, b);
    if book :| book in LiveBooksOf(t, id) && book !in page && book.id == b {
      LiveBooksAreLiveCells(t, book);
      forall i | 0 <= i < |page| ensures page[i].id != b {
        assert page[i] in page;
      }
    }
    if BookCell(t, id, b).Live? && !Listed(page, b) {
      LiveBooksAreLiveCells(t, BookCell(t, id, b).v);
      assert BookCell(t, id, b).v !in page;
    }
  }

  /** After the listing, the cascade left to itself leaves live just the unlisted books. */
  lemma ListedFinishes(s: State, p: nat, c: Choice) returns (ls: seq<Label>, s': State)
    requires Inv(s) && p in s.procs && s.procs[p].CascadeList? && c.Go? && Enabled(s, Act(p, c))
    ensures Reaches(Step(s, Act(p, c)), ls, s') && NonRepeating(Step(s, Act(p, c)), ls) && NoFailure(ls)
    ensures s'.procs == s.procs[p := Done(None)] && Inv(s')
    ensures LiveIDs(s'.table, s.procs[p].id) == Unlisted(s.table, s.procs[p].id, c.page)
  {
    hide *;
    var s1 := Step(s, Act(p, c));
    ListStep(s, p, c);
    InvForm(s);
    if c.page == [] {
      NoStep(s1);
      CatalogBus.NothingTombstoned(s.table, c.page, s.now + RETENTION);
      ls, s' := [], s1;
    } else {
      ls, s' := StampedFinishes(s1, p);
    }
    InvReaches(s1, ls, s');
    UnlistedAreLeft(s.table, s.procs[p].id, c.page, s.now + RETENTION);
  }

  lemma UnlistedAreLeft(t: Table, id: string, page: seq<Book>, e: int)
    requires WellFormed(t) && forall i | 0 <= i < |page| :: page[i].authorID == id
    requires forall b :: b in Unlisted(t, id, page) <==> BookCell(t, id, b).Live? && !Listed(page, b)
    ensures LiveIDs(Tombstoned(t, page, e), id) == Unlisted(t, id, page)
  {
    hide WellFormed, BookCell, Unlisted, Listed, LiveIDs, Tombstoned;
    ReputCells(t, page, e);
    forall b ensures b in LiveIDs(Tombstoned(t, page, e), id) <==> b in Unlisted(t, id, page) {
      LiveIDIsLive(Tombstoned(t, page, e), id, b);
      ReputUnlisted(page, e, id, b, BookCell(t, id, b));
    }
  }

  lemma ReputUnlisted(page: seq<Book>, e: int, id: string, b: string, c: Cell<Book>)
    requires forall i | 0 <= i < |page| :: page[i].authorID == id
    ensures Reput(page, e, id, b, c).Live? <==> c.Live? && !Listed(page, b)
    ensures page == [] ==> !Listed(page, b)
  {
    ReputIsTomb(page, e, id, b, c);
  }

  lemma {:induction false} SameCount(s: State, ps: set<nat>)
    requires Inv(s) && forall p | p in ps :: p in s.procs && s.procs[p].BookPut?
    ensures |set p | p in ps :: s.procs[p].b.id| == |ps|
  {
    hide WellFormed, AuthorCell, BookCell, ProcOk, SpentAuthor, SpentBook;
    if ps == {} {
    } else {
      var p :| p in ps;
      SameCount(s, ps - {p});
      var rest := set q | q in ps - {p} :: s.procs[q].b.id;
      assert (set q | q in ps :: s.procs[q].b.id) == rest + {s.procs[p].b.id};
      assert s.procs[p].b.id !in rest;
    }
  }

  /** The orphan bound is attained: after any listing, complete or not, the DeleteAuthor
      can succeed and leave live every book in flight and every book the page left out. */
  lemma BoundAttained(s: State, p: nat, c: Choice) returns (ls: seq<Label>, s': State)
    requires Inv(s) && p in s.procs && s.procs[p].CascadeList? && c.Go? && Enabled(s, Act(p, c))
    ensures Reaches(Step(s, Act(p, c)), ls, s') && NonRepeating(Step(s, Act(p, c)), ls) && NoFailure(ls)
    ensures p in s'.procs && s'.procs[p] == Done(None) && WellFormed(s'.table)
    ensures !AuthorCell(s'.table, s.procs[p].id).Live?
    ensures var id := s.procs[p].id;
            && LiveIDs(s'.table, id) == InFlightIDs(s, id) + Unlisted(s.table, id, c.page)
            && |LiveIDs(s'.table, id)| == |InFlight(s, id)| + |Unlisted(s.table, id, c.page)|
  {
    hide *;
    var id, s1 := s.procs[p].id, Step(s, Act(p, c));
    var ls1, s2 := ListedFinishes(s, p, c);
    SameInFlight(s, s2, p, Done(None), id);
    NotInFlight(s2, p, id);
    var ls2;
    ls2, s' := PutInFlight(s2, id);
    ls := ls1 + ls2;
    ReachesAppend(s1, ls1, s2, ls2, s');
    InvReaches(s2, ls2, s');
    InvForm(s');
    StaysDead(s, p, c, ls, s');
    CountOrphans(s, p, c);
    SumOfSizes(InFlightIDs(s, id), Unlisted(s.table, id, c.page));
  }

  lemma StaysDead(s: State, p: nat, c: Choice, ls: seq<Label>, s': State)
    requires Inv(s) && p in s.procs && s.procs[p].CascadeList? && c.Go? && Enabled(s, Act(p, c))
    requires Reaches(Step(s, Act(p, c)), ls, s') && NonRepeating(Step(s, Act(p, c)), ls)
    ensures !AuthorCell(s'.table, s.procs[p].id).Live?
  {
    var id, s1 := s.procs[p].id, Step(s, Act(p, c));
    ListStep(s, p, c);
    assert ProcOk(s, s.procs[p]);
    hide Inv, WellFormed, AuthorCell, Step, Enabled, Fresh, SpentAuthor, Reaches, NonRepeating, LiveIDs, InFlightIDs;
    SpentStays(s, Act(p, c), id);
    StrandedBound(s1, ls, s', id, LiveIDs(s1.table, id) + InFlightIDs(s1, id));
  }

  lemma NotInFlight(s: State, p: nat, id: string)
    requires p in s.procs && s.procs[p].Done?
    ensures p !in InFlight(s, id)
  {
  }

  lemma SumOfSizes(xs: set<string>, ys: set<string>)
    requires xs !! ys
    ensures |ys + xs| == |xs + ys| == |xs| + |ys|
  {
    assert ys + xs == xs + ys;
  }

  lemma CountOrphans(s: State, p: nat, c: Choice)
    requires Inv(s) && p in s.procs && s.procs[p].CascadeList? && c.Go? && Enabled(s, Act(p, c))
    ensures var id := s.procs[p].id;
            |InFlightIDs(s, id)| == |InFlight(s, id)| && InFlightIDs(s, id) !! Unlisted(s.table, id, c.page)
  {
    var id := s.procs[p].id;
    ListStep(s, p, c);
    hide Inv, WellFormed, AuthorCell, BookCell, Step, Enabled, Fresh, Unlisted, Listed, Listing;
    SameCount(s, InFlight(s, id));
    forall q | q in InFlight(s, id) ensures s.procs[q].b.id !in Unlisted(s.table, id, c.page) {
      InFlightAbsent(s, q);
    }
  }

  /** Some run on which the DeleteAuthor succeeds leaves a live book under its dead author. */
  ghost predicate CanOrphan(s1: State, p: nat, id: string) {
    exists ls, s' :: Reaches(s1, ls, s') && NonRepeating(s1, ls) && NoFailure(ls)
                     && p in s'.procs && s'.procs[p] == Done(None)
                     && !AuthorCell(s'.table, id).Live? && exists b :: BookCell(s'.table, id, b).Live?
  }

  /** Exactly when interleaving can break "every live book has a live author": at the
      moment DeleteAuthor lists the books, some create for the author is past its author
      check, or the page leaves a live book out. */
  lemma OrphanExact(init: State, before: seq<Label>, s: State, p: nat, c: Choice)
    requires Init(init) && Reaches(init, before, s) && NonRepeating(init, before)
    requires p in s.procs && s.procs[p].CascadeList? && c.Go? && Enabled(s, Act(p, c))
    ensures CanOrphan(Step(s, Act(p, c)), p, s.procs[p].id) <==>
            InFlight(s, s.procs[p].id) != {} || Unlisted(s.table, s.procs[p].id, c.page) != {}
  {
    hide *;
    InvInit(init);
    InvReaches(init, before, s);
    if CanOrphan(Step(s, Act(p, c)), p, s.procs[p].id) {
      OrphanComesFrom(init, before, s, p, c);
    }
    if InFlight(s, s.procs[p].id) != {} || Unlisted(s.table, s.procs[p].id, c.page) != {} {
      OrphanIsLeft(s, p, c);
    }
  }

  lemma OrphanComesFrom(init: State, before: seq<Label>, s: State, p: nat, c: Choice)
    requires Init(init) && Reaches(init, before, s) && NonRepeating(init, before)
    requires p in s.procs && s.procs[p].CascadeList? && c.Go? && Enabled(s, Act(p, c))
    requires CanOrphan(Step(s, Act(p, c)), p, s.procs[p].id)
    ensures InFlight(s, s.procs[p].id) != {} || Unlisted(s.table, s.procs[p].id, c.page) != {}
  {
    var id, s1 := s.procs[p].id, Step(s, Act(p, c));
    hide BookCell, Step, Enabled, Unlisted, Reaches, NonRepeating, Init, InFlight;
    var ls, s' :| Reaches(s1, ls, s') && NonRepeating(s1, ls) && p in s'.procs && s'.procs[p] == Done(None)
                  && exists b :: BookCell(s'.table, id, b).Live?;
    OrphanBound(init, before, s, p, c, ls, s');
  }

  lemma OrphanIsLeft(s: State, p: nat, c: Choice)
    requires Inv(s) && p in s.procs && s.procs[p].CascadeList? && c.Go? && Enabled(s, Act(p, c))
    requires InFlight(s, s.procs[p].id) != {} || Unlisted(s.table, s.procs[p].id, c.page) != {}
    ensures CanOrphan(Step(s, Act(p, c)), p, s.procs[p].id)
  {
    hide Inv, WellFormed, BookCell, Step, Enabled, Unlisted, Reaches, NonRepeating, InFlight, LiveIDs, Listing;
    var ls, s' := BoundAttained(s, p, c);
    assert |LiveIDs(s'.table, s.procs[p].id)| > 0;
    var b :| b in LiveIDs(s'.table, s.procs[p].id);
    LiveIDIsLive(s'.table, s.procs[p].id, b);
  }

  // ---- The smallest such run -------------------------------------------------

  lemma FirstAuthor(a: Author)
    ensures var t := Apply(map[], PutAuthor(a));
            WellFormed(t) && AuthorCell(t, a.id).Live? && forall b :: BookCell(t, a.id, b).Absent?
  {
    var empty: Table := map[];
    assert WellFormed(empty) && AuthorCell(empty, a.id).Absent? && forall b :: BookCell(empty, a.id, b).Absent?;
    hide WellFormed, AuthorCell, BookCell, Apply;
    Refinement(empty, PutAuthor(a));
  }

  lemma FirstThree(ann: Author)
    requires ann.name != ""
    ensures var init := State(map[], 0, map[], {});
            var l0, l1 := Begin(0, CreateAuthor(ann.name, ann.bio), ann.id), Act(0, GO);
            var l2 := Begin(1, CreateBook(ann.id, "T", 1), "");
            var s3 := State(Apply(map[], PutAuthor(ann)), 0,
                            map[0 := Done(None), 1 := BookCheck(ann.id, "T", 1)], {ann.id});
            Reaches(init, [l0, l1, l2], s3) && NonRepeating(init, [l0, l1, l2]) && NoFailure([l0, l1, l2])
  {
    assert Allowed(map[], PutAuthor(ann));
    hide WellFormed, AuthorCell, BookCell, Apply, Allowed, Listing, Reaches, NonRepeating;
    var init := State(map[], 0, map[], {});
    var l0, l1 := Begin(0, CreateAuthor(ann.name, ann.bio), ann.id), Act(0, GO);
    var l2 := Begin(1, CreateBook(ann.id, "T", 1), "");
    assert Step(init, l0) == State(map[], 0, map[0 := AuthorPut(ann)], {ann.id});
    assert Step(Step(init, l0), l1) == State(Apply(map[], PutAuthor(ann)), 0, map[0 := Done(None)], {ann.id});
    ReachesThree(init, l0, l1, l2);
  }

  /** A state in which a DeleteAuthor is about to list no book, and a CreateBook for that
      author is past its author check. */
  predicate RaceSetUp(s: State, p: nat, q: nat) {
    && p in s.procs && s.procs[p].CascadeList? && Enabled(s, Act(p, GO))
    && q in InFlight(s, s.procs[p].id)
  }

  /** It is reachable from the empty table, without a failure and with distinct identifiers. */
  lemma SetUpReachable() returns (init: State, ls: seq<Label>, s: State)
    ensures Init(init) && Reaches(init, ls, s) && NonRepeating(init, ls) && NoFailure(ls) && RaceSetUp(s, 2, 1)
  {
    init := State(map[], 0, map[], {});
    hide WellFormed, AuthorCell, BookCell, Apply, RaceSetUp, Step, Enabled, Reaches, NonRepeating;
    var ann := Author("x", "Ann", "");
    assert "x"[0] != "y"[0];
    FirstAuthor(ann);
    FirstThree(ann);
    var s3 := State(Apply(map[], PutAuthor(ann)), 0, map[0 := Done(None), 1 := BookCheck("x", "T", 1)], {"x"});
    s, ls := SetUpFrom(s3, "x", "y");
    var first := [Begin(0, CreateAuthor("Ann", ""), "x"), Act(0, GO), Begin(1, CreateBook("x", "T", 1), "")];
    ReachesAppend(init, first, s3, ls, s);
    ls := first + ls;
  }

  lemma SetUpFrom(s3: State, x: string, y: string) returns (s: State, ls: seq<Label>)
    requires WellFormed(s3.table) && AuthorCell(s3.table, x).Live? && s3.issued == {x} && x != y
    requires forall b :: BookCell(s3.table, x, b).Absent?
    requires s3.procs == map[0 := Done(None), 1 := BookCheck(x, "T", 1)]
    ensures Reaches(s3, ls, s) && NonRepeating(s3, ls) && NoFailure(ls) && RaceSetUp(s, 2, 1)
  {
    hide WellFormed, AuthorCell, BookCell, LiveBooks, Apply;
    var l3 := Act(1, Go(y, [], true));
    var s4 := Step(s3, l3);
    assert s4.table == s3.table && s4.procs == map[0 := Done(None), 1 := BookPut(Book(y, x, "T", 1))];
    var l4 := Begin(2, Request.DeleteAuthor(x), "");
    var s5 := Step(s4, l4);
    MarkStep(s5, 2, GO);
    CatalogBus.MarkedAuthor(s5.table, x, s5.procs[2].expires);
    ReachesThree(s3, l3, l4, Act(2, GO));
    s := Step(s5, Act(2, GO));
    ls := [l3, l4, Act(2, GO)];
    NoLiveBooks(s3.table, x);
    assert 1 in InFlight(s, x);
  }

  lemma NoLiveBooks(t: Table, x: string)
    requires WellFormed(t) && forall b :: BookCell(t, x, b).Absent?
    ensures LiveBooksOf(t, x) == {}
  {
    hide WellFormed, BookCell, LiveBooks;
    forall b | b in LiveBooksOf(t, x) ensures false {
      LiveBooksAreLiveCells(t, b);
    }
  }

  /** A successful DeleteAuthor with a complete listing and no failures can leave a live
      book without a live author: referential integrity does not survive interleaving. */
  lemma OrphanIsReachable() returns (init: State, ls: seq<Label>, s: State)
    ensures Init(init) && Reaches(init, ls, s) && NonRepeating(init, ls) && NoFailure(ls)
    ensures 2 in s.procs && s.procs[2] == Done(None)
    ensures exists a, b :: BookCell(s.table, a, b).Live? && !AuthorCell(s.table, a).Live?
  {
    var before, mid;
    init, before, mid := SetUpReachable();
    var id := mid.procs[2].id;
    hide Step, WellFormed, AuthorCell, BookCell, Inv, LiveIDs, Unlisted, Init, InFlight, SpentAuthor, SpentBook;
    InvInit(init);
    InvReaches(init, before, mid);
    ListStep(mid, 2, GO);
    var after;
    after, s := BoundAttained(mid, 2, GO);
    assert mid.procs[1].b.id in LiveIDs(s.table, id);
    LiveIDIsLive(s.table, id, mid.procs[1].b.id);
    ls := before + ([Act(2, GO)] + after);
    StepThen(mid, Act(2, GO), after, s);
    ReachesAppend(init, before, mid, [Act(2, GO)] + after, s);
    TrackedToTheEnd(init, before, mid, 2, GO, after, s);
  }

  // ---- Repeated identifiers --------------------------------------------------

  lemma SweptAway(s: State, l: Label, b: Book)
    requires WellFormed(s.table) && l == Sweep({BookKey(b.authorID, b.id)})
    requires BookCell(s.table, b.authorID, b.id).Tomb? && BookCell(s.table, b.authorID, b.id).expires <= s.now
    ensures WellFormed(Step(s, l).table) && BookCell(Step(s, l).table, b.authorID, b.id).Absent?
  {
    hide WellFormed, AuthorCell, BookCell, Apply;
    StepTable(s, l);
  }

  /** With a repeated identifier a deleted book comes back: once its tombstone has
      expired, a sweep and a put in flight for the same key make it live again. */
  lemma RepeatedIDRevives(s: State, q: nat)
    requires WellFormed(s.table) && q in s.procs && s.procs[q].BookPut?
    requires var b := s.procs[q].b;
             BookCell(s.table, b.authorID, b.id).Tomb? && BookCell(s.table, b.authorID, b.id).expires <= s.now
    ensures var b := s.procs[q].b;
            var s1 := Step(s, Sweep({BookKey(b.authorID, b.id)}));
            Enabled(s1, Act(q, GO)) && BookCell(Step(s1, Act(q, GO)).table, b.authorID, b.id) == Live(b)
  {
    var b := s.procs[q].b;
    var l := Sweep({BookKey(b.authorID, b.id)});
    assert Step(s, l).procs == s.procs && Enabled(s, l) && EffectOf(s, l) == Some(SweepExpired(l.chosen, s.now));
    hide WellFormed, AuthorCell, BookCell, Step, Enabled, EffectOf, CellsFollow;
    RowKinds(s.table, b.authorID, b.id);
    SweptAway(s, l, b);
    PutStep(Step(s, l), q, b);
  }

  // ---- Exactly when retention holds ------------------------------------------

  /** A cascade left to itself writes a book it has listed, however many batches on, with
      the expiry it has computed or computes now. */
  lemma CascadeGetsThere(s: State, p: nat, a: string, b: string) returns (ls: seq<Label>, s': State)
    requires WellFormed(s.table) && p in s.procs && Writing(s.procs[p])
    requires DistinctBooks(s.procs[p].pending) && !Avoids(s.procs[p].pending, a, b)
    ensures Reaches(s, ls, s') && NonRepeating(s, ls) && NoFailure(ls) && WellFormed(s'.table) && s'.now == s.now
    ensures BookCell(s'.table, a, b).Tomb? && BookCell(s'.table, a, b).expires == Due(s, s.procs[p])
  {
    hide WellFormed, AuthorCell, BookCell, Step, DistinctBooks, Tombstoned, Reaches, NonRepeating;
    if s.procs[p].CascadeStamp? {
      ls, s' := StampedFinishes(s, p);
    } else {
      ls, s' := CascadeFinishes(s, p);
    }
    ReputCells(s.table, s.procs[p].pending, Due(s, s.procs[p]));
    ReputIsTomb(s.procs[p].pending, Due(s, s.procs[p]), a, b, BookCell(s.table, a, b));
  }

  /** Once the clock has reached a tombstone's expiry, a sweep frees its key. */
  lemma WaitAndSweep(s: State, a: string, b: string) returns (ls: seq<Label>, s': State)
    requires WellFormed(s.table) && BookCell(s.table, a, b).Tomb?
    ensures Reaches(s, ls, s') && NonRepeating(s, ls) && NoFailure(ls) && BookCell(s'.table, a, b).Absent?
    ensures s'.now == if s.now < BookCell(s.table, a, b).expires then BookCell(s.table, a, b).expires else s.now
    ensures WellFormed(s'.table) && s'.procs == s.procs
  {
    hide WellFormed, AuthorCell, BookCell;
    var e := BookCell(s.table, a, b).expires;
    var l0 := Tick(if s.now < e then e - s.now else 0);
    var l1 := CatalogMachine.Sweep({BookKey(a, b)});
    var s1 := Step(s, l0);
    assert s1.table == s.table && e <= s1.now;
    SweptAway(s1, l1, Book(b, a, "", 0));
    s' := Step(s1, l1);
    ls := [l0, l1, Tick(0)];
    ReachesThree(s, l0, l1, Tick(0));
    s' := Step(s', Tick(0));
  }

  /** Retention, exactly. A tombstone due to last until e keeps its key occupied until e,
      whatever happens, if and only if no cascade in flight still has to re-put that book
      with an earlier expiry. */
  lemma RetentionExact(s: State, a: string, b: string, e: int)
    requires Inv(s) && s.now < e && BookCell(s.table, a, b).Tomb? && BookCell(s.table, a, b).expires >= e
    ensures BookHeld(s, a, b, e) <==>
            forall ls, s' | Reaches(s, ls, s') && s'.now < e :: !BookCell(s'.table, a, b).Absent?
  {
    InvForm(s);
    hide WellFormed, AuthorCell, BookCell, Reaches, Inv, BookHeld;
    if BookHeld(s, a, b, e) {
      forall ls, s' | Reaches(s, ls, s') && s'.now < e ensures !BookCell(s'.table, a, b).Absent? {
        BookRetention(s, ls, s', a, b, e);
        HeldIsThere(s', a, b, e);
      }
    } else {
      var ls, s' := FreedEarly(s, a, b, e);
    }
  }

  lemma HeldIsThere(s: State, a: string, b: string, e: int)
    requires BookHeld(s, a, b, e)
    ensures !BookCell(s.table, a, b).Absent?
  {
    hide BookCell;
  }

  lemma FreedEarly(s: State, a: string, b: string, e: int) returns (ls: seq<Label>, s': State)
    requires Inv(s) && s.now < e && !NoStaleCascade(s, a, b, e)
    ensures Reaches(s, ls, s') && NoFailure(ls) && s'.now < e && BookCell(s'.table, a, b).Absent?
  {
    InvForm(s);
    var p :| p in s.procs && Writing(s.procs[p]) && Due(s, s.procs[p]) < e && !Avoids(s.procs[p].pending, a, b);
    assert ProcOk(s, s.procs[p]);
    hide WellFormed, AuthorCell, BookCell, Reaches, NonRepeating, Inv, SpentBook, SpentAuthor, DistinctBooks, Avoids;
    var ls0, s1 := CascadeGetsThere(s, p, a, b);
    var ls1;
    ls1, s' := WaitAndSweep(s1, a, b);
    ls := ls0 + ls1;
    ReachesAppend(s, ls0, s1, ls1, s');
  }

  // ---- The smallest run that breaks it ---------------------------------------

  /** An author with one live book, and nothing in flight. */
  ghost predicate OneBook(s: State, b: Book) {
    && WellFormed(s.table) && s.now == 0 && s.procs == map[0 := Done(None), 1 := Done(None)]
    && AuthorCell(s.table, b.authorID).Live?
    && forall y :: BookCell(s.table, b.authorID, y) == if y == b.id then Live(b) else Absent
  }

  lemma OneBookFrom(s3: State, x: string, y: string) returns (s: State, ls: seq<Label>)
    requires WellFormed(s3.table) && AuthorCell(s3.table, x).Live? && s3.issued == {x} && x != y && s3.now == 0
    requires forall b :: BookCell(s3.table, x, b).Absent?
    requires s3.procs == map[0 := Done(None), 1 := BookCheck(x, "T", 1)]
    ensures Reaches(s3, ls, s) && NonRepeating(s3, ls) && NoFailure(ls) && OneBook(s, Book(y, x, "T", 1))
  {
    hide WellFormed, AuthorCell, BookCell, LiveBooks, Apply;
    var l3 := Act(1, Go(y, [], true));
    var s4 := Step(s3, l3);
    assert s4 == s3.(procs := map[0 := Done(None), 1 := BookPut(Book(y, x, "T", 1))], issued := {x, y});
    PutStep(s4, 1, Book(y, x, "T", 1));
    var s5 := Step(s4, Act(1, GO));
    ReachesThree(s3, l3, Act(1, GO), Tick(0));
    s := Step(s5, Tick(0));
    ls := [l3, Act(1, GO), Tick(0)];
  }

  /** DeleteAuthor marks its author. */
  lemma Marked(s5: State, b: Book, p: nat) returns (s: State, ls: seq<Label>)
    requires WellFormed(s5.table) && p !in s5.procs && AuthorCell(s5.table, b.authorID).Live?
    requires LiveBooksOf(s5.table, b.authorID) == {b}
    ensures Reaches(s5, ls, s) && NonRepeating(s5, ls) && NoFailure(ls)
    ensures s.now == s5.now && s.procs == s5.procs[p := CascadeList(b.authorID)]
    ensures WellFormed(s.table) && LiveBooksOf(s.table, b.authorID) == {b}
    ensures BookCell(s.table, b.authorID, b.id) == Live(b)
  {
    hide *;
    var x := b.authorID;
    var l5 := Begin(p, Request.DeleteAuthor(x), "");
    BeginDelete(s5, p, x);
    GoGoes(p);
    var s6 := Step(s5, l5);
    MarkStep(s6, p, GO);
    s := Step(s6, Act(p, GO));
    CatalogBus.MarkedAuthor(s6.table, x, s6.procs[p].expires);
    StillThere(s.table, b);
    OneStep(s6, Act(p, GO));
    StepThen(s5, l5, [Act(p, GO)], s);
    ls := [l5] + [Act(p, GO)];
  }

  lemma BeginDelete(s: State, p: nat, x: string)
    requires p !in s.procs
    ensures var l := Begin(p, Request.DeleteAuthor(x), "");
            && Enabled(s, l) && Fresh(s, l) && GoesThrough(l)
            && Step(s, l) == s.(procs := s.procs[p := AuthorMark(x, s.now + RETENTION)])
  {
  }

  lemma OnlyBook(t: Table, b: Book)
    requires WellFormed(t)
    requires forall y :: BookCell(t, b.authorID, y) == if y == b.id then Live(b) else Absent
    ensures LiveBooksOf(t, b.authorID) == {b}
  {
    hide WellFormed, BookCell, LiveBooks;
    forall other: Book ensures other in LiveBooksOf(t, b.authorID) <==> other == b {
      LiveBooksAreLiveCells(t, other);
    }
  }

  lemma StillThere(t: Table, b: Book)
    requires WellFormed(t) && LiveBooksOf(t, b.authorID) == {b}
    ensures BookCell(t, b.authorID, b.id) == Live(b)
  {
    assert b in LiveBooksOf(t, b.authorID);
    hide WellFormed, BookCell, LiveBooks;
    LiveBooksAreLiveCells(t, b);
  }

  lemma ListOne(s: State, b: Book, p: nat)
    requires p in s.procs && s.procs[p] == CascadeList(b.authorID) && LiveBooksOf(s.table, b.authorID) == {b}
    ensures var l := Act(p, Go("", [b], true));
            && Enabled(s, l) && Fresh(s, l) && GoesThrough(l)
            && Step(s, l) == s.(procs := s.procs[p := CascadeStamp(b.authorID, [b])])
  {
    hide LiveBooksOf;
  }

  /** The cascade computes its expiry; ten seconds later a DeleteBook starts. */
  lemma TenSecondsLater(s8: State, b: Book) returns (s: State, ls: seq<Label>)
    requires 2 in s8.procs && s8.procs[2] == CascadeStamp(b.authorID, [b]) && 3 !in s8.procs && s8.now == 0
    ensures Reaches(s8, ls, s) && NonRepeating(s8, ls) && NoFailure(ls) && s.table == s8.table && s.now == 10
    ensures s.procs == s8.procs[2 := CascadeWrite(b.authorID, [b], RETENTION)]
                              [3 := BookMark(b.authorID, b.id, 10 + RETENTION)]
  {
    StampOne(s8, 2);
    var s9 := Step(s8, Act(2, GO));
    var l10 := Begin(3, Request.DeleteBook(b.authorID, b.id), "");
    ReachesThree(s8, Act(2, GO), Tick(10), l10);
    s := Step(Step(s9, Tick(10)), l10);
    ls := [Act(2, GO), Tick(10), l10];
  }

  /** A run from the empty table, without a failure and with distinct identifiers, after
      which a book has just been deleted, and whose key is free again less than an hour on. */
  lemma RetentionFails()
    returns (init: State, ls: seq<Label>, s: State, ls': seq<Label>, s': State, a: string, b: string)
    ensures Init(init) && Reaches(init, ls, s) && NonRepeating(init, ls) && NoFailure(ls)
    ensures BookCell(s.table, a, b).Tomb? && BookCell(s.table, a, b).expires == s.now + RETENTION
    ensures Reaches(s, ls', s') && NoFailure(ls') && s'.now < s.now + RETENTION && BookCell(s'.table, a, b).Absent?
  {
    a, b := "x", "y";
    assert a[0] != b[0];
    var book := Book(b, a, "T", 1);
    hide WellFormed, AuthorCell, BookCell, Apply, Step, Enabled, Reaches, NonRepeating, OneBook, NoStaleCascade;
    var s5, s8, s11;
    init, ls, s5 := OneBookReachable(a, b);
    var more;
    s8, more := OneBookListed(s5, book);
    ReachesAppend(init, ls, s5, more, s8);
    ls := ls + more;
    s11, more := TenSecondsLater(s8, book);
    ReachesAppend(init, ls, s8, more, s11);
    ls := ls + more;
    s, ls := LastDelete(init, ls, s11, book);
    ls', s' := FreedEarly(s, a, b, 10 + RETENTION);
  }

  lemma OneBookReachable(x: string, y: string) returns (init: State, ls: seq<Label>, s: State)
    requires x != y
    ensures Init(init) && Reaches(init, ls, s) && NonRepeating(init, ls) && NoFailure(ls)
    ensures OneBook(s, Book(y, x, "T", 1))
  {
    init := State(map[], 0, map[], {});
    hide WellFormed, AuthorCell, BookCell, Apply, Step, Enabled, Reaches, NonRepeating, OneBook;
    var ann := Author(x, "Ann", "");
    FirstAuthor(ann);
    FirstThree(ann);
    var s3 := State(Apply(map[], PutAuthor(ann)), 0, map[0 := Done(None), 1 := BookCheck(x, "T", 1)], {x});
    var first := [Begin(0, CreateAuthor("Ann", ""), x), Act(0, GO), Begin(1, CreateBook(x, "T", 1), "")];
    s, ls := OneBookFrom(s3, x, y);
    ReachesAppend(init, first, s3, ls, s);
    ls := first + ls;
  }

  lemma OneBookListed(s5: State, b: Book) returns (s: State, ls: seq<Label>)
    requires OneBook(s5, b)
    ensures Reaches(s5, ls, s) && NonRepeating(s5, ls) && NoFailure(ls) && s.now == 0
    ensures BookCell(s.table, b.authorID, b.id) == Live(b)
    ensures 2 in s.procs && s.procs[2] == CascadeStamp(b.authorID, [b]) && 3 !in s.procs
  {
    hide WellFormed, AuthorCell, BookCell, Reaches, NonRepeating, NoFailure, LiveBooksOf, Step, Enabled, Fresh;
    OnlyBook(s5.table, b);
    var s7;
    s7, ls := Marked(s5, b, 2);
    var l7 := Act(2, Go("", [b], true));
    ListOne(s7, b, 2);
    s := Step(s7, l7);
    OneStep(s7, l7);
    ReachesAppend(s5, ls, s7, [l7], s);
    ls := ls + [l7];
  }

  lemma LastDelete(init: State, before: seq<Label>, s: State, b: Book) returns (s': State, ls: seq<Label>)
    requires Init(init) && Reaches(init, before, s) && NonRepeating(init, before) && NoFailure(before)
    requires BookCell(s.table, b.authorID, b.id) == Live(b) && s.now == 10
    requires 2 in s.procs && s.procs[2] == CascadeWrite(b.authorID, [b], RETENTION)
    requires 3 in s.procs && s.procs[3] == BookMark(b.authorID, b.id, 10 + RETENTION)
    ensures Reaches(init, ls, s') && NonRepeating(init, ls) && NoFailure(ls) && Inv(s') && s'.now == 10
    ensures BookCell(s'.table, b.authorID, b.id).Tomb? && BookCell(s'.table, b.authorID, b.id).expires == 10 + RETENTION
    ensures !NoStaleCascade(s', b.authorID, b.id, 10 + RETENTION)
  {
    hide WellFormed, AuthorCell, BookCell, Step, Reaches, NonRepeating, Init, Inv;
    InvInit(init);
    InvReaches(init, before, s);
    InvForm(s);
    var l := Act(3, GO);
    MarkedBook(s, 3, GO);
    s' := Step(s, l);
    OneStep(s, l);
    ls := before + [l];
    ReachesAppend(init, before, s, [l], s');
    InvReaches(init, ls, s');
    assert s'.procs[2] == s.procs[2] && !Avoids([b], b.authorID, b.id) by {
      assert [b][0] == b;
    }
  }

  // ---- The same with a repeated identifier -----------------------------------

  /** A second CreateBook draws the identifier of the book that is there, and is about to
      put it. */
  lemma Redrawn(s5: State, b: Book) returns (s: State, ls: seq<Label>)
    requires WellFormed(s5.table) && s5.now == 0 && 2 !in s5.procs && AuthorCell(s5.table, b.authorID).Live?
    requires CatalogBus.BookIsValid(b.title, b.year)
    ensures Reaches(s5, ls, s) && NoFailure(ls)
    ensures s.table == s5.table && s.now == 0 && s.procs == s5.procs[2 := BookPut(b)]
  {
    hide WellFormed, AuthorCell, BookCell;
    var l0 := Begin(2, Request.CreateBook(b.authorID, b.title, b.year), "");
    var l1 := Act(2, Go(b.id, [], true));
    var s6 := Step(s5, l0);
    assert s6.procs == s5.procs[2 := BookCheck(b.authorID, b.title, b.year)];
    var s7 := Step(s6, l1);
    assert s7.table == s5.table && s7.procs == s5.procs[2 := BookPut(b)];
    ReachesThree(s5, l0, l1, Tick(0));
    s := Step(s7, Tick(0));
    ls := [l0, l1, Tick(0)];
  }

  lemma OneBookHas(s5: State, b: Book)
    requires OneBook(s5, b)
    ensures WellFormed(s5.table) && s5.now == 0 && 2 !in s5.procs && 3 !in s5.procs
    ensures AuthorCell(s5.table, b.authorID).Live? && LiveBooksOf(s5.table, b.authorID) == {b}
  {
    hide WellFormed, AuthorCell, BookCell, LiveBooksOf;
    OnlyBook(s5.table, b);
  }

  /** After the listing: the cascade succeeds, its tombstone expires and is swept, and the
      put in flight brings the book back. */
  lemma Revived(s: State, p: nat, q: nat, b: Book) returns (ls: seq<Label>, s': State)
    requires WellFormed(s.table) && p != q && p in s.procs && q in s.procs
    requires s.procs[p] == CascadeStamp(b.authorID, [b]) && s.procs[q] == BookPut(b)
    ensures Reaches(s, ls, s') && NoFailure(ls)
    ensures p in s'.procs && s'.procs[p] == Done(None) && BookCell(s'.table, b.authorID, b.id).Live?
  {
    OneDistinct(b);
    hide *;
    var s1, s2;
    GoGoes(q);
    ls, s1 := StampedFinishes(s, p);
    OneTomb(s.table, b, s.now + RETENTION);
    var more;
    more, s2 := WaitAndSweep(s1, b.authorID, b.id);
    ReachesAppend(s, ls, s1, more, s2);
    ls := ls + more;
    PutStep(s2, q, b);
    s' := Step(s2, Act(q, GO));
    OneStep(s2, Act(q, GO));
    ReachesAppend(s, ls, s2, [Act(q, GO)], s');
    ls := ls + [Act(q, GO)];
  }

  lemma OneDistinct(b: Book)
    ensures DistinctBooks([b])
  {
  }

  lemma OneTomb(t: Table, b: Book, e: int)
    requires WellFormed(t)
    ensures WellFormed(Tombstoned(t, [b], e)) && BookCell(Tombstoned(t, [b], e), b.authorID, b.id).Tomb?
  {
    hide WellFormed, BookCell, Tombstoned;
    ReputCells(t, [b], e);
    assert [b][0] == b;
    ReputIsTomb([b], e, b.authorID, b.id, BookCell(t, b.authorID, b.id));
  }

  /** From the empty table: an author, its book, and a create about to put that book again. */
  lemma PutAgain(b: Book) returns (init: State, ls: seq<Label>, s: State)
    requires b.id != b.authorID && b.title == "T" && b.year == 1
    ensures Init(init) && Reaches(init, ls, s) && NoFailure(ls)
    ensures WellFormed(s.table) && AuthorCell(s.table, b.authorID).Live? && LiveBooksOf(s.table, b.authorID) == {b}
    ensures 2 in s.procs && s.procs[2] == BookPut(b) && 3 !in s.procs
  {
    assert CatalogBus.BookIsValid(b.title, b.year);
    assert b == Book(b.id, b.authorID, "T", 1);
    hide *;
    var s5;
    init, ls, s5 := OneBookReachable(b.authorID, b.id);
    OneBookHas(s5, b);
    var more;
    s, more := Redrawn(s5, b);
    ReachesAppend(init, ls, s5, more, s);
    ls := ls + more;
  }

  /** Cascade safety needs identifiers that do not repeat. A failure-free run from the empty
      table, in which one identifier is drawn twice: a book that DeleteAuthor listed is live
      again after that DeleteAuthor has succeeded. */
  lemma SafetyNeedsFreshIDs()
    returns (init: State, before: seq<Label>, s: State, p: nat, c: Choice, after: seq<Label>, s': State, book: Book)
    ensures Init(init) && Reaches(init, before, s) && NoFailure(before)
    ensures p in s.procs && s.procs[p].CascadeList? && c.Go? && c.complete && Enabled(s, Act(p, c)) && book in c.page
    ensures Reaches(Step(s, Act(p, c)), after, s') && NoFailure(after)
    ensures p in s'.procs && s'.procs[p] == Done(None) && BookCell(s'.table, s.procs[p].id, book.id).Live?
  {
    assert "x"[0] != "y"[0];
    hide *;
    book := Book("y", "x", "T", 1);
    p, c := 3, Go("", [book], true);
    var s7, more;
    init, before, s7 := PutAgain(book);
    s, more := Marked(s7, book, p);
    ReachesAppend(init, before, s7, more, s);
    before := before + more;
    ListOne(s, book, p);
    after, s' := Revived(Step(s, Act(p, c)), p, 2, book);
  }

  // ---- Truncated pages -------------------------------------------------------

  /** A live book that the page left out is exactly as it was when the cascade has run to
      its end, if nothing else touches it meanwhile. */
  lemma UnlistedSurvives(s: State, p: nat, c: Choice, ls: seq<Label>, s': State, b: string)
    requires Inv(s) && p in s.procs && s.procs[p].CascadeList? && c.Go? && Enabled(s, Act(p, c))
    requires CatalogSolo.Alone(ls, p) && Reaches(Step(s, Act(p, c)), ls, s')
    requires p in s'.procs && s'.procs[p].Done?
    requires b in Unlisted(s.table, s.procs[p].id, c.page)
    ensures BookCell(s'.table, s.procs[p].id, b) == BookCell(s.table, s.procs[p].id, b)
  {
    hide *;
    ListStep(s, p, c);
    InvForm(s);
    var s1 := Step(s, Act(p, c));
    ReadyAfterListing(s1, p, c.page);
    CatalogSolo.SoloFinishes(s1, p, ls, s');
    TableAfterListing(s1, p, c.page, s'.now, s'.table, s'.procs[p].err);
    KeptByReput(s.table, s.procs[p].id, c.page, b, s.now, s'.now, s'.table);
  }

  lemma ReadyAfterListing(s1: State, p: nat, page: seq<Book>)
    requires p in s1.procs && DistinctBooks(page)
    requires s1.procs[p].Done? || (s1.procs[p].CascadeStamp? && s1.procs[p].pending == page && page != [])
    ensures CatalogSolo.Ready(s1.procs[p])
  {
    hide DistinctBooks;
  }

  lemma TableAfterListing(s1: State, p: nat, page: seq<Book>, end: int, t': Table, err: Option<CatalogBus.BusError>)
    requires p in s1.procs && CatalogSolo.Finishes(s1.table, s1.now, s1.procs[p], end, t', err)
    requires s1.procs[p].Done? || (s1.procs[p].CascadeStamp? && s1.procs[p].pending == page)
    ensures t' == s1.table || exists stamp :: CatalogSolo.ReadBetween(s1.now, stamp, end)
                                              && t' == Tombstoned(s1.table, page, stamp)
  {
    hide Tombstoned;
  }

  lemma KeptByReput(t: Table, id: string, page: seq<Book>, b: string, now: int, end: int, t': Table)
    requires WellFormed(t) && !Listed(page, b)
    requires t' == t || exists stamp :: CatalogSolo.ReadBetween(now, stamp, end) && t' == Tombstoned(t, page, stamp)
    ensures BookCell(t', id, b) == BookCell(t, id, b)
  {
    hide WellFormed, BookCell, Tombstoned;
    if t' != t {
      var stamp :| CatalogSolo.ReadBetween(now, stamp, end) && t' == Tombstoned(t, page, stamp);
      ReputCells(t, page, stamp);
      ReputIsTomb(page, stamp, id, b, BookCell(t, id, b));
    }
  }
}
