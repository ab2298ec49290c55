/** What a completed DeleteAuthor guarantees, and for how long a tombstone keeps its
    key, over every interleaving. */
module CatalogCascade {
  import opened Common
  import opened CatalogItems
  import opened CatalogTable
  import opened CatalogStorage
  import opened CatalogMachine
  import CatalogBus

  // ---- Orphans ---------------------------------------------------------------

  /** The CreateBook processes for an author that have passed their author check and
      have not put yet. */
  function InFlight(s: State, id: string): set<nat> {
    set p | p in s.procs && s.procs[p].BookPut? && s.procs[p].b.authorID == id
  }

  function InFlightIDs(s: State, id: string): set<string> {
    set p | p in InFlight(s, id) :: s.procs[p].b.id
  }

  /** The live books of an author that a page does not list: none if it is complete. */
  function Unlisted(t: Table, id: string, page: seq<Book>): set<string> {
    set b | b in LiveBooksOf(t, id) && b !in page :: b.id
  }

  function LiveIDs(t: Table, id: string): set<string> {
    set b | b in LiveBooksOf(t, id) :: b.id
  }

  predicate Listed(pending: seq<Book>, b: string) {
    exists i :: 0 <= i < |pending| && pending[i].id == b
  }

  /** What is left of a page after its first k books, k whole batches; nothing once all of
      it has been written. */
  predicate Left(page: seq<Book>, rest: seq<Book>, finished: bool) {
    if finished then rest == []
    else exists k: nat :: k < |page| && WholeBatches(k) && rest == page[k..]
  }

  /** The live books under the author are those in `rest`, those that were in flight, and
      those the page left out. */
  ghost predicate LiveWithin(s: State, id: string, rest: seq<Book>, inFlight: set<string>, unlisted: set<string>) {
    && SpentAuthor(s, id) && !AuthorCell(s.table, id).Live?
    && (forall q | q in InFlight(s, id) :: s.procs[q].b.id in inFlight)
    && (forall b | BookCell(s.table, id, b).Live? :: b in inFlight || b in unlisted || Listed(rest, b))
  }

  /** How a cascade can end once it has listed the books. */
  predicate Ended(proc: Proc) {
    || proc == Done(None)
    || proc == Done(Some(CatalogBus.Internal(Failed)))
    || proc == Done(Some(CatalogBus.Internal(Refused)))
  }

  /** Process p still has `rest` to write, or has ended; without an error only if there was
      nothing left. */
  predicate Wrote(s: State, p: nat, id: string, page: seq<Book>, rest: seq<Book>) {
    && p in s.procs
    && (Ended(s.procs[p]) || (Writing(s.procs[p]) && s.procs[p].id == id && s.procs[p].pending == rest))
    && Left(page, rest, s.procs[p] == Done(None))
  }

  /** From the listing of process p on. */
  ghost predicate Tracking(s: State, p: nat, id: string, page: seq<Book>, inFlight: set<string>,
                           unlisted: set<string>) {
    exists rest :: Wrote(s, p, id, page, rest) && LiveWithin(s, id, rest, inFlight, unlisted)
  }

  lemma InFlightStays(s: State, l: Label, id: string, ids: set<string>)
    requires Enabled(s, l) && !AuthorCell(s.table, id).Live?
    requires forall q | q in InFlight(s, id) :: s.procs[q].b.id in ids
    ensures forall q | q in InFlight(Step(s, l), id) :: Step(s, l).procs[q].b.id in ids
  {
    hide AuthorCell, BookCell, Listing, Apply, Allowed, EffectOf, DrawnID;
    forall q | q in InFlight(Step(s, l), id) ensures Step(s, l).procs[q].b.id in ids {
      assert q in InFlight(s, id);
    }
  }

  /** A book live after a step was live before, or was in flight. */
  lemma LiveBefore(s: State, l: Label, id: string, b: string)
    requires WellFormed(s.table) && Enabled(s, l)
    requires BookCell(Step(s, l).table, id, b).Live?
    ensures BookCell(s.table, id, b).Live? || b in InFlightIDs(s, id)
  {
    hide WellFormed, BookCell, Step;
    if !BookCell(s.table, id, b).Live? {
      BookComesFromPut(s, l, id, b);
      assert l.p in InFlight(s, id);
    }
  }

  /** A written batch is no longer live: what is live of the pending books is the rest. */
  lemma WriteRetires(s: State, l: Label, id: string, b: string)
    requires Inv(s) && Enabled(s, l) && l.Act? && l.c.Go? && s.procs[l.p].CascadeWrite? && s.procs[l.p].id == id
    requires BookCell(Step(s, l).table, id, b).Live? && Listed(s.procs[l.p].pending, b)
    ensures Listed(RestOf(s.procs[l.p].pending), b)
  {
    hide Inv, WellFormed, AuthorCell, BookCell, Step, RestOf, Listed;
    BatchRetired(s, l, id, b);
    RestListed(s.procs[l.p].pending, b);
  }

  function RestOf(pending: seq<Book>): seq<Book> {
    if |pending| > BATCH_LIMIT then pending[BATCH_LIMIT..] else []
  }

  lemma RestListed(pending: seq<Book>, b: string)
    requires Listed(pending, b) && forall i | 0 <= i < |NextBatch(pending)| :: NextBatch(pending)[i].id != b
    ensures |pending| > BATCH_LIMIT && Listed(RestOf(pending), b)
  {
    assert forall k | 0 <= k < |NextBatch(pending)| :: NextBatch(pending)[k] == pending[k];
    var i :| 0 <= i < |pending| && pending[i].id == b;
    assert pending[BATCH_LIMIT..][i - BATCH_LIMIT] == pending[i];
  }

  lemma AllowedBatch(s: State, p: nat)
    requires Inv(s) && p in s.procs && s.procs[p].CascadeWrite?
    ensures var batch := NextBatch(s.procs[p].pending);
            && Allowed(s.table, TombstoneBatch(batch, s.procs[p].expires))
            && batch != [] && DistinctBooks(batch)
            && forall i | 0 <= i < |batch| :: batch[i] == s.procs[p].pending[i] && batch[i].authorID == s.procs[p].id
  {
    var pending := s.procs[p].pending;
    assert ProcOk(s, s.procs[p]);
    hide WellFormed, BookCell, AuthorCell, SpentAuthor, SpentBook;
    SliceDistinct(pending, 0, |NextBatch(pending)|);
    assert NextBatch(pending) == pending[0..|NextBatch(pending)|];
  }

  lemma BatchRetired(s: State, l: Label, id: string, b: string)
    requires Inv(s) && Enabled(s, l) && l.Act? && l.c.Go? && s.procs[l.p].CascadeWrite? && s.procs[l.p].id == id
    requires BookCell(Step(s, l).table, id, b).Live?
    ensures var batch := NextBatch(s.procs[l.p].pending);
            forall i | 0 <= i < |batch| :: batch[i].id != b
  {
    hide WellFormed, BookCell, AuthorCell, Step, SpentAuthor, SpentBook, DistinctBooks, Allowed;
    AllowedBatch(s, l.p);
    BatchCells(s, l, id, b);
  }

  lemma BatchCells(s: State, l: Label, id: string, b: string)
    requires WellFormed(s.table) && Enabled(s, l) && l.Act? && l.c.Go? && s.procs[l.p].CascadeWrite?
    requires NextBatch(s.procs[l.p].pending) != [] && DistinctBooks(NextBatch(s.procs[l.p].pending))
    ensures var batch := NextBatch(s.procs[l.p].pending);
            (exists i :: 0 <= i < |batch| && batch[i].authorID == id && batch[i].id == b) ==>
              BookCell(Step(s, l).table, id, b).Tomb?
              && BookCell(Step(s, l).table, id, b).expires == s.procs[l.p].expires
  {
    hide WellFormed, BookCell, AuthorCell, Step, Apply, DistinctBooks;
    StepTable(s, l);
    ReputIsTomb(NextBatch(s.procs[l.p].pending), s.procs[l.p].expires, id, b, BookCell(s.table, id, b));
  }

  /** What process p has left to write after a step. */
  function RestAfter(s: State, l: Label, p: nat, rest: seq<Book>): seq<Book> {
    if l.Act? && l.c.Go? && l.p == p && p in s.procs && s.procs[p].CascadeWrite? then RestOf(rest) else rest
  }

  lemma TrackingStep(s: State, l: Label, p: nat, id: string, page: seq<Book>, inFlight: set<string>,
                     unlisted: set<string>)
    requires Inv(s) && Enabled(s, l) && Fresh(s, l) && Tracking(s, p, id, page, inFlight, unlisted)
    ensures Tracking(Step(s, l), p, id, page, inFlight, unlisted)
  {
    var rest :| Wrote(s, p, id, page, rest) && LiveWithin(s, id, rest, inFlight, unlisted);
    hide *;
    WroteStep(s, l, p, id, page, rest);
    LiveWithinStep(s, l, p, id, page, rest, inFlight, unlisted);
    Tracked(Step(s, l), p, id, page, RestAfter(s, l, p, rest), inFlight, unlisted);
  }

  lemma Tracked(s: State, p: nat, id: string, page: seq<Book>, rest: seq<Book>, inFlight: set<string>,
                unlisted: set<string>)
    requires Wrote(s, p, id, page, rest) && LiveWithin(s, id, rest, inFlight, unlisted)
    ensures Tracking(s, p, id, page, inFlight, unlisted)
  {
    hide Wrote, LiveWithin;
  }

  lemma LiveWithinStep(s: State, l: Label, p: nat, id: string, page: seq<Book>, rest: seq<Book>,
                       inFlight: set<string>, unlisted: set<string>)
    requires Inv(s) && Enabled(s, l) && Fresh(s, l)
    requires Wrote(s, p, id, page, rest) && LiveWithin(s, id, rest, inFlight, unlisted)
    ensures LiveWithin(Step(s, l), id, RestAfter(s, l, p, rest), inFlight, unlisted)
  {
    var s' := Step(s, l);
    InvForm(s);
    hide Inv, WellFormed, BookCell, AuthorCell, SpentAuthor, Step, Fresh, Enabled, Left, RestOf, Listed;
    SpentStays(s, l, id);
    DeadAuthorStays(s, l, id);
    InFlightStays(s, l, id, inFlight);
    forall b | BookCell(s'.table, id, b).Live?
      ensures b in inFlight || b in unlisted || Listed(RestAfter(s, l, p, rest), b)
    {
      LiveBefore(s, l, id, b);
      if l.Act? && l.c.Go? && l.p == p && s.procs[p].CascadeWrite? && Listed(rest, b) {
        WriteRetires(s, l, id, b);
      }
    }
  }

  lemma WroteStep(s: State, l: Label, p: nat, id: string, page: seq<Book>, rest: seq<Book>)
    requires Inv(s) && Enabled(s, l) && Wrote(s, p, id, page, rest)
    ensures Wrote(Step(s, l), p, id, page, RestAfter(s, l, p, rest))
  {
    if l.Act? && l.c.Go? && l.p == p && s.procs[p].CascadeWrite? {
      hide Inv, Left, AuthorCell, BookCell, Apply, Allowed, DistinctBooks;
      AllowedBatch(s, p);
      RestIsLeft(page, rest);
    } else {
      hide Inv, Left;
      TrackedProc(s, l, p);
      hide Enabled, Step;
    }
  }

  lemma RestIsLeft(page: seq<Book>, rest: seq<Book>)
    requires Left(page, rest, false)
    ensures Left(page, RestOf(rest), |rest| <= BATCH_LIMIT)
  {
    var k: nat :| k < |page| && WholeBatches(k) && rest == page[k..];
    if |rest| > BATCH_LIMIT {
      OneMoreBatch(k);
      assert rest[BATCH_LIMIT..] == page[k + BATCH_LIMIT..];
    }
  }

  lemma TrackedProc(s: State, l: Label, p: nat)
    requires Enabled(s, l) && p in s.procs && (s.procs[p].Done? || Writing(s.procs[p]))
    ensures var s' := Step(s, l);
            && p in s'.procs
            && (s.procs[p].Done? ==> s'.procs[p] == s.procs[p])
            && (!(l.Act? && l.c.Go? && l.p == p && s.procs[p].CascadeWrite?) ==>
                  || s'.procs[p] == s.procs[p]
                  || (s'.procs[p] == Done(Some(CatalogBus.Internal(Failed))) && !s.procs[p].Done?)
                  || (s.procs[p].CascadeStamp? && s'.procs[p].CascadeWrite?
                      && s'.procs[p].id == s.procs[p].id && s'.procs[p].pending == s.procs[p].pending))
  {
    hide AuthorCell, BookCell, Listing, Apply, Allowed, EffectOf, DrawnID;
  }

  lemma {:induction false} TrackingReaches(s: State, ls: seq<Label>, s': State, p: nat, id: string, page: seq<Book>,
                                           inFlight: set<string>, unlisted: set<string>)
    requires Inv(s) && Reaches(s, ls, s') && NonRepeating(s, ls) && Tracking(s, p, id, page, inFlight, unlisted)
    ensures Tracking(s', p, id, page, inFlight, unlisted)
    decreases |ls|
  {
    hide Inv, Tracking, Step, Enabled, Fresh;
    if ls == [] {
    } else {
      InvStep(s, ls[0]);
      TrackingStep(s, ls[0], p, id, page, inFlight, unlisted);
      TrackingReaches(Step(s, ls[0]), ls[1..], s', p, id, page, inFlight, unlisted);
    }
  }

  lemma ListingStarts(s: State, p: nat, c: Choice)
    requires Inv(s) && p in s.procs && s.procs[p].CascadeList? && c.Go? && Enabled(s, Act(p, c))
    ensures var s' := Step(s, Act(p, c));
            && s'.table == s.table && Wrote(s', p, s.procs[p].id, c.page, c.page)
            && InFlight(s', s.procs[p].id) == InFlight(s, s.procs[p].id)
            && (forall q | q in InFlight(s, s.procs[p].id) ::
                  q in s.procs && q in s'.procs && s'.procs[q] == s.procs[q])
            && SpentAuthor(s', s.procs[p].id) && !AuthorCell(s.table, s.procs[p].id).Live?
  {
    var s' := Step(s, Act(p, c));
    ProcIsOk(s, p);
    NoBatchYet();
    assert c.page[0..] == c.page;
    hide Inv, WellFormed, BookCell, AuthorCell, Listing, LiveBooksOf, WholeBatches;
    assert InFlight(s', s.procs[p].id) == InFlight(s, s.procs[p].id);
  }

  /** The listing step starts the tracking. */
  lemma TrackingStarts(s: State, p: nat, c: Choice)
    requires Inv(s) && p in s.procs && s.procs[p].CascadeList? && c.Go? && Enabled(s, Act(p, c))
    ensures var id := s.procs[p].id;
            Tracking(Step(s, Act(p, c)), p, id, c.page, InFlightIDs(s, id), Unlisted(s.table, id, c.page))
  {
    var id := s.procs[p].id;
    var s' := Step(s, Act(p, c));
    hide *;
    InvForm(s);
    ListingStarts(s, p, c);
    LiveAtListing(s, s', id, c.page);
    Tracked(s', p, id, c.page, c.page, InFlightIDs(s, id), Unlisted(s.table, id, c.page));
  }

  lemma LiveAtListing(s: State, s': State, id: string, page: seq<Book>)
    requires WellFormed(s.table) && s'.table == s.table && InFlight(s', id) == InFlight(s, id)
    requires forall q | q in InFlight(s, id) :: q in s.procs && q in s'.procs && s'.procs[q] == s.procs[q]
    requires SpentAuthor(s', id) && !AuthorCell(s.table, id).Live?
    ensures LiveWithin(s', id, page, InFlightIDs(s, id), Unlisted(s.table, id, page))
  {
    hide WellFormed, AuthorCell, BookCell, SpentAuthor, Unlisted, Listed;
    forall b | BookCell(s.table, id, b).Live? ensures b in Unlisted(s.table, id, page) || Listed(page, b) {
      ListedOrUnlisted(s.table, id, page, b);
    }
  }

  lemma ListedOrUnlisted(t: Table, id: string, page: seq<Book>, b: string)
    requires WellFormed(t) && BookCell(t, id, b).Live?
    ensures b in Unlisted(t, id, page) || Listed(page, b)
  {
    hide WellFormed, BookCell, LiveBooks;
    RowKinds(t, id, b);
    var book := BookCell(t, id, b).v;
    LiveBooksAreLiveCells(t, book);
    if book in page {
      var i :| 0 <= i < |page| && page[i] == book;
    }
  }

  /** Orphan bound. In every reachable state in which a DeleteAuthor has listed the
      books and succeeded, each live book under the author was in flight when it listed
      them, or was live and missing from the page; a complete page leaves none out. */
  lemma OrphanBound(init: State, before: seq<Label>, s: State, p: nat, c: Choice, after: seq<Label>, s': State)
    requires Init(init) && Reaches(init, before, s) && NonRepeating(init, before)
    requires p in s.procs && s.procs[p].CascadeList? && c.Go? && Enabled(s, Act(p, c))
    requires Reaches(Step(s, Act(p, c)), after, s') && NonRepeating(Step(s, Act(p, c)), after)
    requires p in s'.procs && s'.procs[p] == Done(None)
    ensures var id := s.procs[p].id;
            && (forall b | BookCell(s'.table, id, b).Live? ::
                  b in InFlightIDs(s, id) || b in Unlisted(s.table, id, c.page))
            && (c.complete ==> Unlisted(s.table, id, c.page) == {})
            && |LiveIDs(s'.table, id)| <= |InFlight(s, id)| + |Unlisted(s.table, id, c.page)|
  {
    hide *;
    var id := s.procs[p].id;
    TrackedToTheEnd(init, before, s, p, c, after, s');
    TrackedLive(s', p, id, c.page, InFlightIDs(s, id), Unlisted(s.table, id, c.page));
    NothingUnlisted(s, p, c);
    InFlightIDsAre(s, id);
    CountIDs(s, InFlight(s, id));
    FinalForm(init, before, s, p, c, after, s');
    CountLive(s'.table, id, InFlightIDs(s, id), Unlisted(s.table, id, c.page));
  }

  lemma TrackedLive(s': State, p: nat, id: string, page: seq<Book>, inFlight: set<string>, unlisted: set<string>)
    requires Tracking(s', p, id, page, inFlight, unlisted) && p in s'.procs && s'.procs[p] == Done(None)
    ensures forall b | BookCell(s'.table, id, b).Live? :: b in inFlight || b in unlisted
  {
  }

  lemma InFlightIDsAre(s: State, id: string)
    ensures forall p | p in InFlight(s, id) :: p in s.procs && s.procs[p].BookPut?
    ensures InFlightIDs(s, id) == set p | p in InFlight(s, id) :: s.procs[p].b.id
  {
  }

  lemma CountLive(t: Table, id: string, xs: set<string>, ys: set<string>)
    requires WellFormed(t) && forall b | BookCell(t, id, b).Live? :: b in xs || b in ys
    ensures |LiveIDs(t, id)| <= |xs| + |ys|
  {
    hide WellFormed, BookCell, LiveIDs;
    forall x | x in LiveIDs(t, id) ensures x in xs + ys {
      LiveIDIsLive(t, id, x);
    }
    SubsetSize(LiveIDs(t, id), xs + ys);
  }

  lemma TrackedToTheEnd(init: State, before: seq<Label>, s: State, p: nat, c: Choice, after: seq<Label>, s': State)
    requires Init(init) && Reaches(init, before, s) && NonRepeating(init, before)
    requires p in s.procs && s.procs[p].CascadeList? && c.Go? && Enabled(s, Act(p, c))
    requires Reaches(Step(s, Act(p, c)), after, s') && NonRepeating(Step(s, Act(p, c)), after)
    ensures var id := s.procs[p].id;
            Tracking(s', p, id, c.page, InFlightIDs(s, id), Unlisted(s.table, id, c.page))
  {
    assert Fresh(s, Act(p, c));
    hide Inv, Fresh, Tracking, Step, Enabled, Reaches, NonRepeating, Init, LiveBooksOf;
    InvInit(init);
    InvReaches(init, before, s);
    InvStep(s, Act(p, c));
    TrackingStarts(s, p, c);
    TrackingReaches(Step(s, Act(p, c)), after, s', p, s.procs[p].id, c.page,
                    InFlightIDs(s, s.procs[p].id), Unlisted(s.table, s.procs[p].id, c.page));
  }

  lemma NothingUnlisted(s: State, p: nat, c: Choice)
    requires p in s.procs && s.procs[p].CascadeList? && c.Go? && Enabled(s, Act(p, c))
    ensures c.complete ==> Unlisted(s.table, s.procs[p].id, c.page) == {}
  {
    hide LiveBooksOf;
  }

  lemma LiveIDIsLive(t: Table, id: string, x: string)
    requires WellFormed(t)
    ensures x in LiveIDs(t, id) <==> BookCell(t, id, x).Live?
  {
    hide WellFormed, BookCell, LiveBooks;
    if b :| b in LiveBooksOf(t, id) && b.id == x {
      LiveBooksAreLiveCells(t, b);
    }
    if BookCell(t, id, x).Live? {
      RowKinds(t, id, x);
      LiveBooksAreLiveCells(t, BookCell(t, id, x).v);
    }
  }

  lemma FinalForm(init: State, before: seq<Label>, s: State, p: nat, c: Choice, after: seq<Label>, s': State)
    requires Init(init) && Reaches(init, before, s)
    requires Enabled(s, Act(p, c)) && Reaches(Step(s, Act(p, c)), after, s')
    ensures WellFormed(s'.table)
  {
    ReachableWellFormed(init, before, s);
    StepTable(s, Act(p, c));
    ReachableWellFormed(Step(s, Act(p, c)), after, s');
  }

  lemma {:induction false} CountIDs(s: State, ps: set<nat>)
    requires forall p | p in ps :: p in s.procs && s.procs[p].BookPut?
    ensures |set p | p in ps :: s.procs[p].b.id| <= |ps|
  {
    if ps == {} {
    } else {
      var p :| p in ps;
      CountIDs(s, ps - {p});
      var rest := set q | q in ps - {p} :: s.procs[q].b.id;
      assert (set q | q in ps :: s.procs[q].b.id) == rest + {s.procs[p].b.id};
    }
  }

  /** A listed book was not in flight when it was listed, and is not left out. */
  lemma ListedOnly(s: State, p: nat, c: Choice, book: Book)
    requires Inv(s) && p in s.procs && s.procs[p].CascadeList? && c.Go? && Enabled(s, Act(p, c)) && book in c.page
    ensures book.id !in InFlightIDs(s, s.procs[p].id) && book.id !in Unlisted(s.table, s.procs[p].id, c.page)
  {
    var id := s.procs[p].id;
    InvForm(s);
    ListedBooksOk(s, id, c);
    hide Inv, WellFormed, BookCell, AuthorCell, LiveBooks;
    CatalogBus.ListedBooksDistinct(s.table, id, c.page, c.complete);
    forall other | other in LiveBooksOf(s.table, id) && other.id == book.id ensures other in c.page {
      LiveBooksAreLiveCells(s.table, other);
    }
  }

  /** Cascade safety. A book the listing returned is not live once the DeleteAuthor has
      succeeded, in that or any later state, whatever runs in between. */
  lemma CascadeSafety(init: State, before: seq<Label>, s: State, p: nat, c: Choice, after: seq<Label>, s': State,
                      book: Book)
    requires Init(init) && Reaches(init, before, s) && NonRepeating(init, before)
    requires p in s.procs && s.procs[p].CascadeList? && c.Go? && Enabled(s, Act(p, c))
    requires Reaches(Step(s, Act(p, c)), after, s') && NonRepeating(Step(s, Act(p, c)), after)
    requires p in s'.procs && s'.procs[p] == Done(None)
    requires book in c.page
    ensures !BookCell(s'.table, s.procs[p].id, book.id).Live?
  {
    hide *;
    InvInit(init);
    InvReaches(init, before, s);
    ListedOnly(s, p, c, book);
    OrphanBound(init, before, s, p, c, after, s');
  }

  /** A cascade that failed after its listing has written a prefix of the page made of
      whole batches: a live book under the author is in what is left of the page, was in
      flight at the listing, or was left out; and no book of the written prefix is live. */
  lemma FailedCascade(init: State, before: seq<Label>, s: State, p: nat, c: Choice, after: seq<Label>, s': State)
    returns (k: nat)
    requires Init(init) && Reaches(init, before, s) && NonRepeating(init, before)
    requires p in s.procs && s.procs[p].CascadeList? && c.Go? && Enabled(s, Act(p, c))
    requires Reaches(Step(s, Act(p, c)), after, s') && NonRepeating(Step(s, Act(p, c)), after)
    requires p in s'.procs && s'.procs[p].Done? && s'.procs[p] != Done(None)
    ensures s'.procs[p].err == Some(CatalogBus.Internal(Failed))
    ensures k < |c.page| && k % 25 == 0
    ensures forall b | BookCell(s'.table, s.procs[p].id, b).Live? ::
              || b in InFlightIDs(s, s.procs[p].id) || b in Unlisted(s.table, s.procs[p].id, c.page)
              || Listed(c.page[k..], b)
    ensures forall i | 0 <= i < k :: !BookCell(s'.table, s.procs[p].id, c.page[i].id).Live?
  {
    hide *;
    var id := s.procs[p].id;
    TrackedToTheEnd(init, before, s, p, c, after, s');
    k := TrackedPrefix(s', p, id, c.page, InFlightIDs(s, id), Unlisted(s.table, id, c.page));
    ListingIsFresh(s, p, c);
    StepThen(s, Act(p, c), after, s');
    ReachesAppend(init, before, s, [Act(p, c)] + after, s');
    NeverRefused(init, before + ([Act(p, c)] + after), s');
    NotRefused(s', p);
    InvInit(init);
    InvReaches(init, before, s);
    forall i | 0 <= i < k ensures !BookCell(s'.table, id, c.page[i].id).Live? {
      ListedOnly(s, p, c, c.page[i]);
      ListedOnce(s, p, c, i, k);
    }
  }

  /** In a state in which no process was refused, such a cascade ended with a failed call. */
  lemma NotRefused(s: State, p: nat)
    requires NoneRefused(s) && p in s.procs && Ended(s.procs[p]) && s.procs[p] != Done(None)
    ensures s.procs[p].err == Some(CatalogBus.Internal(Failed))
  {
  }

  /** Listing the books draws no identifier. */
  lemma ListingIsFresh(s: State, p: nat, c: Choice)
    requires p in s.procs && s.procs[p].CascadeList? && Enabled(s, Act(p, c))
    ensures Fresh(s, Act(p, c))
  {
    hide AuthorCell, LiveBooksOf;
  }

  lemma TrackedPrefix(s': State, p: nat, id: string, page: seq<Book>, inFlight: set<string>, unlisted: set<string>)
    returns (k: nat)
    requires Tracking(s', p, id, page, inFlight, unlisted)
    requires p in s'.procs && s'.procs[p].Done? && s'.procs[p] != Done(None)
    ensures Ended(s'.procs[p]) && k < |page| && k % 25 == 0
    ensures forall b | BookCell(s'.table, id, b).Live? :: b in inFlight || b in unlisted || Listed(page[k..], b)
  {
    var rest :| Wrote(s', p, id, page, rest) && LiveWithin(s', id, rest, inFlight, unlisted);
    k :| k < |page| && WholeBatches(k) && rest == page[k..];
  }

  lemma ListedOnce(s: State, p: nat, c: Choice, i: nat, k: nat)
    requires Inv(s) && p in s.procs && s.procs[p].CascadeList? && c.Go? && Enabled(s, Act(p, c))
    requires i < k < |c.page|
    ensures !Listed(c.page[k..], c.page[i].id)
  {
    ListedBooksOk(s, s.procs[p].id, c);
    hide Inv, AuthorCell, BookCell, SpentBook, LiveBooksOf;
    forall j | 0 <= j < |c.page[k..]| ensures c.page[k..][j].id != c.page[i].id {
      assert c.page[k..][j] == c.page[k + j];
    }
  }

  // ---- No batch is refused ---------------------------------------------------

  /** No process has been told that one of its batches was refused. */
  predicate NoneRefused(s: State) {
    forall p | p in s.procs :: s.procs[p] != Done(Some(CatalogBus.Internal(Refused)))
  }

  lemma RefusedOrigin(s: State, l: Label, p: nat)
    requires Enabled(s, l) && NoneRefused(s)
    requires p in Step(s, l).procs && Step(s, l).procs[p] == Done(Some(CatalogBus.Internal(Refused)))
    ensures l.Act? && l.p == p && l.c.Go? && p in s.procs && s.procs[p].CascadeWrite?
    ensures !Allowed(s.table, TombstoneBatch(NextBatch(s.procs[p].pending), s.procs[p].expires))
  {
    hide AuthorCell, BookCell, Apply, DistinctBooks, EffectOf, DrawnID, Listing;
  }

  lemma {:induction false} StillNoneRefused(s: State, ls: seq<Label>, s': State)
    requires Inv(s) && NoneRefused(s) && Reaches(s, ls, s') && NonRepeating(s, ls)
    ensures NoneRefused(s')
    decreases |ls|
  {
    hide Inv, Step, Enabled, Fresh, Allowed;
    if ls == [] {
    } else {
      InvStep(s, ls[0]);
      forall p | p in Step(s, ls[0]).procs
        ensures Step(s, ls[0]).procs[p] != Done(Some(CatalogBus.Internal(Refused)))
      {
        if Step(s, ls[0]).procs[p] == Done(Some(CatalogBus.Internal(Refused))) {
          RefusedOrigin(s, ls[0], p);
          AllowedBatch(s, p);
          assert false;
        }
      }
      StillNoneRefused(Step(s, ls[0]), ls[1..], s');
    }
  }

  /** Over every interleaving, no cascade is ever refused a batch: what it writes is never
      empty, too long, or repeating. */
  lemma NeverRefused(init: State, ls: seq<Label>, s: State)
    requires Init(init) && Reaches(init, ls, s) && NonRepeating(init, ls)
    ensures NoneRefused(s)
  {
    InvInit(init);
    assert NoneRefused(init);
    hide *;
    StillNoneRefused(init, ls, s);
  }

  lemma {:induction false} DoneStays(s: State, ls: seq<Label>, s': State, p: nat)
    requires Reaches(s, ls, s') && p in s.procs && s.procs[p].Done?
    ensures p in s'.procs && s'.procs[p] == s.procs[p]
    decreases |ls|
  {
    hide Step, Enabled;
    if ls == [] {
    } else {
      TrackedProc(s, ls[0], p);
      DoneStays(Step(s, ls[0]), ls[1..], s', p);
    }
  }

  /** Once put and then not live, a book is never live again: the cascade's effect, and
      that of DeleteBook, is permanent. */
  lemma {:induction false} DeadForever(s: State, ls: seq<Label>, s': State, a: string, b: string)
    requires Inv(s) && Reaches(s, ls, s') && NonRepeating(s, ls)
    requires SpentBook(s, b) && !BookCell(s.table, a, b).Live?
    ensures !BookCell(s'.table, a, b).Live?
    decreases |ls|
  {
    if ls == [] {
    } else {
      InvStep(s, ls[0]);
      hide WellFormed, BookCell, AuthorCell, Step, Enabled, SpentBook, SpentAuthor, Fresh;
      SpentStays(s, ls[0], b);
      DeadBookStays(s, ls[0], a, b);
      DeadForever(Step(s, ls[0]), ls[1..], s', a, b);
    }
  }

  // ---- Books left behind by a cascade that failed --------------------------------

  /** The author is not live in any state of the run. */
  ghost predicate DeadThroughout(s: State, ls: seq<Label>, id: string)
    decreases |ls|
  {
    && !AuthorCell(s.table, id).Live?
    && (ls != [] && Enabled(s, ls[0]) ==> DeadThroughout(Step(s, ls[0]), ls[1..], id))
  }

  /** Over every interleaving, with failures and repeated identifiers: as long as an author
      is not live, a book live later was live before or in flight before. So what a failed
      DeleteAuthor leaves live only shrinks, but for the creates past their author check. */
  lemma {:induction false} StrandedOnlyShrink(s: State, ls: seq<Label>, s': State, id: string, ids: set<string>)
    requires WellFormed(s.table) && Reaches(s, ls, s') && DeadThroughout(s, ls, id)
    requires InFlightIDs(s, id) <= ids && LiveIDs(s.table, id) <= ids
    ensures LiveIDs(s'.table, id) <= ids
    decreases |ls|
  {
    if ls == [] {
    } else {
      var l, s1 := ls[0], Step(s, ls[0]);
      assert Enabled(s, l) && !AuthorCell(s.table, id).Live?;
      hide *;
      StepTable(s, l);
      StrandedStep(s, l, id, ids);
      StrandedOnlyShrink(s1, ls[1..], s', id, ids);
    }
  }

  lemma StrandedStep(s: State, l: Label, id: string, ids: set<string>)
    requires WellFormed(s.table) && Enabled(s, l) && !AuthorCell(s.table, id).Live?
    requires InFlightIDs(s, id) <= ids && LiveIDs(s.table, id) <= ids
    ensures InFlightIDs(Step(s, l), id) <= ids && LiveIDs(Step(s, l).table, id) <= ids
  {
    var s1 := Step(s, l);
    forall q | q in InFlight(s, id) ensures s.procs[q].b.id in ids {
      assert s.procs[q].b.id in InFlightIDs(s, id);
    }
    hide WellFormed, AuthorCell, BookCell, Step, Enabled, LiveIDs;
    StepTable(s, l);
    InFlightStays(s, l, id, ids);
    forall x | x in LiveIDs(s1.table, id) ensures x in ids {
      LiveIDIsLive(s1.table, id, x);
      LiveBefore(s, l, id, x);
      LiveIDIsLive(s.table, id, x);
    }
  }

  /** An author that is dead, and whose put is past, is dead throughout. */
  lemma {:induction false} SpentIsDead(s: State, ls: seq<Label>, s': State, id: string)
    requires Inv(s) && Reaches(s, ls, s') && NonRepeating(s, ls)
    requires SpentAuthor(s, id) && !AuthorCell(s.table, id).Live?
    ensures DeadThroughout(s, ls, id) && !AuthorCell(s'.table, id).Live?
    decreases |ls|
  {
    hide Inv, WellFormed, AuthorCell, SpentAuthor, Step, Fresh, Enabled;
    if ls == [] {
    } else {
      InvForm(s);
      InvStep(s, ls[0]);
      SpentStays(s, ls[0], id);
      DeadAuthorStays(s, ls[0], id);
      SpentIsDead(Step(s, ls[0]), ls[1..], s', id);
    }
  }

  lemma StrandedBound(s: State, ls: seq<Label>, s': State, id: string, ids: set<string>)
    requires Inv(s) && Reaches(s, ls, s') && NonRepeating(s, ls)
    requires SpentAuthor(s, id) && !AuthorCell(s.table, id).Live?
    requires InFlightIDs(s, id) <= ids && LiveIDs(s.table, id) <= ids
    ensures LiveIDs(s'.table, id) <= ids && !AuthorCell(s'.table, id).Live?
  {
    hide *;
    InvForm(s);
    SpentIsDead(s, ls, s', id);
    StrandedOnlyShrink(s, ls, s', id, ids);
  }

  /** From the moment DeleteAuthor has marked its author, whether the rest of it succeeds,
      fails or never runs: the live books under the author are among those live or in
      flight at that moment. */
  lemma MarkedBound(init: State, before: seq<Label>, s: State, p: nat, c: Choice, after: seq<Label>, s': State)
    requires Init(init) && Reaches(init, before, s) && NonRepeating(init, before)
    requires p in s.procs && s.procs[p].AuthorMark? && c.Go? && AuthorCell(s.table, s.procs[p].id).Live?
    requires Reaches(Step(s, Act(p, c)), after, s') && NonRepeating(Step(s, Act(p, c)), after)
    ensures var id := s.procs[p].id;
            && !AuthorCell(s'.table, id).Live?
            && LiveIDs(s'.table, id) <= LiveIDs(s.table, id) + InFlightIDs(s, id)
  {
    var id := s.procs[p].id;
    var s1 := Step(s, Act(p, c));
    hide WellFormed, AuthorCell, BookCell, Step, Fresh, Reaches, NonRepeating, Init, Apply, SpentAuthor, SpentBook,
         LiveBooksOf, Inv, InFlight, InFlightIDs, LiveIDs;
    InvInit(init);
    InvReaches(init, before, s);
    MarkedState(s, p, c);
    StrandedBound(s1, after, s', id, LiveIDs(s.table, id) + InFlightIDs(s, id));
  }

  lemma MarkedState(s: State, p: nat, c: Choice)
    requires Inv(s) && p in s.procs && s.procs[p].AuthorMark? && c.Go? && AuthorCell(s.table, s.procs[p].id).Live?
    ensures Enabled(s, Act(p, c)) && Fresh(s, Act(p, c))
    ensures var id := s.procs[p].id;
            var s1 := Step(s, Act(p, c));
            && Inv(s1) && SpentAuthor(s1, id) && !AuthorCell(s1.table, id).Live?
            && InFlightIDs(s1, id) == InFlightIDs(s, id) && LiveIDs(s1.table, id) == LiveIDs(s.table, id)
  {
    hide *;
    InvForm(s);
    MarkStep(s, p, c);
    MarkedProc(s, p, c);
    SameInFlight(s, Step(s, Act(p, c)), p, CascadeList(s.procs[p].id), s.procs[p].id);
    MarkedBooks(s.table, s.procs[p].id, s.procs[p].expires);
  }

  lemma MarkedBooks(t: Table, id: string, mark: int)
    requires WellFormed(t) && AuthorCell(t, id).Live?
    ensures var t' := Apply(t, RepoOp.DeleteAuthor(id, mark));
            !AuthorCell(t', id).Live? && LiveIDs(t', id) == LiveIDs(t, id)
  {
    hide WellFormed, AuthorCell, LiveBooksOf, Apply;
    CatalogBus.MarkedAuthor(t, id, mark);
  }

  /** A step of a process that is not, and does not become, about to put a book. */
  lemma SameInFlight(s: State, s1: State, p: nat, proc: Proc, id: string)
    requires p in s.procs && !s.procs[p].BookPut? && !proc.BookPut? && s1.procs == s.procs[p := proc]
    ensures InFlight(s1, id) == InFlight(s, id) && InFlightIDs(s1, id) == InFlightIDs(s, id)
  {
    assert InFlight(s1, id) == InFlight(s, id);
    forall q | q in InFlight(s, id) ensures s1.procs[q] == s.procs[q] {
    }
  }

  lemma MarkStep(s: State, p: nat, c: Choice)
    requires p in s.procs && s.procs[p].AuthorMark? && c.Go? && AuthorCell(s.table, s.procs[p].id).Live?
    ensures Enabled(s, Act(p, c)) && Fresh(s, Act(p, c))
    ensures var s1 := Step(s, Act(p, c));
            && s1.procs == s.procs[p := CascadeList(s.procs[p].id)] && s1.now == s.now && s1.issued == s.issued
            && s1.table == Apply(s.table, RepoOp.DeleteAuthor(s.procs[p].id, s.procs[p].expires))
  {
    hide AuthorCell, Apply;
  }

  lemma MarkedProc(s: State, p: nat, c: Choice)
    requires Inv(s) && p in s.procs && s.procs[p].AuthorMark? && c.Go? && AuthorCell(s.table, s.procs[p].id).Live?
    ensures Enabled(s, Act(p, c)) && Inv(Step(s, Act(p, c))) && SpentAuthor(Step(s, Act(p, c)), s.procs[p].id)
  {
    hide WellFormed, AuthorCell, BookCell, Step, Fresh, SpentAuthor, SpentBook, Enabled;
    MarkStep(s, p, c);
    InvStep(s, Act(p, c));
    assert Step(s, Act(p, c)).procs[p] == CascadeList(s.procs[p].id);
    assert ProcOk(Step(s, Act(p, c)), Step(s, Act(p, c)).procs[p]);
  }

  // ---- Retention -------------------------------------------------------------

  /** The author key is occupied by a tombstone that expires no earlier than e. */
  predicate AuthorHeld(s: State, id: string, e: int) {
    AuthorCell(s.table, id).Tomb? && AuthorCell(s.table, id).expires >= e
  }

  predicate Avoids(books: seq<Book>, a: string, b: string) {
    forall i | 0 <= i < |books| :: books[i].authorID != a || books[i].id != b
  }

  /** The earliest expiry with which a cascade in flight can still re-put its books: the
      one it has computed, or the one it would compute now. */
  function Due(s: State, proc: Proc): int
    requires Writing(proc)
  {
    if proc.CascadeWrite? then proc.expires else s.now + RETENTION
  }

  /** No cascade in flight is going to re-put the book with an expiry before e, from a
      listing made before the book was deleted. */
  predicate NoStaleCascade(s: State, a: string, b: string, e: int) {
    forall p | p in s.procs && Writing(s.procs[p]) :: Due(s, s.procs[p]) >= e || Avoids(s.procs[p].pending, a, b)
  }

  /** The book key is occupied by a tombstone that is going to stay until e. */
  predicate BookHeld(s: State, a: string, b: string, e: int) {
    BookCell(s.table, a, b).Tomb? && BookCell(s.table, a, b).expires >= e && NoStaleCascade(s, a, b, e)
  }

  lemma AuthorHeldStep(s: State, l: Label, id: string, e: int)
    requires WellFormed(s.table) && Enabled(s, l) && AuthorHeld(s, id, e) && s.now < e
    ensures AuthorHeld(Step(s, l), id, e)
  {
    hide WellFormed, AuthorCell, BookCell, Step, Apply;
    StepTable(s, l);
  }

  lemma BookHeldStep(s: State, l: Label, a: string, b: string, e: int)
    requires WellFormed(s.table) && Enabled(s, l) && BookHeld(s, a, b, e) && s.now < e
    ensures BookHeld(Step(s, l), a, b, e)
  {
    hide WellFormed, AuthorCell, BookCell, Step, Enabled;
    TombKept(s, l, a, b, e);
    forall p | p in Step(s, l).procs && Writing(Step(s, l).procs[p])
      ensures Due(Step(s, l), Step(s, l).procs[p]) >= e || Avoids(Step(s, l).procs[p].pending, a, b)
    {
      StillAvoids(s, l, a, b, e, p);
    }
  }

  lemma TombKept(s: State, l: Label, a: string, b: string, e: int)
    requires WellFormed(s.table) && Enabled(s, l) && BookHeld(s, a, b, e) && s.now < e
    ensures BookCell(Step(s, l).table, a, b).Tomb? && BookCell(Step(s, l).table, a, b).expires >= e
  {
    hide WellFormed, AuthorCell, BookCell, Step, Apply, Listing, LiveBooksOf;
    StepTable(s, l);
    if l.Act? && l.c.Go? && s.procs[l.p].CascadeWrite? {
      var batch := NextBatch(s.procs[l.p].pending);
      assert forall i | 0 <= i < |batch| :: batch[i] == s.procs[l.p].pending[i];
      ReputIsTomb(batch, s.procs[l.p].expires, a, b, BookCell(s.table, a, b));
    }
  }

  /** A listing made while the key is held does not contain the book. */
  lemma StillAvoids(s: State, l: Label, a: string, b: string, e: int, p: nat)
    requires WellFormed(s.table) && Enabled(s, l) && !BookCell(s.table, a, b).Live? && NoStaleCascade(s, a, b, e)
    requires p in Step(s, l).procs && Writing(Step(s, l).procs[p])
    ensures Due(Step(s, l), Step(s, l).procs[p]) >= e || Avoids(Step(s, l).procs[p].pending, a, b)
  {
    ClockAdvances(s, l);
    assert l.Act? ==> Step(s, l).now == s.now;
    hide WellFormed, AuthorCell, BookCell, Listing, LiveBooksOf, Step, Allowed, DistinctBooks, Avoids;
    if !(p in s.procs && s.procs[p] == Step(s, l).procs[p]) {
      CascadeOrigin(s, l, p);
      if s.procs[p].CascadeList? {
        PageAvoids(s.table, s.procs[p].id, l.c, a, b);
      } else {
        RestAvoids(s.procs[p].pending, a, b);
      }
    }
  }

  lemma PageAvoids(t: Table, id: string, c: Choice, a: string, b: string)
    requires WellFormed(t) && c.Go? && Listing(c.page, LiveBooksOf(t, id), c.complete) && !BookCell(t, a, b).Live?
    ensures Avoids(c.page, a, b)
  {
    hide WellFormed, BookCell, Listing, LiveBooksOf;
    CatalogBus.ListedBooksDistinct(t, id, c.page, c.complete);
  }

  lemma RestAvoids(pending: seq<Book>, a: string, b: string)
    ensures Avoids(pending, a, b) && |pending| > BATCH_LIMIT ==> Avoids(pending[BATCH_LIMIT..], a, b)
  {
  }

  lemma ClockAdvances(s: State, l: Label)
    requires Enabled(s, l)
    ensures s.now <= Step(s, l).now
  {
  }

  /** Retention of authors, over every interleaving with failures and repeated
      identifiers: until the tombstone's expiry the key is held and every put on it is
      a conflict. */
  lemma {:induction false} AuthorRetention(s: State, ls: seq<Label>, s': State, id: string, e: int)
    requires WellFormed(s.table) && Reaches(s, ls, s') && AuthorHeld(s, id, e)
    ensures s.now <= s'.now
    ensures s'.now < e ==> AuthorHeld(s', id, e)
                           && forall a: Author | a.id == id :: !Allowed(s'.table, PutAuthor(a))
    decreases |ls|
  {
    if ls == [] {
    } else {
      hide WellFormed, AuthorCell, BookCell, Step, Enabled;
      ClockAdvances(s, ls[0]);
      StepTable(s, ls[0]);
      if s.now < e {
        AuthorHeldStep(s, ls[0], id, e);
        AuthorRetention(Step(s, ls[0]), ls[1..], s', id, e);
      } else {
        NowReaches(Step(s, ls[0]), ls[1..], s');
      }
    }
  }

  lemma {:induction false} NowReaches(s: State, ls: seq<Label>, s': State)
    requires Reaches(s, ls, s')
    ensures s.now <= s'.now
    decreases |ls|
  {
    if ls == [] {
    } else {
      ClockAdvances(s, ls[0]);
      NowReaches(Step(s, ls[0]), ls[1..], s');
    }
  }

  /** Retention of books: likewise, as long as no cascade in flight listed the book
      before it became a tombstone and would re-put it with an earlier expiry. */
  lemma {:induction false} BookRetention(s: State, ls: seq<Label>, s': State, a: string, b: string, e: int)
    requires WellFormed(s.table) && Reaches(s, ls, s') && BookHeld(s, a, b, e)
    ensures s.now <= s'.now
    ensures s'.now < e ==> BookHeld(s', a, b, e)
                           && forall x: Book | x.authorID == a && x.id == b :: !Allowed(s'.table, PutBook(x))
    decreases |ls|
  {
    if ls == [] {
    } else {
      hide WellFormed, AuthorCell, BookCell, Step, Enabled;
      ClockAdvances(s, ls[0]);
      StepTable(s, ls[0]);
      if s.now < e {
        BookHeldStep(s, ls[0], a, b, e);
        BookRetention(Step(s, ls[0]), ls[1..], s', a, b, e);
      } else {
        NowReaches(Step(s, ls[0]), ls[1..], s');
      }
    }
  }

  // ---- Where a tombstone comes from ------------------------------------------

  /** A successful author delete holds the key until its expiry. */
  lemma MarkHolds(s: State, p: nat, c: Choice)
    requires WellFormed(s.table) && Enabled(s, Act(p, c)) && c.Go? && s.procs[p].AuthorMark?
    requires AuthorCell(s.table, s.procs[p].id).Live?
    ensures AuthorHeld(Step(s, Act(p, c)), s.procs[p].id, s.procs[p].expires)
  {
    hide WellFormed, AuthorCell, BookCell, Step, Apply;
    StepTable(s, Act(p, c));
  }

  /** A successful book delete holds the key until its expiry exactly when no cascade that
      is already in flight re-puts the book with an earlier one. */
  lemma DeleteHolds(s: State, p: nat, c: Choice)
    requires WellFormed(s.table) && Enabled(s, Act(p, c)) && c.Go? && s.procs[p].BookMark?
    requires BookCell(s.table, s.procs[p].authorID, s.procs[p].bookID).Live?
    ensures var (a, b, e) := (s.procs[p].authorID, s.procs[p].bookID, s.procs[p].expires);
            BookHeld(Step(s, Act(p, c)), a, b, e) <==> NoStaleCascade(s, a, b, e)
  {
    hide WellFormed, AuthorCell, BookCell, Step, Avoids, Enabled;
    MarkedBook(s, p, c);
    forall q | q in s.procs && Writing(s.procs[q])
      ensures Step(s, Act(p, c)).procs[q] == s.procs[q] && Due(Step(s, Act(p, c)), s.procs[q]) == Due(s, s.procs[q])
    {
    }
    forall q | q in Step(s, Act(p, c)).procs && Writing(Step(s, Act(p, c)).procs[q])
      ensures q in s.procs && s.procs[q] == Step(s, Act(p, c)).procs[q]
    {
    }
  }

  lemma MarkedBook(s: State, p: nat, c: Choice)
    requires WellFormed(s.table) && Enabled(s, Act(p, c)) && c.Go? && s.procs[p].BookMark?
    requires BookCell(s.table, s.procs[p].authorID, s.procs[p].bookID).Live?
    ensures var s1 := Step(s, Act(p, c));
            && BookCell(s1.table, s.procs[p].authorID, s.procs[p].bookID) ==
               Tomb(BookCell(s.table, s.procs[p].authorID, s.procs[p].bookID).v, s.procs[p].expires)
            && s1.now == s.now && s1.procs == s.procs[p := Done(None)]
  {
    hide WellFormed, AuthorCell, BookCell, Apply;
    StepTable(s, Act(p, c));
  }

  /** From a successful book delete on, with no stale cascade in flight: until the expiry
      it set, an hour after it read the clock, every put on the key is a conflict. */
  lemma DeletedBookRetention(s: State, p: nat, c: Choice, ls: seq<Label>, s': State)
    requires WellFormed(s.table) && Enabled(s, Act(p, c)) && c.Go? && s.procs[p].BookMark?
    requires BookCell(s.table, s.procs[p].authorID, s.procs[p].bookID).Live?
    requires NoStaleCascade(s, s.procs[p].authorID, s.procs[p].bookID, s.procs[p].expires)
    requires Reaches(Step(s, Act(p, c)), ls, s') && s'.now < s.procs[p].expires
    ensures forall x: Book | x.authorID == s.procs[p].authorID && x.id == s.procs[p].bookID ::
              !Allowed(s'.table, PutBook(x))
  {
    hide WellFormed, AuthorCell, BookCell, Step, Reaches, NoStaleCascade;
    DeleteHolds(s, p, c);
    StepTable(s, Act(p, c));
    BookRetention(Step(s, Act(p, c)), ls, s', s.procs[p].authorID, s.procs[p].bookID, s.procs[p].expires);
  }

  /** The exception is real: a cascade whose next batch holds the book replaces its
      tombstone, whatever that tombstone's expiry was, by one with the cascade's own. */
  lemma StaleReputResets(s: State, p: nat, c: Choice, a: string, b: string)
    requires Inv(s) && p in s.procs && s.procs[p].CascadeWrite? && c.Go?
    requires var batch := NextBatch(s.procs[p].pending);
             exists i :: 0 <= i < |batch| && batch[i].authorID == a && batch[i].id == b
    ensures var s' := Step(s, Act(p, c));
            BookCell(s'.table, a, b).Tomb? && BookCell(s'.table, a, b).expires == s.procs[p].expires
  {
    hide WellFormed, AuthorCell, BookCell, Step, DistinctBooks, Inv;
    AllowedBatch(s, p);
    assert WellFormed(s.table) by { InvForm(s); }
    BatchCells(s, Act(p, c), a, b);
  }
}
