# Catalog store and SDK adapter: a verified model

This project models, and proves properties of, two parts of the repository:

* the **catalog example** (`examples/catalog/storage`, `examples/catalog/bus`): authors and
  books in one flat table keyed by `(PK, SK)` strings, soft deletes by an `Expires`
  attribute, conditional writes, and `DeleteAuthor`, which marks the author, lists its live
  books and re-puts them in batches of 25 without a transaction;
* the **adapter's value codec** (`pkg/ddb-sqlite/marshal.go`) and what rests on it in
  `pkg/ddb-sqlite/adapter.go`: cursors of `Query` and `Scan`, and the `UnprocessedKeys`
  echo of `BatchGetItem`; plus the table-purging loop of the conformance suite.

`dafny verify dfyconfig.toml` checks everything.

## How the model is laid out

| file | contents |
|---|---|
| `Common.dfy` | `Option`, `Result`, sequences without repetition |
| `CatalogItems.dfy` | rows, entities, the item mapping and its inverse |
| `CatalogTable.dfy` | the engine's contract: conditional put and update, batch put, queries, sweep |
| `CatalogStorage.dfy` | the repository class; abstract cells (absent, live, tombstone) and the refinement |
| `CatalogBus.dfy` | the service class; `Perform`, each business operation as one table transformer |
| `CatalogSequential.dfy` | referential integrity and retention over sequential runs; interrupted cascades |
| `CatalogMachine.dfy` | the step system: one engine call per step, any interleaving; its invariant |
| `CatalogSolo.dfy` | a process that runs alone refines `Perform` |
| `CatalogOutcomes.dfy` | what an operation's ending means, and what is true of everything stored, over every interleaving |
| `CatalogCascade.dfy` | orphan bound, cascade safety, failed cascades, retention, over every interleaving |
| `CatalogRaces.dfy` | exactly when orphans can be left and when retention holds, with the smallest runs that break them |
| `Decimals.dfy` | canonical numbers, their spelling and parsing |
| `Numerals.dfy` | which spellings of numbers are accepted and what they mean, said without the parser |
| `Marshal.dfy` | `FromSDK`, `ToSDK` and their round trips |
| `Adapter.dfy` | the adapter's errors, and lists of items on the way out |
| `Paging.dfy` | `Query`, `Scan`, cursors and the resume loop |
| `BatchGet.dfy` | `BatchGetItem`, the echo, draining |
| `PurgeTables.dfy` | `ListTables` paging and the purge loop |

## What is assumed

* The storage engine is a separate repository and is not part of this model. The classes
  `Engine` and `TableStore` and the definitions `PageFrom`, `EngineContract` and `Serves` state what is
  used of it: a conditional write applies or leaves the table unchanged; `UpdateItem` upserts when
  its condition lets it; a batch put is all or nothing, holds 1 to 25 requests and refuses a
  repeated key; a query returns matching rows without repetition.
* A call that returns an error has changed nothing. Any call may fail; a ghost counter
  (`faults`) counts the calls that did, so that the contracts can say that an operation
  reports a failure exactly when one of its calls failed.
* Queries, the index query included, read the current table. That is so of the injected
  engine; real DynamoDB's reads of an index are eventually consistent.
* An accepted `BatchWriteItem` writes all its requests and leaves no `UnprocessedItems`. The
  adapter never leaves any; real DynamoDB can, and `SoftDeleteBooks` does not look at them.
* `ListBooks`, `ListAuthors` and `ListAllBooks` read one page. Every listing carries a
  `complete` flag (no `LastEvaluatedKey`). Statements that need the whole answer assume it;
  the others say what a truncated page leaves out.
* In the step system every engine call is one atomic step, and so is the clock read between
  the listing and the batches of a cascade; a delete reads the clock when it starts. Time may
  pass, and other operations may act, between any two steps. The clock never
  goes back. `newID` is an arbitrary string; the invariant and the theorems that need it
  assume that no identifier is drawn twice (`NonRepeating`), the others do not.
* A sweep removes any subset of the tombstones whose `Expires` is at most now.
* Engine numbers are decimals of at most 38 digits and magnitude 1E-130 to 9.99E125 (the
  limits DynamoDB documents), written in plain notation. The spellings read are those of `Numerals.WellSpelled`. Of the engine's set constructors
  only this is assumed: same members, and applying one twice is applying it once.
* The engine refuses a `BatchGetItem` that uses the legacy `AttributesToGet`
  (`pkg/ddb-sqlite/adapter_test.go:553-571`). A `ListTables` limit of zero or none means the
  engine's default of 100.

## What turned out not to hold

* *Every live book has a live author* holds of sequential failure-free runs with complete
  listings (`SequentialIntegrity`). After one `DeleteAuthor` call that runs alone it holds
  exactly when the listing held every live book and all of it was written
  (`CascadeIntegrity`). Under interleaving a `DeleteAuthor` that succeeds can leave a live
  book under its dead author exactly when, at the moment it lists the books, a `CreateBook`
  for the author is past its author check or the page leaves a live book out
  (`OrphanExact`). `OrphanBound` bounds the number of such books, `BoundAttained` shows that
  the bound is reached, and `OrphanIsReachable` is a failure-free run from the empty table.
* *A book that `DeleteAuthor` listed is never live again once it has succeeded* holds when
  identifiers do not repeat (`CascadeSafety`); `SafetyNeedsFreshIDs` is a failure-free run
  from the empty table with one repeated identifier that breaks it.
* *A deleted book's key stays occupied for an hour* holds of sequential runs
  (`SequentialRetention`). Under interleaving it fails when a cascade that listed the book
  before it was deleted re-puts it with an earlier expiry.
  `examples/catalog/storage/book.go:201-206` says that reading the books through `ListBooks`
  avoids overwriting concurrent changes; the batch write has no condition, so it does not.
  `RetentionExact` gives the exact condition, and `RetentionFails` a failure-free run from
  the empty table.

## Model

| member | source | states |
|---|---|---|
| CatalogItems.BookRoundTrip | examples/catalog/storage/book.go:24-61 | For all strings, identifiers containing a key prefix included, a book stored and read back is the same book. |
| CatalogItems.Layout | examples/catalog/README.md:27-36 | Keys and rows have the documented layout, with the documented prefixes and entity types. |
| CatalogItems.MarshalBookRoundTrip | examples/catalog/storage/book.go:44-52 | A book item survives being written as a row, with or without `Expires`. |
| CatalogItems.MarshalAuthorRoundTrip | examples/catalog/storage/author.go:33-41 | Likewise for author items. |
| CatalogItems.Unmarshalled | examples/catalog/storage/book.go:163-172 | Reading a row fails exactly when a present attribute has the wrong type; a missing one leaves the field at its zero value. |
| CatalogItems.KeysInjective | examples/catalog/storage/book.go:37-42 | Distinct books, and distinct authors, never share a key; no author key is a book key; for arbitrary identifier strings. |
| CatalogItems.ReputHitsItsRow | examples/catalog/storage/book.go:54-61 | A book read from a well-formed row marshals to that row without `Expires`, at the key it was read from: the cascade overwrites what it listed. |
| CatalogTable.PutAllAppend | examples/catalog/storage/book.go:210-231 | Batches written one after the other have the effect of one long write. |
| CatalogTable.Engine.Get | examples/catalog/storage/book.go:63-83 | A read returns the stored row, or no attributes when there is none, or fails. |
| CatalogTable.Engine.Put | examples/catalog/README.md:63-68 | A conditional put applies exactly when its condition holds of the stored row, and otherwise changes nothing. |
| CatalogTable.Engine.Update | examples/catalog/README.md:63-68 | The same for update, which would create the row if its condition let it. |
| CatalogTable.Engine.BatchWrite | conformance/conformance_test.go:5241-5350 | All the puts or none; between 1 and 25 requests; a repeated key is refused. |
| CatalogTable.Engine.Page | examples/catalog/storage/book.go:150-174 | A page lists matching rows without repetition; without a further cursor it lists all of them. |
| CatalogTable.Engine.ExpireExpired | examples/catalog/storage/storage.go:123-131 | Exactly the rows whose `Expires` has passed are removed, and counted. |
| CatalogStorage.RowKinds | examples/catalog/storage/book.go:37-61 | In a well-formed table a book key holds a book of that author and identifier, and an author key that author: the prefixes never confuse the two kinds. |
| CatalogStorage.StoreBook | examples/catalog/storage/book.go:85-103 | Storing a book changes that book's cell and no other author or book, and keeps the table well formed. |
| CatalogStorage.StoreAuthor | examples/catalog/storage/author.go:82-100 | Storing an author changes that author's cell and no other, and keeps the table well formed. |
| CatalogStorage.LiveTest | examples/catalog/storage/book.go:105-148 | The condition `attribute_exists(PK) AND attribute_not_exists(Expires)` is exactly liveness, and `attribute_not_exists(PK)` exactly absence. |
| CatalogStorage.ReputCells | examples/catalog/storage/book.go:207-233 | Re-putting books turns exactly their cells into tombstones, whatever those held. |
| CatalogStorage.AcceptedBatch | examples/catalog/storage/book.go:207-233 | The engine accepts a batch of books if and only if it has 1 to 25 of them and no two are the same book. |
| CatalogStorage.SweepCells | examples/catalog/storage/storage.go:123-131 | A sweep makes expired tombstones absent and touches no other cell; no live item is ever removed. |
| CatalogStorage.RefineInsert | examples/catalog/storage/author.go:82-100 | A put on the flat table is the abstract insertion, and succeeds exactly when the cell is absent. |
| CatalogStorage.RefineUpdateAuthor | examples/catalog/storage/author.go:102-125 | An author update is the abstract one: name and bio of a live author, nothing else, and never an upsert. |
| CatalogStorage.RefineDeleteAuthor | examples/catalog/storage/author.go:127-148 | An author delete turns the live cell into its own tombstone and leaves the books. |
| CatalogStorage.RefineUpdateBook | examples/catalog/storage/book.go:105-128 | A book update is the abstract one: title and year of a live book, nothing else, and never an upsert. |
| CatalogStorage.RefineDeleteBook | examples/catalog/storage/book.go:130-148 | A book delete turns the live cell into its own tombstone. |
| CatalogStorage.Refinement | examples/catalog/storage/book.go:85-233 | The flat string-keyed table refines two maps of cells: each of the eight operations commutes with the abstraction on every cell, succeeds exactly when the abstract guard holds, changes nothing otherwise, and keeps the table well formed. |
| CatalogStorage.CellsDetermineTable | examples/catalog/storage/book.go:24-61 | The abstraction loses nothing: two well-formed tables with the same cells are equal. |
| CatalogStorage.LifeCycle | examples/catalog/storage/book.go:85-148 | The only changes of a key's cell are absent to live by a put of that very entity, live to live by an update of it, live to its own tombstone by a delete of it, tombstone to absent by a sweep at or after its expiry that picked the key, and, for a book only, any state to tombstone by a batch re-put of that book. |
| CatalogStorage.LiveBooksAreLiveCells | examples/catalog/storage/book.go:150-199 | A book is among the live rows exactly when its cell is live with that content. |
| CatalogStorage.LiveAuthorsAreLiveCells | examples/catalog/storage/author.go:150-174 | Likewise for authors. |
| CatalogStorage.PartitionQueryIsBooks | examples/catalog/storage/book.go:150-174 | The `begins_with(SK, "BOOK#")` query on one partition finds exactly that author's live book rows, for any author identifier. |
| CatalogStorage.IndexQueryByType | examples/catalog/storage/author.go:150-174 | The index query finds exactly the live rows of the entity type; for `AUTHOR` these are the live profiles. |
| CatalogStorage.QueryPathsAgree | examples/catalog/storage/book.go:150-199 | The index query on `BOOK` is the disjoint union, over all authors, of the partition queries. |
| CatalogStorage.ReputTable | examples/catalog/storage/book.go:207-233 | For distinct books, exactly the listed keys are replaced, each by its own item with the one shared `Expires`; every other row is kept. |
| CatalogStorage.BatchExtends | examples/catalog/storage/book.go:210-231 | Writing the next slice extends the written prefix: the batches concatenate to the input. |
| CatalogStorage.Repo.GetAuthor | examples/catalog/storage/author.go:60-80 | Returns the live author, and `ErrNotFound` exactly when it is absent or a tombstone, unless the call fails. |
| CatalogStorage.Repo.PutAuthor | examples/catalog/storage/author.go:82-100 | Unless the call fails: stores the author if its key is absent, and answers `ErrConflict` if it is occupied, table unchanged; the effect on every cell is the abstract one. |
| CatalogStorage.Repo.UpdateAuthor | examples/catalog/storage/author.go:102-125 | Unless the call fails: a live author gets the new name and bio, and any other answer is `ErrNotFound`, table unchanged. |
| CatalogStorage.Repo.DeleteAuthor | examples/catalog/storage/author.go:127-148 | Unless the call fails: a live author becomes its own tombstone due 3600 seconds after the clock reading, and any other answer is `ErrNotFound`, table unchanged. |
| CatalogStorage.Repo.ListAuthors | examples/catalog/storage/author.go:150-174 | Live authors without repetition; all of them when the page is complete. |
| CatalogStorage.Repo.GetBook | examples/catalog/storage/book.go:63-83 | Returns the live book, and `ErrNotFound` exactly when it is absent or a tombstone, unless the call fails. |
| CatalogStorage.Repo.PutBook | examples/catalog/storage/book.go:85-103 | Unless the call fails: stores the book if its key is absent, and answers `ErrConflict` if it is occupied, table unchanged; the effect on every cell is the abstract one. |
| CatalogStorage.Repo.UpdateBook | examples/catalog/storage/book.go:105-128 | Unless the call fails: a live book gets the new title and year, and any other answer is `ErrNotFound`, table unchanged. |
| CatalogStorage.Repo.DeleteBook | examples/catalog/storage/book.go:130-148 | Unless the call fails: a live book becomes its own tombstone due 3600 seconds after the clock reading, and any other answer is `ErrNotFound`, table unchanged. |
| CatalogStorage.Repo.ListBooks | examples/catalog/storage/book.go:150-174 | The author's live books without repetition; all of them when the page is complete. |
| CatalogStorage.Repo.ListAllBooks | examples/catalog/storage/book.go:175-199 | All live books without repetition; all of them when the page is complete. |
| CatalogStorage.TombstoneRequests | examples/catalog/storage/book.go:213-224 | One put request per book of the batch, in order, each the book's full item with the shared `Expires`. |
| CatalogStorage.Repo.WriteTombstones | examples/catalog/storage/book.go:210-231 | One batch write: all its books become tombstones or nothing changes; refused only if a book repeats. |
| CatalogStorage.Repo.WriteNext | examples/catalog/storage/book.go:210-231 | The next batch extends the written prefix, or leaves it. |
| CatalogStorage.Repo.SoftDeleteBooks | examples/catalog/storage/book.go:207-233 | Terminates; on success every listed book has been re-put with one shared expiry 3600 seconds after the clock reading; on an error a prefix of whole 25-batches has; a failure is reported exactly when a call failed; a list without repeated books is never refused. |
| CatalogStorage.Repo.ExpireExpired | examples/catalog/storage/storage.go:123-131 | Unless the call fails, exactly the tombstones whose expiry has passed are gone, every other cell is as it was, and their number is returned. |
| CatalogStorage.BooksOf | examples/catalog/storage/book.go:164-174 | Every row of the page is unmarshalled, in order, or the call fails. |
| CatalogBus.ListedBooksDistinct | examples/catalog/storage/book.go:150-174 | What `ListBooks` returns never repeats a key, so no batch made from it is refused as duplicate. |
| CatalogBus.CascadeKeepsForm | examples/catalog/bus/author.go:66-75 | The cascade makes tombstones of exactly that author's live books, and changes no author and no other book. |
| CatalogBus.CompleteListingCascades | examples/catalog/storage/book.go:207-233 | Re-putting a complete listing, in whatever order the query returned it, gives that cascade. |
| CatalogBus.FullCascade | examples/catalog/bus/author.go:59-77 | Marking the author and writing the whole complete listing is the sequential `DeleteAuthor`. |
| CatalogSequential.PerformCells | examples/catalog/bus/author.go:28-77 | Every business operation that runs alone acts on each author cell by itself, and on each book cell given only its author's cell, and keeps the table well formed. |
| CatalogBus.Service.CreateAuthor | examples/catalog/bus/author.go:28-44 | Validation error exactly for an empty name. Otherwise, and unless a call or the drawing of an identifier failed: the author as requested, stored live, if the drawn key was absent, and a conflict if it was occupied. Any error leaves the table unchanged. |
| CatalogBus.Service.UpdateAuthor | examples/catalog/bus/author.go:46-57 | Validation error exactly for an empty name. Otherwise, and unless a call failed: the author as written if it was live, and not-found if it was not. |
| CatalogBus.Service.DeleteAuthor | examples/catalog/bus/author.go:59-77 | A failure is reported exactly when a call failed; otherwise success exactly for a live author, and not-found for any other, with no book touched. Success with a complete page is the whole cascade; a failure after the mark leaves exactly a prefix of whole 25-batches of the listing as tombstones. Mark and re-puts are due 3600 seconds after clock readings taken during the call, in that order. |
| CatalogBus.Service.ListAuthors | examples/catalog/bus/author.go:79-89 | The live authors, all of them when the page is complete. |
| CatalogBus.Service.CreateBook | examples/catalog/bus/book.go:29-54 | Validation error exactly for an empty title or a year of zero or less. Otherwise, and unless a call or the drawing of an identifier failed: not-found exactly when the author is not live, else the book as requested, stored live, if the drawn key was absent, and a conflict if it was occupied. Any error leaves the table unchanged. |
| CatalogBus.Service.UpdateBook | examples/catalog/bus/book.go:56-70 | Validation error exactly for an empty title or a year of zero or less. Otherwise, and unless a call failed: the book as written if it was live, and not-found if it was not. |
| CatalogBus.Service.DeleteBook | examples/catalog/bus/book.go:72-80 | Unless a call failed: a live book becomes its own tombstone due 3600 seconds after the clock reading, and any other answer is not-found, table unchanged. |
| CatalogBus.Service.ListBooks | examples/catalog/bus/book.go:82-98 | Unless a call failed: the live books of a live author, all of them when the page is complete, and not-found exactly when the author is not live. |
| CatalogBus.Service.ListAllBooks | examples/catalog/bus/book.go:100-110 | The live books, orphans included; all of them when the page is complete. |
| CatalogBus.Copied | examples/catalog/bus/book.go:93-97 | The conversion from storage to business books loses and reorders nothing. |
| CatalogSequential.PerformKeepsIntegrity | examples/catalog/bus/book.go:29-54 | Each business operation, alone and without failure, keeps every live book under a live author. |
| CatalogSequential.SequentialIntegrity | examples/catalog/bus/author.go:59-89 | After every sequential failure-free run from the empty table, with any identifiers, clock readings and sweeps, every live book has a live author. |
| CatalogSequential.AllBooksAreTheAuthorsBooks | examples/catalog/bus/book.go:82-110 | `ListAllBooks` equals, as a multiset, the concatenation of `ListBooks` over `ListAuthors` if and only if every live book has a live author. |
| CatalogSequential.CascadeCells | examples/catalog/bus/author.go:59-77 | After a `DeleteAuthor` call that wrote some of its listing, the author and exactly the written books are tombstones, and every other cell is as before. |
| CatalogSequential.CascadeIntegrity | examples/catalog/README.md:55-61 | The gap the documentation admits, exactly: integrity survives a `DeleteAuthor` call if and only if the listing held every live book of the author and all of it was written. |
| CatalogSequential.SequentialRetention | examples/catalog/storage/storage.go:123-131 | In runs of operations that follow one another, a tombstone of an author or a book stays as it is, expiry included, unless a sweep comes at its expiry or later. |
| CatalogMachine.ReachableWellFormed | examples/catalog/storage/book.go:24-61 | Every state reachable by any interleaving, with failures and repeated identifiers, has a well-formed table, so the two query paths agree there. |
| CatalogMachine.StepLifeCycle | examples/catalog/storage/book.go:85-233 | Every key follows that life cycle in every step of every interleaving, with failures and repeated identifiers. |
| CatalogMachine.BookComesFromPut | examples/catalog/bus/book.go:36-47 | A book comes to life only by the put of a `CreateBook`, and into being only by that or by the write of a cascade that had listed it. |
| CatalogMachine.AuthorComesFromPut | examples/catalog/bus/author.go:28-44 | An author comes to life only by the put of a `CreateAuthor`. |
| CatalogMachine.DeadAuthorStays | examples/catalog/bus/author.go:59-77 | An author that is not live and whose put is past never lives again, whatever step is taken. |
| CatalogMachine.DeadBookStays | examples/catalog/bus/author.go:66-75 | Likewise for a book. |
| CatalogMachine.InvStep | examples/catalog/bus/author.go:59-77 | Every step with a fresh identifier keeps the invariant: stored identifiers were drawn and are past their put; a cascade's author is not live; what it still has to write is non-empty, distinct, its author's, and past its put. |
| CatalogMachine.InvReaches | examples/catalog/bus/bus.go:44-52 | Hence every state reachable without repeated identifiers satisfies it. |
| CatalogOutcomes.AnythingMayHappen | examples/catalog/bus/author.go:28-77 | The interleavings leave nothing out: any request may start at any time, any call may fail or go through with any identifier and any possible page, time may pass and a sweep may come between any two steps. |
| CatalogOutcomes.EndMeans | examples/catalog/bus/book.go:29-80 | In every step of every interleaving that ends an operation: a failure is reported exactly when its call failed, not-found only when what the call was about was not live, a conflict only when the key was occupied, and no error only when the last call did what it was for. |
| CatalogOutcomes.CreatedBookWasPut | examples/catalog/bus/book.go:29-54 | Over every interleaving, with failures: a `CreateBook` that ends without an error has on the way put a book with the requested fields on a key that was free. |
| CatalogOutcomes.StoredIsValid | examples/catalog/bus/book.go:29-70 | In every reachable state, with failures and repeated identifiers, each live author has a non-empty name, and each live book a non-empty title and a year of at least 1. |
| CatalogSolo.SoloStep | examples/catalog/bus/book.go:36-70 | Each call of an uninterrupted operation leaves just what the operation still has to do. |
| CatalogSolo.SoloRun | examples/catalog/bus/author.go:28-77 | A request run in the step system from any state, without interference or failure and with complete listings, however much time passes between its calls, ends with exactly the table and the error of the business operation, with expiries an hour after the clock readings. |
| CatalogCascade.OrphanBound | examples/catalog/bus/author.go:59-77 | Over every interleaving with non-repeating identifiers: after a `DeleteAuthor` has succeeded, each live book under the author was in a `CreateBook` already past its author check when the list was read, or was left out of the page; live orphans never outnumber those creates and those left out, and a complete page leaves none out. |
| CatalogCascade.CascadeSafety | examples/catalog/storage/book.go:207-233 | Over every interleaving with non-repeating identifiers: a book the listing returned is not live in any state in which the `DeleteAuthor` has succeeded, then or ever after. |
| CatalogCascade.FailedCascade | examples/catalog/storage/book.go:210-231 | Over every interleaving with non-repeating identifiers: a `DeleteAuthor` that failed after its listing ended with a failed call, and has written a prefix of the page made of whole 25-batches: no book of that prefix is live, and each live book under the author is in the rest of the page, was in flight at the listing, or was left out. |
| CatalogCascade.NeverRefused | examples/catalog/storage/book.go:207-233 | Over every interleaving from the empty table with non-repeating identifiers, no batch of a cascade is ever refused as empty, too long or repeating a key. |
| CatalogCascade.DoneStays | examples/catalog/bus/author.go:59-77 | A finished operation stays finished with its result, so the two statements above hold from success on. |
| CatalogCascade.DeadForever | examples/catalog/storage/book.go:207-233 | A book that is not live and whose put is past is not live in any later state. |
| CatalogCascade.StrandedOnlyShrink | examples/catalog/bus/author.go:60-75 | Over every interleaving, with failures and repeated identifiers: as long as an author is not live, later live books under it are among those live or in flight before. |
| CatalogCascade.StrandedBound | examples/catalog/bus/author.go:60-75 | The same with non-repeating identifiers for an author that is dead and whose put is past: it stays dead, so no further condition is needed. |
| CatalogCascade.MarkedBound | examples/catalog/bus/author.go:60-75 | From the moment `DeleteAuthor` has marked its author, whether the rest succeeds, fails or never runs, the author is not live and its live books are among those live or in flight at that moment. |
| CatalogCascade.AuthorRetention | examples/catalog/storage/author.go:127-148 | Over every interleaving, with failures and repeated identifiers: until a deleted author's expiry its key stays occupied and every put on it is a conflict. |
| CatalogCascade.BookRetention | examples/catalog/storage/book.go:130-148 | The same for a deleted book, as long as no cascade in flight would re-put it with an earlier expiry. |
| CatalogCascade.MarkHolds | examples/catalog/storage/author.go:127-148 | A successful author delete establishes retention until its expiry. |
| CatalogCascade.DeleteHolds | examples/catalog/storage/book.go:130-148 | A successful book delete establishes retention until its expiry if and only if no cascade already in flight re-puts the book with an earlier one. |
| CatalogCascade.DeletedBookRetention | examples/catalog/storage/book.go:130-148 | From a successful book delete on, with no such cascade in flight: on every run, every put on the key is a conflict until the expiry. |
| CatalogCascade.StaleReputResets | examples/catalog/storage/book.go:201-223 | A cascade whose next batch holds the book replaces its tombstone by one with the cascade's own expiry, earlier or later. |
| CatalogRaces.RetentionExact | examples/catalog/storage/book.go:201-233 | A book's tombstone keeps its key occupied until time e on every run if and only if no cascade in flight still has to re-put that book with an expiry before e. |
| CatalogRaces.RetentionFails | examples/catalog/storage/book.go:201-233 | A run from the empty table without a failed call and with distinct identifiers, after which a book has just been deleted, and its failure-free continuation in which the key is free again in less than an hour. |
| CatalogRaces.CascadeGetsThere | examples/catalog/storage/book.go:210-231 | A cascade left to itself reaches a listed book however many batches on, and gives it the expiry it has computed or computes now. |
| CatalogRaces.CascadeFinishes | examples/catalog/storage/book.go:210-231 | A cascade left to itself succeeds, however many batches it takes, and leaves the table with every book it had listed re-put and nothing else changed. |
| CatalogRaces.BoundAttained | examples/catalog/bus/book.go:36-47 | After any listing, complete or not, in any state with the invariant, the `DeleteAuthor` can succeed and leave live every book in flight and every book left out: as many as the orphan bound allows. |
| CatalogRaces.OrphanExact | examples/catalog/bus/author.go:66-75 | In every reachable state: some failure-free run on which the `DeleteAuthor` succeeds leaves a live book under its dead author if and only if, at the listing, a `CreateBook` for the author is past its author check or the page leaves a live book out. |
| CatalogRaces.SetUpReachable | examples/catalog/bus/book.go:36-47 | A state with a `CreateBook` past its check and a `DeleteAuthor` about to list is reachable from the empty table without a failed call and with distinct identifiers. |
| CatalogRaces.OrphanIsReachable | examples/catalog/bus/author.go:59-77 | A run from the empty table without a failed call and with distinct identifiers that ends with a `DeleteAuthor` that succeeded and a live book under a dead author. |
| CatalogRaces.RepeatedIDRevives | examples/catalog/bus/bus.go:44-52 | From any state with a put in flight on a key whose tombstone has expired, a sweep and that put make the book live again. |
| CatalogRaces.SafetyNeedsFreshIDs | examples/catalog/bus/bus.go:44-52 | Why fresh identifiers are assumed: a failure-free run from the empty table in which one identifier is drawn twice, and a book that `DeleteAuthor` listed is live again after that `DeleteAuthor` has succeeded. |
| CatalogRaces.UnlistedSurvives | examples/catalog/storage/book.go:150-174 | A live book that a truncated page left out is exactly as it was when the cascade has run to its end, if nothing else acts meanwhile. |
| Decimals.Parse | pkg/ddb-sqlite/marshal.go:28-36 | An accepted spelling yields a canonical number within the engine's limits. |
| Decimals.ParsePrint | pkg/ddb-sqlite/marshal_test.go:101-110 | The canonical spelling of every valid number reads back as that number. |
| Decimals.RedundantZeros | pkg/ddb-sqlite/marshal_test.go:101-110 | Zeros at the end of a fraction do not matter, for any digits and any number of zeros: 1.50 is 1.5. |
| Numerals.Spelled | pkg/ddb-sqlite/marshal.go:28-36 | Every spelling with optional sign, point and exponent is read as the number it says, in normal form, and is accepted exactly when that number is in range. |
| Numerals.OnlySpelled | pkg/ddb-sqlite/marshal.go:28-36 | Nothing else is accepted. |
| Numerals.RangeMeans | pkg/ddb-sqlite/marshal.go:28-36 | In range are zero and the numbers of at most 38 significant digits whose leading digit is between 10^-130 and 10^125. |
| Numerals.Examples | pkg/ddb-sqlite/marshal_test.go:101-110 | 1.50 is read and comes back as 1.5, 42.0 as 42, and 1e-2 as 0.01. |
| Marshal.Acceptance | pkg/ddb-sqlite/marshal.go:21-105 | A value is refused if and only if some node anywhere in its tree is a typed nil, an empty set, an invalid number or number-set member, or an unknown member. |
| Marshal.FromSDK | pkg/ddb-sqlite/marshal.go:18-105 | Terminates on every tree; succeeds if and only if no path leads to a faulty node; the result says what the input says, node by node, and does not depend on map order; the error names a fault that is there. |
| Marshal.ToSDK | pkg/ddb-sqlite/marshal.go:107-147 | The node-by-node encoding, whatever the map order. |
| Marshal.FromSDKMap | pkg/ddb-sqlite/marshal.go:149-160 | Succeeds exactly when no attribute has a faulty node, with the same attribute names, each saying what it said. |
| Marshal.ToSDKMap | pkg/ddb-sqlite/marshal.go:162-169 | Every attribute is encoded under its own name, whatever the map order. |
| Marshal.EncodeMeans | pkg/ddb-sqlite/marshal.go:107-147 | What `ToSDK` produces from an engine value says, node by node, what the value says. |
| Marshal.EngineRoundTrip | pkg/ddb-sqlite/marshal.go:21-147 | For every engine value of any nesting, `FromSDK(ToSDK(v))` succeeds and is `v`. |
| Marshal.ItemRoundTrip | pkg/ddb-sqlite/marshal.go:149-169 | The same for items, hence for keys and cursors. |
| Marshal.ConvertIsValid | pkg/ddb-sqlite/marshal.go:21-105 | Whatever `FromSDK` accepts is a valid engine value, so it round-trips from then on. |
| Marshal.NormalIdempotent | pkg/ddb-sqlite/marshal.go:21-147 | `ToSDK` after `FromSDK` is an idempotent normaliser. |
| Marshal.Normalisation | pkg/ddb-sqlite/marshal.go:21-147 | At every path there is a node after the trip exactly when there was one before, of the same kind, list length, map keys and content; only number spelling, the NULL flag, and set order and multiplicity may differ. |
| Paging.ExprValues | pkg/ddb-sqlite/adapter.go:201-215 | An absent or empty substitution map reaches the engine as no map; otherwise conversion errors are validation errors. |
| Paging.CheckedExpressions | pkg/ddb-sqlite/adapter.go:160-199 | Refused exactly for a present-but-empty expression, or an empty substitution map beside an expression; absent expressions reach the engine as the empty string. |
| Paging.Query | pkg/ddb-sqlite/adapter.go:727-789 | A validation error, without an engine call, exactly for a legacy parameter, a present-but-empty expression, an empty substitution map beside an expression, a zero limit, or values or a cursor with a faulty node. Otherwise the engine is asked what the caller asked, parameter by parameter, ascending unless `ScanIndexForward` is false, and its answer comes back with every item and the cursor encoded. |
| Paging.Scan | pkg/ddb-sqlite/adapter.go:805-863 | The same for `Scan`, with its segments. |
| Paging.CursorResumes | pkg/ddb-sqlite/adapter.go:754-788 | The cursor the adapter returns is accepted when sent back and stands for the entry the page ended at. |
| Paging.NextPage | pkg/ddb-sqlite/adapter.go:820-862 | A page continues the unpaged sequence where its cursor stood, and its own cursor stands where it ended; no cursor means nothing is left. |
| Paging.ScanAll | conformance/conformance_test.go:3098-3162 | Paging to the end terminates for every limit of at least one, or none, and any engine page cap, and the pages together are the unpaged entries that the caller's filter keeps, in ascending order: none skipped, none repeated, trailing empty page included; the counts add up, with `Select=COUNT` too. |
| Paging.QueryAll | conformance/conformance_test.go:3866-3888 | The same for `Query`, in descending order exactly if the caller set `ScanIndexForward` to false. |
| BatchGet.TranslateRequest | pkg/ddb-sqlite/adapter.go:542-565 | Refused exactly for an empty projection, an empty name map beside a projection, or a key with a faulty node; otherwise every table's entry is asked of the engine as the caller asked it, parameter by parameter, with its keys in order. |
| BatchGet.EchoUnprocessed | pkg/ddb-sqlite/adapter.go:581-601 | The echo holds an entry for every unprocessed table and no other, whatever the map order. |
| BatchGet.BatchGetItem | pkg/ddb-sqlite/adapter.go:541-603 | A validation error without an engine call, the engine's error, or a reply that says what the engine's says: the same tables, with the same items in the same order, and as `UnprocessedKeys` a request for just what is left. |
| BatchGet.ReturnedDelivers | pkg/ddb-sqlite/adapter.go:570-603 | For every reply of engine values: each table's list has the engine's length, and each of its items converts back to the engine's item at that place. |
| BatchGet.EchoResubmits | pkg/ddb-sqlite/adapter.go:541-603 | Every echoed entry passes the adapter's own checks and translates back to the entry it came from, keys in order, with consistency, projection and names; it carries no `AttributesToGet`. |
| BatchGet.EchoAllResubmits | pkg/ddb-sqlite/adapter.go:581-601 | The whole echo, sent back, is the engine's unprocessed request. |
| BatchGet.UnprocessedResubmits | pkg/ddb-sqlite/adapter.go:541-603 | For every request that the adapter accepts and the engine answers, the returned `UnprocessedKeys` passes the adapter's checks and translates back to exactly what the engine left. |
| BatchGet.DrainExactlyOnce | pkg/ddb-sqlite/adapter.go:541-603 | Against any engine that processes a key per round, resending the echo takes at most as many rounds as there are keys; no key is answered twice; what is answered is exactly the existing requested keys that are not still left over. |
| BatchGet.ResponsesAreAnswers | pkg/ddb-sqlite/adapter.go:571-580 | Table by table, what the caller has been handed by all calls together reads as the items of the answered keys, in order. |
| BatchGet.DrainedCompletely | pkg/ddb-sqlite/adapter.go:541-603 | For every request the adapter accepts: when the caller is handed no more `UnprocessedKeys`, it has been handed each existing requested item exactly once. |
| PurgeTables.LessTransitive | conformance/conformance_test.go:408-453 | Name order is transitive. |
| PurgeTables.LessTotal | conformance/conformance_test.go:408-453 | Name order is total. |
| PurgeTables.LessMeans | conformance/conformance_test.go:408-453 | It is dictionary order. |
| PurgeTables.TableStore.ListTables | pkg/ddb-sqlite/adapter.go:136-150 | A page is ascending, within the limit or the engine's default, after the cursor, with nothing skipped; a next cursor is given exactly when names remain. |
| PurgeTables.TableStore.DeleteTable | pkg/ddb-sqlite/adapter.go:152-158 | Removes the table, or says that there is none. |
| PurgeTables.DeletePage | conformance/conformance_test.go:218-225 | An error exactly when a call failed; a table that was gone already is none. Without an error exactly the named tables are gone. |
| PurgeTables.PageDeleted | conformance/conformance_test.go:212-232 | Once a page is deleted every remaining name is above the new cursor, and no name remains when there is none. |
| PurgeTables.Purge | conformance/conformance_test.go:209-232 | Terminates for every page size; unless a call failed it leaves no table, although each cursor names a table already deleted. |

## Left out

- The storage engine's internals (SQL, expression language, item sizes, index storage): a separate repository; only the contract above is used.
- Read-only business operations in the step system: they change no state; their answers are in the service class.
- CatalogCascade.BookRetention: needs no stale cascade in flight, because the code does not keep the promise otherwise; CatalogRaces.RetentionExact gives the exact condition.
- Paging.ScanAll: the table does not change between pages, and the engine's own failures during the loop are not represented.
- Paging.QueryAll: likewise.
- BatchGet.DrainExactlyOnce: the tables do not change between rounds.
- BatchGet.DrainedCompletely: likewise; projection is carried through the echo, but responses are whole items; the engine applies projections.
- PurgeTables.Purge: assumes that no table has the empty name, which the engine does not allow.
- Go's `int` and `int64` widths: years, clocks and exponents are unbounded integers.
- `attributevalue` struct tags and marshalling errors: a row is written from its fields, and only unmarshalling can fail.
- The set constructors and the number spelling of the engine: only the properties under "What is assumed" are used.
- `mapError`, the `rejectLegacy` checks of single-item operations, `UpdateTable` and the table descriptions: one-branch case analysis.
- `EnsureTable` idempotence, time-to-live settings and `pkg/ddb/ddb.go`: forwarded to the engine.
- The HTTP layer, contexts, option functions, error texts, locking and `crypto/rand`.
