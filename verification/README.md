# Meadowlark document stores

Meadowlark stores Ed-Fi documents that refer to each other by computed ids. This project
models that store and proves what it keeps. It follows the system from the request body to
the search index:

- **Ids.** Identities and references are extracted from a body by JSONPath
  (`ReferenceExtraction`, `IdentityExtraction`), written as a string, hashed and encoded
  (`DocumentIdentityHash`), so that a referrer, the referenced document and its superclass form
  compute the same id (`ReferenceIds`), and an id resolves only to what it stands for
  (`ReferenceResolution`).
- **The MongoDB backend.** `MongoTransactions` says what one transaction does, `MongoBackend`
  is the code with its lock rows, session and retries, `MongoAnswers` gives the exact condition
  of each answer, `MongoSerial` and `MongoHistory` treat serial runs. `MongoConcurrency` has
  every interleaving of transactions over the contract of the database: a snapshot, and a
  commit refused on a write conflict. `MongoClaims` says when
  interleavings keep aliases disjoint, `MongoIntegrity` when they keep references resolved,
  `MongoOrder` that they keep uuids and the order of writes, and `MongoSerializability` when
  they are the serial run of their commits.
- **The PostgreSQL backend.** `PostgresBackend` runs the ordered statements on three tables
  and refines `PostgresTransactions`, on the store that `PostgresTables` reads off the tables.
  `PostgresAnswers` gives the exact condition of each answer, `PostgresSerial` and
  `PostgresHistory` treat serial runs.
- **Both together.** `BackendSimulation` runs the two stores side by side. `SearchIndex` and
  `SearchMirror` relate the stores to the index that listeners keep.
- **Paths.** `ResourceUri` parses and builds resource paths.

A store is a map from ids to documents. A document answers to its own id and, if it has one,
to a superclass id; a validated document has had its references resolved. Runs start from the
empty store. Some expected properties are false of the code; `Counterexamples` and
`MongoRaces` hold an input for each, and the exact condition is a lemma:

| property | input | exact condition |
|---|---|---|
| disjoint aliases, MongoDB, concurrent | MongoRaces.SuperclassClaimRace | MongoClaims.RunDisjointIff |
| resolved references, MongoDB, concurrent | MongoRaces.UncoveredLocksLoseIntegrity | MongoIntegrity.RunIntegrityIff |
| an identity change keeps every other document, MongoDB | Counterexamples.MongoIdentityChangeOverwrites | MongoHistory.UpdateConservesIff |
| resolved references pass validation, MongoDB | Counterexamples.MongoFalseMiss | MongoValidation.PassIff |
| disjoint aliases and resolved references, PostgreSQL | Counterexamples.PostgresIdentityChangeSharesAlias, PostgresIdentityChangeDangles | PostgresSerial.RunHealthyIff |
| references are read object by object | Counterexamples.ColumnsMixObjects | ReferenceExtraction.ColumnsEqualRowsIff |
| the winning identity path is irrelevant | Counterexamples.AbsentLinkNotConfluent | IdentityExtraction.OrderIrrelevantIff |

## Assumptions

- Random uuids do not repeat within a run. The hash has fixed output lengths; where equal ids
  must mean equal inputs, the lemma says so about the two inputs at hand.
- The superclass id is a function of the document id (`ReferenceIds.SuperclassIdDetermined`
  says why), an abstract resource owns no document, and descriptors are never abstract.
- Ids are not empty. Between the attempts of one request other transactions may leave the
  collection in any state that keeps the invariant.
- The engine matches the creator of a document with the client by an analysed text match on an
  unmapped field. That match and the phrase match of query parameters are parameters of a query.
- MongoDB: unique keys, the first-match projection, snapshot reads, commit refused on a write
  conflict. PostgreSQL: unique indexes on id and uuid, all or nothing up to COMMIT, BEGIN
  inside an open transaction without effect.
- JSONPath: a field step reads one field, `[*]` visits the elements in order, and the options
  `flatten` and `wrap` act as `Json.Flatten` and `Json.Single` say.
- In the stores a reference carries the id computed from it.

The comment above the identity path map (DocumentIdentityExtractor.ts:18-26) says the equality
check makes the winning path irrelevant. It is irrelevant exactly when all paths offered for
one key lead to one value (`IdentityExtraction.OrderIrrelevantIff`). Duplicate paths that are
linked by constraints through present values meet this (`IdentityExtraction.IdentityConfluent`);
a chain through an absent value need not (`Counterexamples.AbsentLinkNotConfluent`). The comment on
MongoDB's `findMissingReferences` (ReferenceValidation.ts:38-45) promises the references that
are missing in the database; a document named under two of its aliases is reported as well:
see `MongoValidation.PassIff`.

## Model

| member | source | states |
|---|---|---|
| ReferenceReport.FindMissingIsExact | Meadowlark-js/backends/meadowlark-mongodb-backend/src/repository/ReferenceValidation.ts:46-73 | the report names every distinct absent reference exactly once, in order of first occurrence, with its own resource name and identity |
| ReferenceReport.FindMissingEmptyIff | Meadowlark-js/backends/meadowlark-mongodb-backend/src/repository/ReferenceValidation.ts:56-72 | the report is empty if and only if every referenced id is present |
| MongoValidation.CountShortcut | Meadowlark-js/backends/meadowlark-mongodb-backend/src/repository/ReferenceValidation.ts:109-118 | when no alias has two owners, as many matching documents as ids (duplicates counted) means that every id resolves |
| MongoValidation.NoFailuresMeansResolved | Meadowlark-js/backends/meadowlark-mongodb-backend/src/repository/ReferenceValidation.ts:96-136 | validation without failures means every document and descriptor reference resolves, for all lists including duplicates |
| MongoValidation.DocumentsPassIff | Meadowlark-js/backends/meadowlark-mongodb-backend/src/repository/Db.ts:119-123 | through the first-match projection document references pass exactly when they all resolve and no document is named under two aliases |
| MongoValidation.PassIff | Meadowlark-js/backends/meadowlark-mongodb-backend/src/repository/ReferenceValidation.ts:96-136 | a request passes validation exactly when all its references resolve and its document references name no document twice |
| MongoValidation.FailuresExact | Meadowlark-js/backends/meadowlark-mongodb-backend/src/repository/ReferenceValidation.ts:46-136 | a refused request is told exactly about the document references whose ids are no document's first alias asked for, then the descriptor references nobody answers to, each once, in order of first occurrence |
| MongoValidation.CountFooledByDoubleOwner | Meadowlark-js/backends/meadowlark-mongodb-backend/src/repository/ReferenceValidation.ts:115-118 | disjoint aliases are needed: two documents with one alias make up for a missing one in the count |
| PostgresValidation.FailuresExact | Meadowlark-js/backends/meadowlark-postgresql-backend/src/repository/ReferenceValidation.ts:87-112 | when no alias has two owners, validation reports exactly the distinct unresolved references, documents then descriptors, in order of first occurrence, whether or not the count shortcut is taken |
| PostgresValidation.ReportEmptyIff | Meadowlark-js/backends/meadowlark-postgresql-backend/src/repository/ReferenceValidation.ts:55-75 | that report is empty if and only if every reference resolves |
| PostgresValidation.ReportIsExact | Meadowlark-js/backends/meadowlark-postgresql-backend/src/repository/ReferenceValidation.ts:55-112 | the report lists first the document references and then the descriptor references nobody answers to, each distinct one once, in order of first occurrence |
| MongoTransactions.TransactionDisciplined | Meadowlark-js/backends/meadowlark-mongodb-backend/src/repository/Upsert.ts:91-168 | every successful transaction locks each document it overwrites, removes or writes, has the references it validated resolved at its start, and removes only documents nobody refers to |
| MongoTransactions.IdentityChangeMoves | Meadowlark-js/backends/meadowlark-mongodb-backend/src/repository/Update.ts:186-241 | an identity change deletes the unreferenced old document and writes the new one under the same uuid with the old creation time, and only if the request is newer and identity updates are allowed |
| MongoTransactions.WritesRequestRefs | Meadowlark-js/backends/meadowlark-mongodb-backend/src/model/MeadowlarkDocument.ts:118-123 | whatever document a transaction writes carries the references of its request, documents and descriptors |
| MongoSerial.UpsertShape | Meadowlark-js/backends/meadowlark-mongodb-backend/src/repository/Upsert.ts:127-189 | a successful upsert inserts under a fresh uuid with the superclass alias free, or replaces an older document keeping its uuid and its creation time if it has one, and leaves the requested content |
| MongoSerial.UpsertAcceptedIff | Meadowlark-js/backends/meadowlark-mongodb-backend/src/repository/Upsert.ts:41-125 | an upsert may write exactly when it is newer than what it replaces, the superclass alias of what it inserts is free, and, if it validates and does not come from an update, its references resolve and name no document twice |
| MongoSerial.UpdateShape | Meadowlark-js/backends/meadowlark-mongodb-backend/src/repository/Update.ts:99-136 | a successful update replaces in place keeping uuid, creator and creation time, or moves an unreferenced document |
| MongoSerial.DeleteShape | Meadowlark-js/backends/meadowlark-mongodb-backend/src/repository/Delete.ts:76-118 | a successful delete removes exactly the document with the uuid; if it validates, nobody referred to it |
| MongoSerial.FailureChangesNothing | Meadowlark-js/backends/meadowlark-mongodb-backend/src/repository/Update.ts:415-428 | an answer that is not a success leaves the collection as it was, also after the delete half of an identity change |
| MongoAnswers.UpsertAnswersIff | Meadowlark-js/backends/meadowlark-mongodb-backend/src/repository/Upsert.ts:34-189 | every answer of an upsert and its exact condition: stale, superclass claim taken, references refused, lock row taken, inserted, replaced |
| MongoAnswers.UpsertLocksExact | Meadowlark-js/backends/meadowlark-mongodb-backend/src/repository/Upsert.ts:137-159 | a successful upsert locks the owners of its references and the document it writes, and nothing else |
| MongoAnswers.UpdateAnswersIff | Meadowlark-js/backends/meadowlark-mongodb-backend/src/repository/Update.ts:91-394 | every answer of an update of a stored document and its exact condition, with identity updates on or off: references refused, lock row taken, stale, immutable identity, cascade required, superclass claim taken, held by a newer document, success |
| MongoAnswers.MissingUpdateAnswers | Meadowlark-js/backends/meadowlark-mongodb-backend/src/repository/Update.ts:174-184 | an update of a uuid nobody has answers not-exists exactly when its references pass and its lock rows can be written |
| MongoAnswers.UpdateLocksExact | Meadowlark-js/backends/meadowlark-mongodb-backend/src/repository/Update.ts:154-240 | a successful update locks the owners of its references, the document it writes and, if it moves, what the re-insert locks, and nothing else |
| MongoAnswers.DeleteAnswersIff | Meadowlark-js/backends/meadowlark-mongodb-backend/src/repository/Delete.ts:24-118 | every answer of a delete and its exact condition; a success removes and locks one document |
| MongoSerial.RunKeepsInvariant | Meadowlark-js/backends/meadowlark-mongodb-backend/src/repository/Upsert.ts:59-89 | in every serial run no alias has two owners and no uuid two ids, identity changes included |
| MongoSerial.RunKeepsIntegrity | Meadowlark-js/backends/meadowlark-mongodb-backend/src/repository/Delete.ts:24-118 | if deletes validate, after every serial run each validated document has all its references resolved |
| StoreChanges.PutKeepsAliasesDisjoint | Meadowlark-js/backends/meadowlark-mongodb-backend/src/model/MeadowlarkDocument.ts:146-149 | a write keeps aliases disjoint when the superclass alias of an inserted document is free; overwriting a held id needs no check |
| MongoHistory.UpsertAndDeleteConserve | Meadowlark-js/backends/meadowlark-mongodb-backend/src/repository/Upsert.ts:178-189 | INSERT_SUCCESS adds exactly the returned uuid, a replacing upsert changes one document, DELETE_SUCCESS removes exactly one, and no other document changes |
| MongoHistory.UpdateConservesIff | Meadowlark-js/backends/meadowlark-mongodb-backend/src/repository/Update.ts:27-82 | UPDATE_SUCCESS keeps the uuids and every other document exactly when no other document holds the new id; otherwise that document is lost |
| MongoHistory.IdentityChangeIsMove | Meadowlark-js/backends/meadowlark-mongodb-backend/src/repository/Update.ts:202-222 | an identity change is an atomic move of an unreferenced document: old id free, uuid and creation time kept, new content under the new id |
| MongoHistory.RunEvolves | Meadowlark-js/backends/meadowlark-mongodb-backend/src/repository/Update.ts:99-122 | between any two points of a serial run a uuid that lives in both keeps its creation time, never later than its modification time, and has changed only if the modification time grew |
| MongoHistory.WritesStrictlyOrdered | Meadowlark-js/backends/meadowlark-mongodb-backend/src/repository/Upsert.ts:47-51 | the successful writes to one uuid carry strictly increasing request timestamps, across upserts, in-place updates and moves |
| StoreChanges.WritesOrdered | Meadowlark-js/backends/meadowlark-mongodb-backend/src/repository/Update.ts:202-208 | in any history whose steps evolve, of either store, two writes to one uuid are ordered by their timestamps, because a uuid that is gone never comes back |
| MongoBackend.Backend.LockDocuments | Meadowlark-js/backends/meadowlark-mongodb-backend/src/repository/Db.ts:134-152 | inserting the lock rows succeeds exactly when the list repeats no uuid and meets no existing row, and leaves no row behind |
| MongoBackend.Backend.FindOwners | Meadowlark-js/backends/meadowlark-mongodb-backend/src/repository/Upsert.ts:141-154 | the sessionless query returns each owner of a reference in the committed collection once |
| MongoBackend.Backend.UpsertDocumentTransaction | Meadowlark-js/backends/meadowlark-mongodb-backend/src/repository/Upsert.ts:34-190 | checks, lock rows and replacement in the order of the code compute the upsert transaction and its exception |
| MongoBackend.Backend.DeleteDocumentTransaction | Meadowlark-js/backends/meadowlark-mongodb-backend/src/repository/Delete.ts:76-118 | the inbound check and the delete compute the delete transaction |
| MongoBackend.Backend.UpdateAllowingIdentityChange | Meadowlark-js/backends/meadowlark-mongodb-backend/src/repository/Update.ts:210-240 | delete plus re-insert in one session computes the identity change and the translation of its answers |
| MongoBackend.Backend.UpdateByReplacementOrMove | Meadowlark-js/backends/meadowlark-mongodb-backend/src/repository/Update.ts:174-240 | replacement first, then the not-exists, stale, immutable and move branches, in that order |
| MongoBackend.Backend.UpdateDocumentTransaction | Meadowlark-js/backends/meadowlark-mongodb-backend/src/repository/Update.ts:361-394 | validation, lock rows and the two update paths compute the update transaction |
| MongoBackend.Backend.Attempt | Meadowlark-js/backends/meadowlark-mongodb-backend/src/repository/Update.ts:415-428 | one run of the transaction is committed if and only if it succeeds; any other answer, also after the delete half of a move, leaves the collection as it was |
| MongoBackend.Backend.Execute | Meadowlark-js/backends/meadowlark-mongodb-backend/src/repository/Update.ts:412-454 | on a collection that others change between attempts there are at most retries + 1 attempts and one commit; the first attempt that meets no conflict and raises no exception decides: the collection ends as the others left it or with exactly that transaction, run on what it found, laid on it |
| MongoIntegrity.EveryCommittedStateHasIntegrity | Meadowlark-js/backends/meadowlark-mongodb-backend/src/repository/Db.ts:131-152 | in every interleaving of validating upserts, updates and deletes each committed state has every reference of its validated documents resolved, if lock rows cover the owners seen in the snapshot and superclass claims are still free at the commit |
| MongoIntegrity.SupportNotRemoved | Meadowlark-js/backends/meadowlark-mongodb-backend/src/repository/Delete.ts:98-106 | the owner of a committed reference cannot be removed by a concurrent delete: the deleter saw the reference or meets the lock row |
| MongoIntegrity.NewReferenceSupported | Meadowlark-js/backends/meadowlark-mongodb-backend/src/repository/Upsert.ts:152-159 | each reference a committing transaction validated has an owner that the transaction has locked and that is still there after the commit |
| MongoIntegrity.SessionReadsCover | Meadowlark-js/backends/meadowlark-mongodb-backend/src/repository/Upsert.ts:141-150 | if the query for lock rows read the session snapshot, the covering hypothesis would hold by itself |
| MongoIntegrity.SessionReadsSuffice | Meadowlark-js/backends/meadowlark-mongodb-backend/src/repository/Update.ts:154-164 | with session reads, integrity holds in every interleaving without a hypothesis on lock rows |
| MongoIntegrity.CommitIntegrityIff | Meadowlark-js/backends/meadowlark-mongodb-backend/src/repository/Upsert.ts:137-163 | whatever is locked, a commit keeps references resolved exactly when, on the latest store, the references it writes are owned and nothing refers to what it removes, unless another document answers to the alias |
| MongoIntegrity.RunIntegrityIff | Meadowlark-js/backends/meadowlark-mongodb-backend/src/repository/Db.ts:131-152 | every committed state of an interleaving has all references resolved exactly when every commit meets that condition |
| MongoClaims.CommitDisjointIff | Meadowlark-js/backends/meadowlark-mongodb-backend/src/repository/Upsert.ts:59-67 | a commit keeps aliases disjoint exactly when the superclass claim, repeated on the latest store, is still free |
| MongoClaims.RunDisjointIff | Meadowlark-js/backends/meadowlark-mongodb-backend/src/repository/Upsert.ts:59-67 | every committed state of an interleaving has disjoint aliases exactly when every commit finds its claim still free |
| MongoOrder.InterleavingsEvolve | Meadowlark-js/backends/meadowlark-mongodb-backend/src/repository/Update.ts:99-122 | in every interleaving no uuid has two ids, and between any two committed states a uuid that lives in both keeps its creation time and has changed only if its modification time grew |
| MongoOrder.InterleavedWritesOrdered | Meadowlark-js/backends/meadowlark-mongodb-backend/src/repository/Upsert.ts:152-159 | in every interleaving the writes to one uuid are committed in the strict order of their timestamps, because each locks the uuid |
| MongoConcurrency.RunAlone | Meadowlark-js/backends/meadowlark-mongodb-backend/src/repository/Upsert.ts:203-210 | a transaction with no other step between its begin and its commit commits exactly its effect on the latest store |
| MongoOrder.SerialRunsInterleave | Meadowlark-js/backends/meadowlark-mongodb-backend/src/repository/Upsert.ts:203-210 | every serial run is an interleaving that ends with the same store |
| MongoSerializability.TransactionRepeatsIff | Meadowlark-js/backends/meadowlark-mongodb-backend/src/repository/Upsert.ts:34-190 | a transaction whose lock rows cover its owners and that meets no write conflict does the same alone on the latest store, with the same answer, exactly when there its superclass claim is free and, unless it is a delete without the check, nobody refers to what it removes |
| MongoSerializability.SerializableIff | Meadowlark-js/backends/meadowlark-mongodb-backend/src/repository/Db.ts:131-152 | with covering lock rows an interleaving goes through the states of the serial run of its committed requests, in commit order and with the same answers, exactly when every commit meets that condition |
| MongoSerializability.ValidatingRunsAreSerial | Meadowlark-js/backends/meadowlark-mongodb-backend/src/repository/Db.ts:131-152 | an interleaving of validating requests with covering lock rows and free claims is the serial run of its commits |
| MongoRaces.UncoveredLocksLoseIntegrity | Meadowlark-js/backends/meadowlark-mongodb-backend/src/repository/Upsert.ts:141-150 | the covering hypothesis is needed, even if requests are well formed, deletes validate and claims are free: a referrer validates, its target is deleted, the sessionless query finds nothing to lock, and a dangling reference is committed |
| MongoRaces.SuperclassClaimRace | Meadowlark-js/backends/meadowlark-mongodb-backend/src/repository/Upsert.ts:59-67 | nothing locks a superclass claim, even if requests are well formed, deletes validate and lock rows cover: a school and an education agency inserted concurrently commit the same superclass alias |
| PostgresTables.AliasRowsExact | Meadowlark-js/backends/meadowlark-postgresql-backend/src/repository/SqlHelper.ts:301-318 | an alias row occurs as often as its alias does in the document of its id and uuid, and not at all without that document |
| PostgresTables.ReferenceRowsExact | Meadowlark-js/backends/meadowlark-postgresql-backend/src/repository/SqlHelper.ts:322-335 | a reference row occurs as often as the reference does in the document of its parent id |
| PostgresTables.DeleteRefines | Meadowlark-js/backends/meadowlark-postgresql-backend/src/repository/Delete.ts:91-107 | deleting the rows of one id from the three tables removes exactly that document from the store behind them |
| PostgresTables.InsertRefines | Meadowlark-js/backends/meadowlark-postgresql-backend/src/repository/Upsert.ts:131-156 | inserting a row with its alias and reference rows adds exactly that document to the store behind the tables |
| PostgresBackend.RewriteRefines | Meadowlark-js/backends/meadowlark-postgresql-backend/src/repository/Update.ts:91-127 | deleting the rows of the old id and inserting those of the new one replaces one document, also when the id changes |
| PostgresBackend.UuidQuery | Meadowlark-js/backends/meadowlark-postgresql-backend/src/repository/Delete.ts:35-42 | the alias query by uuid yields the id and all aliases of the document with that uuid, or nothing if there is none |
| PostgresBackend.ParentsMeanReferenced | Meadowlark-js/backends/meadowlark-postgresql-backend/src/repository/Delete.ts:52-61 | after the self-reference filter a referring id remains if and only if another stored document refers to an alias |
| PostgresBackend.ValidationIsExpected | Meadowlark-js/backends/meadowlark-postgresql-backend/src/repository/ReferenceValidation.ts:87-112 | as long as no alias has two owners, the alias rows validate to exactly the unresolved references |
| PostgresBackend.Backend.RewriteSideTables | Meadowlark-js/backends/meadowlark-postgresql-backend/src/repository/Update.ts:94-127 | the ordered deletes and inserts leave, in both side tables, the rows of the other documents followed by the rows of the written one |
| PostgresBackend.Backend.UpsertDocument | Meadowlark-js/backends/meadowlark-postgresql-backend/src/repository/Upsert.ts:38-167 | the ordered statements compute the upsert on the store behind the tables and keep the tables consistent, also on the answers that skip ROLLBACK |
| PostgresBackend.Backend.UpdateDocument | Meadowlark-js/backends/meadowlark-postgresql-backend/src/repository/Update.ts:34-145 | the same for updates, identity changes and the exception of the unique index included |
| PostgresBackend.Backend.CheckDelete | Meadowlark-js/backends/meadowlark-postgresql-backend/src/repository/Delete.ts:43-89 | the check answers not-exists, referenced, or nothing; the branch for a null result set is unreachable |
| PostgresBackend.Backend.DeleteDocument | Meadowlark-js/backends/meadowlark-postgresql-backend/src/repository/Delete.ts:33-115 | the three deletes compute the delete on the store behind the tables, with the self-reference filter |
| PostgresBackend.ServeAll | Meadowlark-js/backends/meadowlark-postgresql-backend/src/repository/Update.ts:34-145 | serving any sequence of requests, identity changes included, leaves the store and gives the answers of the serial run, validates as that run expects, and leaves in the side tables exactly the rows implied by ids, superclass and written references |
| PostgresSerial.FailureChangesNothing | Meadowlark-js/backends/meadowlark-postgresql-backend/src/repository/Update.ts:46-60 | an answer that is not a success leaves the store as it was |
| PostgresSerial.UpsertShape | Meadowlark-js/backends/meadowlark-postgresql-backend/src/repository/Upsert.ts:60-161 | a successful upsert inserts with the superclass alias free, or replaces an older document keeping uuid and creation time |
| PostgresSerial.UpdateShape | Meadowlark-js/backends/meadowlark-postgresql-backend/src/repository/SqlHelper.ts:340-383 | a successful update renames or replaces the row of its uuid, makes the client the creator, and moves only onto a free id |
| PostgresAnswers.UpsertAnswersIff | Meadowlark-js/backends/meadowlark-postgresql-backend/src/repository/Upsert.ts:45-161 | every answer of an upsert and its exact condition |
| PostgresAnswers.UpdateAnswersIff | Meadowlark-js/backends/meadowlark-postgresql-backend/src/repository/Update.ts:43-145 | every answer of an update of a stored document and its exact condition, with identity updates on or off; a success renames or replaces exactly that document |
| PostgresAnswers.MissingUpdateAnswers | Meadowlark-js/backends/meadowlark-postgresql-backend/src/repository/Update.ts:43-49 | an update answers not-exists exactly when no document has the uuid |
| PostgresAnswers.DeleteAnswersIff | Meadowlark-js/backends/meadowlark-postgresql-backend/src/repository/Delete.ts:33-115 | every answer of a delete and its exact condition; a document that only refers to itself is deleted |
| PostgresAnswers.ExpectedEmptyIff | Meadowlark-js/backends/meadowlark-postgresql-backend/src/repository/ReferenceValidation.ts:87-112 | validation has nothing to report exactly when the request does not validate or all its references resolve |
| PostgresSerial.RunKeepsUuids | Meadowlark-js/backends/meadowlark-postgresql-backend/src/repository/SqlHelper.ts:710-716 | in every serial run, identity changes included, no uuid has two ids |
| PostgresSerial.RunKeepsInvariant | Meadowlark-js/backends/meadowlark-postgresql-backend/src/repository/Upsert.ts:60-89 | with identity updates off, in every serial run no alias has two owners |
| PostgresSerial.RunKeepsIntegrity | Meadowlark-js/backends/meadowlark-postgresql-backend/src/repository/Delete.ts:43-89 | with identity updates off and validating deletes, after every serial run each validated document has all its references resolved |
| PostgresSerial.IdentityChangeSafeIff | Meadowlark-js/backends/meadowlark-postgresql-backend/src/repository/Update.ts:91-127 | an identity change checks neither inbound references nor the superclass claim: it keeps references resolved exactly when no validated document refers to a lost alias, and aliases disjoint exactly when the superclass alias is free |
| PostgresSerial.RunHealthyIff | Meadowlark-js/backends/meadowlark-postgresql-backend/src/repository/Update.ts:91-127 | with identity updates on, a serial run keeps aliases disjoint and references resolved at every point exactly when each identity change refers to no lost alias and claims a free superclass alias |
| PostgresSerial.RunKeepsIndexed | Meadowlark-js/backends/meadowlark-postgresql-backend/src/repository/Upsert.ts:131-156 | after every serial run, identity changes included, each document has exactly the aliases its id implies |
| PostgresHistory.SuccessConserves | Meadowlark-js/backends/meadowlark-postgresql-backend/src/repository/Upsert.ts:122-161 | a success adds exactly the returned uuid, removes exactly one, or keeps the uuids, and changes no other document |
| PostgresHistory.RunEvolves | Meadowlark-js/backends/meadowlark-postgresql-backend/src/repository/Update.ts:51-54 | between any two points of a serial run a uuid that lives in both keeps its creation time and changes only with a later modification time |
| PostgresHistory.WritesStrictlyOrdered | Meadowlark-js/backends/meadowlark-postgresql-backend/src/repository/Update.ts:51-54 | the successful writes to one uuid carry strictly increasing request timestamps |
| PostgresHistory.LastWriteShown | Meadowlark-js/backends/meadowlark-postgresql-backend/src/repository/Upsert.ts:122-161 | after every serial run each stored document shows the request of the last success that wrote its uuid: id, identity, body, aliases and references |
| BackendSimulation.ReportsAgree | Meadowlark-js/backends/meadowlark-mongodb-backend/src/repository/ReferenceValidation.ts:96-136 | when no request names a document twice, the MongoDB count over documents and the PostgreSQL count over alias rows give the same report |
| BackendSimulation.UpsertsAgree | Meadowlark-js/backends/meadowlark-mongodb-backend/src/repository/Upsert.ts:34-190 | on agreeing stores the two upserts answer the same, failures included, and leave agreeing stores |
| BackendSimulation.UpdatesAgree | Meadowlark-js/backends/meadowlark-mongodb-backend/src/repository/Update.ts:249-394 | with identity updates off the two updates succeed together and leave agreeing stores, although MongoDB validates first and PostgreSQL last; a refusal can only differ in its reason |
| BackendSimulation.DeletesAgree | Meadowlark-js/backends/meadowlark-postgresql-backend/src/repository/Delete.ts:52-61 | without self-references the two deletes answer the same, although only PostgreSQL filters self-references |
| BackendSimulation.NeverThrows | Meadowlark-js/backends/meadowlark-mongodb-backend/src/repository/Db.ts:139-139 | a document that does not refer to itself never repeats a uuid in its lock rows |
| BackendSimulation.RunsAgree | Meadowlark-js/backends/meadowlark-postgresql-backend/src/repository/Update.ts:43-137 | after every serial run of comparable requests the two stores hold the same documents, all fields but the creator |
| BackendSimulation.SameSuccesses | Meadowlark-js/backends/meadowlark-postgresql-backend/src/repository/Upsert.ts:45-161 | in every such run the two backends succeed on exactly the same requests |
| SearchIndex.SameIndexIff | Meadowlark-js/backends/meadowlark-opensearch-backend/src/repository/QueryOpensearch.ts:18-22 | two resources share an index exactly when project, version and resource agree up to case and periods, if project and version hold no dollar sign |
| SearchIndex.IndexNameParts | Meadowlark-js/backends/meadowlark-opensearch-backend/src/repository/QueryOpensearch.ts:18-22 | an index name is the folded project, version and resource, in this order, with dollar signs between |
| SearchIndex.FoldedIs | Meadowlark-js/backends/meadowlark-opensearch-backend/src/repository/QueryOpensearch.ts:18-22 | folding changes capitals to small letters and periods to hyphens, character by character |
| SearchIndex.SearchEngine.AfterUpsertDocument | Meadowlark-js/backends/meadowlark-opensearch-backend/src/repository/UpdateOpensearch.ts:85-91 | after a successful upsert the entry under its resource and returned uuid shows the request and every other entry is as before; after any other answer nothing changes |
| SearchIndex.SearchEngine.AfterUpdateDocumentById | Meadowlark-js/backends/meadowlark-opensearch-backend/src/repository/UpdateOpensearch.ts:96-112 | after a successful update the entry under its resource and uuid shows the request and every other entry is as before; otherwise nothing changes |
| SearchIndex.SearchEngine.AfterDeleteDocumentById | Meadowlark-js/backends/meadowlark-opensearch-backend/src/repository/UpdateOpensearch.ts:30-48 | after a successful delete there is no entry under its resource and uuid and every other entry is as before; otherwise nothing changes |
| SearchIndex.SearchEngine.QueryDocuments | Meadowlark-js/backends/meadowlark-opensearch-backend/src/repository/QueryOpensearch.ts:51-87 | the hits are exactly the entries of the index that pass every parameter and, unless the resource is a descriptor, the ownership filter |
| SearchIndex.ReplaceMirrorsIff | Meadowlark-js/backends/meadowlark-opensearch-backend/src/repository/UpdateOpensearch.ts:53-80 | after a document is replaced or moved the index follows exactly when the index name is unchanged, no other document is overwritten, and the entry shows the right creator |
| SearchIndex.RemoveMirrorsIff | Meadowlark-js/backends/meadowlark-opensearch-backend/src/repository/UpdateOpensearch.ts:34-42 | after a delete the index follows exactly when the request names the index of the document |
| SearchIndex.QueryExact | Meadowlark-js/backends/meadowlark-opensearch-backend/src/repository/QueryOpensearch.ts:51-87 | on an index that agrees with a store a query finds exactly the stored documents in that index that satisfy every parameter and, if it is restricted, whose creator the engine matches |
| SearchIndex.OwnershipQueryExactIff | Meadowlark-js/backends/meadowlark-opensearch-backend/src/repository/QueryOpensearch.ts:62-69 | a restricted query finds exactly the documents of the client if and only if the analysed match tells the creators in that index apart |
| SearchMirror.MongoStepMirrorsIff | Meadowlark-js/backends/meadowlark-opensearch-backend/src/repository/UpdateOpensearch.ts:85-112 | beside MongoDB the index agrees after a success exactly when the request names its document's own resource and overwrites no held id, and, for creators to agree, an in-place PUT comes from the creator |
| SearchMirror.MongoIndexAgreesIff | Meadowlark-js/backends/meadowlark-opensearch-backend/src/repository/UpdateOpensearch.ts:30-112 | the index shows exactly the stored documents, with or without creators, after every request of a serial MongoDB run if and only if every success meets that condition |
| SearchMirror.PostgresStepMirrorsIff | Meadowlark-js/backends/meadowlark-postgresql-backend/src/repository/SqlHelper.ts:352-380 | beside PostgreSQL the index agrees after a success, creator included, exactly when the request names its document's own resource |
| SearchMirror.PostgresIndexAgreesIff | Meadowlark-js/backends/meadowlark-opensearch-backend/src/repository/UpdateOpensearch.ts:30-112 | the index shows exactly the stored documents, creators included, after every request of a serial PostgreSQL run if and only if every success names its document's own resource |
| SearchMirror.FollowRun | Meadowlark-js/backends/meadowlark-opensearch-backend/src/repository/UpdateOpensearch.ts:30-112 | listeners that hear every answer of a run leave exactly the index of that run |
| SearchMirror.QueryAfterRun | Meadowlark-js/backends/meadowlark-opensearch-backend/src/repository/QueryOpensearch.ts:51-87 | after such a run a query returns exactly the stored documents that satisfy it |
| SearchMirror.OwnedAfterRun | Meadowlark-js/backends/meadowlark-opensearch-backend/src/repository/QueryOpensearch.ts:62-69 | after such a run an ownership-filtered query returns exactly the documents of the client if and only if the analysed match tells the creators in that index apart |
| Json.EvalAppend | Meadowlark-js/packages/meadowlark-core/src/extraction/DocumentReferenceExtractor.ts:114-118 | evaluating a path is evaluating its end on every value its beginning leads to, with nested [*] |
| Json.StepsAre | Meadowlark-js/packages/meadowlark-core/src/extraction/DocumentReferenceExtractor.ts:114-118 | what one step of a path leads to: the member of the key, the items of an array, the members of an object, or nothing |
| Json.ValuesAre | Meadowlark-js/packages/meadowlark-core/src/extraction/DocumentReferenceExtractor.ts:114-118 | the values of a path are what it leads to, in order, with arrays replaced by their items |
| ReferenceExtraction.EvaluatePaths | Meadowlark-js/packages/meadowlark-core/src/extraction/DocumentReferenceExtractor.ts:111-129 | the loop over the paths collects exactly the columns that are not empty |
| ReferenceExtraction.BuildRow | Meadowlark-js/packages/meadowlark-core/src/extraction/DocumentReferenceExtractor.ts:153-165 | one row is built by key and put into the identity path order; it fails exactly when a column is missing |
| ReferenceExtraction.ExtractProperty | Meadowlark-js/packages/meadowlark-core/src/extraction/DocumentReferenceExtractor.ts:104-174 | the loops compute the transposed columns of one property, or the exception |
| ReferenceExtraction.ExtractDocumentReferences | Meadowlark-js/packages/meadowlark-core/src/extraction/DocumentReferenceExtractor.ts:97-177 | the properties are extracted in order; the first exception is the answer |
| ReferenceExtraction.IdentityPathOrderIs | Meadowlark-js/packages/meadowlark-core/src/extraction/DocumentReferenceExtractor.ts:67-91 | the order is that of the first resource of the name in the first project of the name, of an abstract resource only if there is no concrete one, or one of two exceptions |
| ReferenceExtraction.PropertyAnswersIff | Meadowlark-js/packages/meadowlark-core/src/extraction/DocumentReferenceExtractor.ts:104-174 | every answer of one property and its exact condition, exceptions included |
| ReferenceExtraction.PropertyRows | Meadowlark-js/packages/meadowlark-core/src/extraction/DocumentReferenceExtractor.ts:144-172 | there is one reference for each row of the columns, with the keys in identity path order and the values of that row |
| ReferenceExtraction.ReferencesAre | Meadowlark-js/packages/meadowlark-core/src/extraction/DocumentReferenceExtractor.ts:97-177 | the extraction fails exactly when some property fails, with the first failure; otherwise the references of each property stand, in order, where the lengths of the earlier properties put them |
| ReferenceExtraction.ColumnsEqualRowsIff | Meadowlark-js/packages/meadowlark-core/src/extraction/DocumentReferenceExtractor.ts:104-174 | column-wise extraction equals reading each object in document order exactly when every object at the shared prefix carries all keys of the reference |
| ReferenceExtraction.DocumentReadIff | Meadowlark-js/packages/meadowlark-core/src/extraction/DocumentReferenceExtractor.ts:97-177 | the references of a document are those one reads object by object, property after property, exactly when every object carries all keys of its reference |
| ReferenceExtraction.IncompleteObjectFails | Meadowlark-js/packages/meadowlark-core/src/extraction/DocumentReferenceExtractor.ts:136-142 | an object that lacks a key causes an exception or fewer references than objects |
| IdentityExtraction.ValidateEqualityConstraints | Meadowlark-js/packages/meadowlark-core/src/validation/EqualityConstraintValidator.ts:27-51 | the failures are the violated constraints, in order; there are none exactly when all constraints hold |
| IdentityExtraction.ViolationsExact | Meadowlark-js/packages/meadowlark-core/src/validation/EqualityConstraintValidator.ts:27-51 | each constraint two of whose values differ is reported once, in order, and no other |
| IdentityExtraction.ExtractDocumentIdentity | Meadowlark-js/packages/meadowlark-core/src/extraction/DocumentIdentityExtractor.ts:39-71 | the overwriting loops compute the identity of the winning paths in identity path order, or the first exception |
| IdentityExtraction.IdentityAnswers | Meadowlark-js/packages/meadowlark-core/src/extraction/DocumentIdentityExtractor.ts:33-71 | every answer: an unknown property first, then the first key in the order that cannot be read and why, then an empty order; otherwise one element for each key, in order, with the one value its winning path leads to |
| IdentityExtraction.IdentityOkIff | Meadowlark-js/packages/meadowlark-core/src/extraction/DocumentIdentityExtractor.ts:33-71 | there is an identity exactly when every property is mapped, the order is not empty, and the winning path of each key leads to one value that is neither an array nor null |
| IdentityExtraction.WinnerIsLast | Meadowlark-js/packages/meadowlark-core/src/extraction/DocumentIdentityExtractor.ts:39-45 | the winning path of a key is the one the last property that has the key offers |
| IdentityExtraction.ChainAgrees | Meadowlark-js/packages/meadowlark-core/src/validation/EqualityConstraintValidator.ts:17-20 | on a body that passes, a chain of constraints between paths with values equates the values at its ends |
| IdentityExtraction.WinnersAreCandidates | Meadowlark-js/packages/meadowlark-core/src/extraction/DocumentIdentityExtractor.ts:39-45 | a key has a winning path exactly when some property offers one, and the winner is one of those offered |
| IdentityExtraction.OrderIrrelevantIff | Meadowlark-js/packages/meadowlark-core/src/extraction/DocumentIdentityExtractor.ts:18-26 | for a body with an identity, every ordering of the identity properties gives that identity exactly when all paths offered for one key lead to one value |
| IdentityExtraction.IdentityConfluent | Meadowlark-js/packages/meadowlark-core/src/extraction/DocumentIdentityExtractor.ts:18-26 | if duplicate paths are linked by constraints through present scalars, every ordering of the identity properties gives the same identity or the same exception |
| ReferenceIds.DeriveSuperclassInfoFrom | Meadowlark-js/packages/meadowlark-core/src/extraction/SuperclassInfoExtractor.ts:21-68 | the clone with its overwritten element is the identity with the first element of the subclass key renamed; without one it is an exception |
| ReferenceIds.SuperclassIdentityIs | Meadowlark-js/packages/meadowlark-core/src/extraction/SuperclassInfoExtractor.ts:21-68 | a resource that is no subclass has no superclass identity; an association keeps its identity; a domain entity changes the key of the first element of the subclass key and nothing else, or raises an exception exactly when there is none |
| ReferenceIds.SuperclassForm | Meadowlark-js/packages/meadowlark-core/src/extraction/SuperclassInfoExtractor.ts:36-67 | the superclass form keeps every value in place and renames one key; an association keeps all keys |
| ReferenceIds.WrittenIs | Meadowlark-js/packages/meadowlark-core/src/model/DocumentIdentity.ts:60-73 | a text or number is written as it stands, and a missing value as undefined |
| ReferenceIds.ShownIs | Meadowlark-js/packages/meadowlark-core/src/model/DocumentIdentity.ts:60-73 | arrays are written with commas between their items |
| ReferenceIds.ReferenceMeetsDocument | Meadowlark-js/packages/meadowlark-core/src/model/DocumentReference.ts:39-48 | a reference and the document it names compute one id if they show the same values, and, unless the hash collides, only then |
| ReferenceIds.ReferenceMeetsSuperclass | Meadowlark-js/packages/meadowlark-core/src/model/SuperclassInfo.ts:62-70 | the same for a reference to a superclass and the superclass id of a subclass document |
| ReferenceIds.SuperclassIdDetermined | Meadowlark-js/packages/meadowlark-core/src/extraction/SuperclassInfoExtractor.ts:21-68 | two documents of one subclass with the same id have the same superclass id, unless the hash collides |
| ReferenceResolution.FormIdInjective | Meadowlark-js/packages/meadowlark-core/src/model/DocumentIdentity.ts:78-92 | unless the hash collides, an id stands for one project, resource and identity, when the keys of an identity depend on its resource alone |
| ReferenceResolution.ResolvesIff | Meadowlark-js/backends/meadowlark-mongodb-backend/src/model/MeadowlarkDocument.ts:67-84 | a reference resolves exactly when some stored document shows the referenced resource and identity, or has them as its superclass form |
| ReferenceResolution.RunResolvesIff | Meadowlark-js/backends/meadowlark-mongodb-backend/src/model/MeadowlarkDocument.ts:125-167 | the same after every serial MongoDB run of requests whose ids were computed from their identities |
| DocumentIdentityHash.CleanStringsInjective | Meadowlark-js/packages/meadowlark-core/src/model/DocumentIdentity.ts:60-73 | for fixed keys the identity string determines the identity, if no value but the last contains the text that starts the next element |
| DocumentIdentityHash.UncleanCollides | Meadowlark-js/packages/meadowlark-core/src/model/DocumentIdentity.ts:60-73 | every identity outside that class shares its string with a different identity of the same keys |
| DocumentIdentityHash.EncodingRoundTrip | Meadowlark-js/packages/meadowlark-core/src/model/DocumentIdentity.ts:39-48 | the base64url text decodes to the digest, and its length is 16 for 12 bytes and 22 for 16 bytes |
| DocumentIdentityHash.EncodingVectors | Meadowlark-js/packages/meadowlark-core/src/model/DocumentIdentity.ts:39-48 | known encodings, two of RFC 4648 and one that needs the URL alphabet |
| DocumentIdentityHash.UnusedBits | Meadowlark-js/packages/meadowlark-core/src/model/DocumentIdentity.ts:46-48 | the bits of the last character that no byte fills are zero |
| DocumentIdentityHash.PaddedLength | Meadowlark-js/packages/meadowlark-core/src/model/DocumentIdentity.ts:46-48 | before the padding is removed the length is a multiple of four |
| DocumentIdentityHash.IdentityStringAppend | Meadowlark-js/packages/meadowlark-core/src/model/DocumentIdentity.ts:60-73 | each element is written as key=value, with # before every element but the first |
| DocumentIdentityHash.IdForm | Meadowlark-js/packages/meadowlark-core/src/model/DocumentIdentity.ts:46-92 | the first 16 characters of an id decode to the digest of project#resource in 12 bytes, the other 22 to the digest of the identity string in 16 bytes |
| DocumentIdentityHash.IdPartsIff | Meadowlark-js/packages/meadowlark-core/src/model/DocumentIdentity.ts:78-92 | two ids start with the same 16 characters exactly when the resource digests are equal, and end with the same 22 exactly when the identity digests are |
| DocumentIdentityHash.IdDeterminesDigests | Meadowlark-js/packages/meadowlark-core/src/model/DocumentIdentity.ts:78-92 | an id is 38 characters long, and two ids are equal exactly when both digests are |
| DocumentIdentityHash.IdsEqualIff | Meadowlark-js/packages/meadowlark-core/src/model/DocumentIdentity.ts:87-92 | unless the hash collides, two ids with the same clean keys are equal exactly when resource and identity are |
| ResourceUri.Search | Meadowlark-js/packages/meadowlark-core/src/middleware/ParsePathMiddleware.ts:23-25 | every name in a parse is non-empty and free of slashes, the uuid included when there is one |
| ResourceUri.ParseIs | Meadowlark-js/packages/meadowlark-core/src/middleware/ParsePathMiddleware.ts:16-40 | a path parses exactly when it contains three names between slashes; the leftmost three become the version, the namespace in small letters, and the endpoint with a small first letter; the uuid is the longest text behind one more slash that ends a line |
| ResourceUri.UriRoundTripIff | Meadowlark-js/packages/meadowlark-core/src/handler/UriBuilder.ts:23-25 | for components that came out of the parser, the built URI parses back to them with the uuid exactly when the uuid is non-empty and free of slashes |
| Counterexamples.PostgresIdentityChangeDangles | Meadowlark-js/backends/meadowlark-postgresql-backend/src/repository/Update.ts:91-95 | an accepted PostgreSQL identity change, from a sound store and a well-formed request, that leaves the reference of another validated document dangling |
| Counterexamples.PostgresIdentityChangeSharesAlias | Meadowlark-js/backends/meadowlark-postgresql-backend/src/repository/Update.ts:97-104 | an accepted PostgreSQL identity change after which a district and a school share a superclass alias, from a sound store and a well-formed request |
| Counterexamples.MongoIdentityChangeOverwrites | Meadowlark-js/backends/meadowlark-mongodb-backend/src/repository/Update.ts:222-222 | an identity change onto a held id succeeds and the document that held it is gone |
| Counterexamples.MongoFalseMiss | Meadowlark-js/backends/meadowlark-mongodb-backend/src/repository/ReferenceValidation.ts:52-56 | a body that names one document under two of its aliases is refused although both references resolve |
| Counterexamples.ColumnsMixObjects | Meadowlark-js/packages/meadowlark-core/src/extraction/DocumentReferenceExtractor.ts:136-158 | two objects that each lack the other's key are merged into one reference |
| Counterexamples.AbsentLinkNotConfluent | Meadowlark-js/packages/meadowlark-core/src/extraction/DocumentIdentityExtractor.ts:42-44 | a chain of constraints through an absent value lets the identity depend on the order of the properties |

## Left out

- BackendSimulation.UpdatesAgree: states that a refused update may be refused for a different reason in the two backends, because they check in different orders; which reasons can pair up is part of the statement.
- MongoIntegrity.EveryCommittedStateHasIntegrity: takes the cover of the lock rows and free superclass claims as hypotheses, because the sessionless queries and the claim check do not guarantee them; MongoRaces shows that both can fail, and MongoIntegrity.RunIntegrityIff needs neither.
- MongoSerializability.SerializableIff: takes the cover of the lock rows as a hypothesis, for the same reason; its condition is checked at each commit. Requests that are refused or aborted are not part of the serial run.
- MongoBackend.Backend.Execute: one wrapper stands for the three copies of the retry code; what others commit between two attempts is given as a sequence of collections; the retry delays, the internal retry of the driver's own transaction wrapper and its abort protocol are not modelled.
- Concurrency of the PostgreSQL backend: row-lock modes and isolation level are outside its code, so it is modelled serially.
- Answers with `acknowledged: false`, connection failures and driver errors other than write conflicts and duplicate keys.
- Lists of up to five referring documents, failure texts and HTTP status codes.
- Descriptor and school-year identities, and the extraction of descriptor references, which read fixed fields of the body.
- Objects that repeat a key: the first member counts here.
- JSONPath beyond field steps and `[*]`; strict equality of two objects is taken structurally, since identity paths end in scalars; a number is given by its decimal text.
- Lower-casing of letters other than ASCII in index names and paths.
- The analysis inside the text search of the query engine, its pagination and its sort order; the Elasticsearch listeners, which repeat the OpenSearch ones.
- The check that a uuid in a path is well formed, and the URIs of blocking documents.
- An `id` property of a body, which would replace the uuid in the indexed text.
- Schema validation, authorization clients, tokens, plugin loading, configuration, logging, and the partial Meadowlark.net port.
