# Verification of nosqlite

nosqlite keeps collections of JSON documents in one append-only file. Every write appends a framed
record; memory keeps, for each collection, where its documents lie (`offsets`, `lengths`), a lazily
built hash table from `_id` to position, and the counters `size`, `total`, `dead` and `dirty`. On
opening, all of that is rebuilt by replaying the file, with algorithms quite unlike those that
maintained it while the process lived. On top sits a query engine over decoded JSON, and a table of
reference-counted handles for callers from other languages.

This project models those parts in Dafny and proves what they promise:

- **Replay rebuilds.** For every run of define, insert, replace and delete operations, with writes
  landing in part wherever they may, replaying the log gives exactly the live state, if and only if
  no define in the run wrote its record and then failed its sync, and the log is legible: it replaces
  no document by one `payloadID` cannot read, and no collection in it has both an insert `payloadID`
  cannot read and a replace or a tombstone. The replay is also written as the loop over the file's bytes,
  working on the fields, the slices and the hash table, and proved to arrive where the
  record-by-record walk does.
- **Recovery.** A file cut anywhere inside a write opens to the state of the whole records before
  the cut, and a second open mends what the first left uncompacted. When the published state equals
  the live one, and when residue of an earlier failed write stops the file from opening, is given
  exactly.
- **Accounting.** In every reachable state every byte of the file is accounted for, and the offline
  pass over the file reports the same numbers if and only if `payloadID` can read every document.
- **Readers.** Under every schedule of a writer and any number of lock-free readers, a scan hands out
  what it would have handed out when its snapshot was taken; and both scan shapes hand out the same.
- **Contents.** What each write does to the list of a collection's documents: which go in, which gives
  way, which go, and that nothing else moves.
- **Queries.** Values are compared in the published order; each operator passes the documents it is
  meant to, wherever in an array they match; a projection keeps exactly the places it names, arrays
  and all; a query answers with exactly the rows that pass, each once, in the order asked for; a
  bounded heap gives the page that sorting everything and slicing gives; pages fetched one by one join
  up to the whole result.
- **Handles.** In every interleaving an open handle lets in every call, a database is closed at most
  once, with no call inside, and every close can finish.

Each file is one module. `Framing`, `Slots`, `Database` are the vocabulary; `Replay`, `Live`, `Mirror`,
`Ticks`, `Legibility`, `Lineage`, `Rebuild`, `Recovery`, `Accounting` reason about whole runs as values;
`IdTable`, `Collection`, `Appends`, `Find`, `Scan`, `Audit`, `Store`, `Snapshots` hold the code that
updates fields, slices and arrays, proved against those values (`Steps` has the facts about values that
`Store` needs); `Contents` says what the writes do to documents; `Failures` and `Unread` show where
promises stop; `Witness` drives a new database through a first session with a made-up codec, so that
the assumptions can all be met at once. `Values`, `Sorting`, `Filters`, `Projections`, `Queries`,
`Handles` are the query engine and the handle table; `Order`, `Meaning` and `Kept` state the order of
values, the filters and the projections a second time, in the caller's terms and without the
functions the engine computes with, and prove that the engine agrees.

The file is a sequence of bytes, and a write carries a number saying how many of its bytes land. JSON,
CRC-32 and FNV-1a are functions in a `Codec`, of which only these laws are used: an encoded catalog
entry and an encoded tombstone read back, the empty payload carries no `_id`, a fingerprint is not
zero. A write also carries whether the sync after it, if the policy asks for one, succeeds.

## Model

| member | source | states |
|---|---|---|
| Framing.DecodeEncode | store.go:168-177 | A framed record decodes to its length, op, zero flags, collection and checksum, its checksummed bytes and its payload, whatever bytes follow it |
| Framing.RecordOnDisk | store.go:27-33 | A record byte by byte: length, op, zero flags, collection and checksum with their low bytes first, what the checksum covers, and the payload |
| Framing.HeaderOnDisk | store.go:19-25 | The file header byte by byte |
| Framing.GoodHeaderIsWritten | store.go:116-163 | The headers accepted on opening are exactly those written for a new file, at some time of creation |
| Rebuild.ReplayRebuildsEveryRun | store.go:307-607 | For every legal run from a rebuilt state, walking the log succeeds and its compacted state is the live catalog, slots, dirty marks, counters and nextID, if and only if no define of the run was written and then failed its sync and the log is legible |
| Rebuild.RunRebuilt | store.go:307-607 | A run that kept its defines is rebuilt by its log if that is legible, and otherwise replay refuses it |
| Rebuild.RedefineIsFatal | catalog.go:60-71 | A define that fails its sync after its record was written, then any further define that is written: replay does not get through the log, for the two share an id |
| Legibility.AppliedIsLegible | index.go:401-433 | Of any log at all, run or not: if replay gets through it, no replacement in it is unreadable to payloadID and no collection has both an unreadable insert and a replace or tombstone |
| Lineage.AppliedIsOrderly | store.go:402-470 | Of any log at all: if replay gets through it, it holds known ops only, each collection is defined before it is used, once, under a good name and a free id, every replace and tombstone names an `_id` of which more inserts than tombstones lie before it, and each collection then holds of every `_id` as many documents as inserts less tombstones |
| Store.DB.Replay | store.go:307-487 | The loop over the file's bytes, on fields, slices and hash tables, ends as the walk over the bytes does: clean, cut off at a torn tail, or refused; and the fields then show what that walk publishes, for either verification mode |
| Store.Open | nosqlite.go:270-336 | An empty file becomes an empty database under a fresh header, a file too short or with a wrong magic, format, flags or reserved byte is refused, any other is opened when its walk ends clean or torn and refused when it fails, and shows what that walk publishes |
| Store.ReopenAfterRun | store.go:307-487 | After any legal run that kept every define, reopening the first size bytes of its file, followed by any proper part of one further record, succeeds if and only if the log is legible, cuts the file back to the log, and shows the state that was closed if and only if nothing followed or the log holds no tombstone; it is then valid for the same log, and further runs start from it |
| Store.ReopenTwice | store.go:335-487 | Opening such a file twice in a row succeeds if and only if the log is legible, and always ends valid for the log and in the state that was closed |
| Store.DB.ReplayInsert | store.go:418-441 | Replaying an insert record appends its slot and, once the collection has a table, files the payload's `_id`, if it has one; it fails when that cannot be read |
| Store.DB.ResolveID | store.go:499-541 | Looking up a record's `_id` builds the table if there is none, fails exactly when that cannot be done or no unmarked slot carries the `_id`, and otherwise yields an unmarked slot that does, the lowest one if the table was built for it |
| Store.DB.ApplyReplay | store.go:499-541 | Replaying a replace record moves the one slot its `_id` names, charges the old record as dead and marks the collection dirty, or fails as the walk does |
| Store.DB.ApplyDeleteReplay | store.go:562-607 | Replaying a tombstone marks the one slot its `_id` names, charges both records as dead, takes one off the total and notes the collection for compaction, or fails as the walk does |
| Mirror.LiveIdResolves | index.go:451-478 | In the middle of a replay the `_id` of the p-th live document resolves to the one unmarked slot that has p unmarked slots before it |
| Mirror.DeadIdIsMissing | index.go:451-478 | An `_id` no live document carries resolves to nothing, whatever marked slots once carried it |
| Collections.Collection.LookupID | index.go:451-478 | With a table, the slot returned is unmarked and stores a document with that `_id`, the first such slot if the table meets positions in order; nothing returned means no unmarked slot does, despite stale entries and fingerprint collisions; an error means a document filed under its fingerprint cannot be read |
| Collections.Collection.EnsureIDTable | index.go:401-417 | Building the table succeeds exactly when every slot's document has a readable `_id`, so never over a marked slot, changes nothing but the table, and leaves one that meets lower positions first |
| Collections.Collection.CompactMarkedSlots | index.go:224-232 | The marked slots, and only they, come out of both columns in order, and the table maps the survivors to their new positions |
| Collections.Collection.RemoveIndex | index.go:148-182 | Both columns keep exactly the entries at the positions not named, in order, and the table, if there is one, maps each surviving document to its new slot |
| Slots.KeepIsRemoveFromTop | index.go:148-182 | Dropping ascending positions in one pass is dropping them one at a time from the highest down |
| Collections.Collection.RemapIDTable | index.go:200-214 | The rebuilt table holds exactly the surviving documents at their new positions, with no growth on the way |
| Collections.Collection.AppendIndex | index.go:95-98 | Both columns gain the one entry at the end |
| Collections.Collection.ReplaceIndex | index.go:119-129 | Exactly the entry at the given position moves to the new record |
| IdTables.IdTable.Insert | index.go:347-360 | One more entry, and no other change to the entries, with load at most half and every probe chain unbroken |
| IdTables.IdTable.Grow | index.go:378-390 | The same entries in a table twice the size |
| IdTables.IdTable.ForEachCandidate | index.go:365-375 | Every position visited is filed under the fingerprint, the walk stops at the first that is accepted, and unless one was, every position filed under it was visited, in a table filled in order the lower ones first; the loop ends |
| Store.DB.constructor | nosqlite.go:289-317 | A new database is valid for the empty state and the empty log, its file the header alone |
| Store.DB.AppendRecord | store.go:184-214 | The file gets as many bytes as land at the append point; the append point moves past the record when all did and stays otherwise |
| Store.DB.AppendBatch | store.go:221-275 | As many bytes as land of the whole batch reach the file; the append point moves past exactly the records that landed in full, each at its stated offset |
| Store.DB.HasID | index.go:401-478 | An `_id` is refused exactly when the table cannot be built, a lookup comes upon a document it cannot read, or the `_id` is taken; the table exists afterwards if it can |
| Store.DB.InsertMany | collection.go:58-131 | From a valid database to one valid for the stepped state: refused when the check of a supplied `_id` fails, otherwise the documents whose records landed are indexed and filed; their number is returned, and success means all of them landed and the sync succeeded |
| Store.DB.Insert | collection.go:134-182 | The same for one document, which is indexed once its record landed even when the sync then fails and an error is returned |
| Store.DB.Replace | collection.go:205-291 | The first document the filter accepts gives way to the new version under its own `_id`, in place in the index, when the record lands; nothing else changes; 1 is returned when the sync succeeded too, else 0, without an error only when nothing matched |
| Store.DB.DeleteMatching | collection.go:333-430 | Of the documents the filter accepts, up to the limit, those whose tombstones landed leave the index; counters, dirty mark and log move with them; their number is returned, and success means nothing matched or all landed and the sync succeeded |
| Store.DB.FindFirst | collection.go:444-463 | The first accepted index position, or -1, whichever way the collection is scanned |
| Store.DB.FindAll | collection.go:479-505 | The accepted index positions in order, up to the limit, with their documents' `_id`s |
| Store.DB.DefineCollection | catalog.go:48-74 | From a valid database to one valid for the stepped state: the record is written and the collection registered under nextID; a failed sync leaves the record in the log and registers nothing |
| Store.DB.CollectionOrDefine | nosqlite.go:400-431 | An existing collection is handed back and an invalid name refused, both with no change at all, and a missing one is defined |
| Contents.InsertPutsIn | collection.go:58-182 | In a collection whose documents can be read: when no supplied `_id` is in use or given twice and no document is too long, the documents that landed go in at the end in the order given, all exactly when the write landed in full; otherwise none does |
| Contents.ReplacePutsInPlace | collection.go:205-291 | The first document accepted becomes the new version in its place when its `_id` can be read, the caller names no other, and the record fits and lands; nothing changes otherwise |
| Contents.DeleteTakesOut | collection.go:333-430 | The first documents accepted go, as many as tombstones landed, the others stay in order; with room on disk those are all accepted, or the limit's number of them |
| Contents.WithoutAll | collection.go:325-329 | When all accepted documents go, exactly the others are left |
| Contents.DefineMakesEmpty | catalog.go:48-110 | A define that is kept makes an empty collection under the next id, moves that on, wrapping after 65535, and touches no other collection |
| Contents.OthersStay | collection.go:58-430 | A write to one collection leaves the documents of every other alone |
| Contents.NamesAllowed | catalog.go:22-42 | A name is allowed exactly when it has 1 to 64 of the letters, digits, underscore and hyphen |
| Failures.LostDefineIsNotRebuilt | catalog.go:60-71 | One define in a new database, its record written and its sync failed, is a legal run whose log does not rebuild it |
| Recovery.CrashDuringOperation | store.go:335-408 | Whatever operation's write is cut after whatever number of its bytes, at the end of the file, the walk over the file fails if the whole records are not legible, and otherwise ends clean or torn in their state, whose compaction is the state the operation would have left had the write failed there |
| Recovery.TornTailPublishes | store.go:482-484 | Cut off at a torn tail, replay publishes the live state if and only if the log holds no tombstone; with one, a zero-length slot is published |
| Failures.TornTailAfterDelete | store.go:335-405 | Define, insert, delete and any proper prefix of a further record: a legal run after which opening publishes a slot although the live collection is empty |
| Recovery.FastOpenAgrees | store.go:363-411 | On a file whose checksums are all right, the walk that skips payloads ends exactly as the walk that reads them |
| Failures.ResidueEnds | store.go:335-411 | A log with any bytes whatever behind it: cut off when the record they declare is not all there, refused when its flags are set, cut off or refused when it is read and does not check out, by whether it ends the file, and otherwise taken for a record |
| Failures.LastRecordIsChecked | store.go:385-396 | In either mode a last record that does not check out is cut off |
| Failures.CorruptionIsRefused | store.go:385-401 | One further in that does not check out makes opening fail, in full mode whatever it is, with fast open if it is no insert or its collection has a table |
| Failures.CrashAfterFailedWrite | store.go:203-211 | A write that failed after some bytes, then one at the same point cut after any of its bytes: as long as the mixture is told from a record, the file is refused if and only if the record its first bytes declare is within the limit and ends short of the end of the file, and cut off otherwise |
| Failures.HeaderLanded | store.go:203-211 | Once the second write got past its header, that is if and only if the first left bytes past the end of the second |
| Failures.LongerWriteOverResidue | store.go:385-401 | One byte of a record of 256 bytes over twenty of one of 16: the file is refused, though the second write is the longer |
| Failures.FastOpenTakesResidue | store.go:363-411 | Under fast open, an insert completed by residue short of the end of the file is not checked, and what it is made up of is published as a document |
| Unread.OpensIfLegible | store.go:307-487 | The file of a run that kept its defines opens if its log is legible, and if not, never, whatever lies behind the log |
| Unread.UnreadThenDeleted | index.go:423-431 | Insert a document whose `_id` payloadID cannot read, then delete it: both succeed, and replay refuses the log |
| Unread.UnreadReplacement | store.go:499-541 | Replace a readable document by one payloadID cannot read: it succeeds, and replay refuses the log |
| Unread.UnreadAfterDelete | store.go:418-441 | Insert a document payloadID cannot read after a delete in the same collection: it succeeds, and replay refuses the log |
| Unread.FirstNamedTakesLowest | store.go:499-541 | The first replace or tombstone record of a collection applies to the lowest slot that stores its `_id` |
| Unread.TombstoneHitsRight | store.go:562-607 | When a delete is the first record to name a document of its collection, replay takes out the document that was deleted if and only if none before it stores the same `_id` |
| Unread.WrongDocument | index.go:423-433 | Two documents inserted under an `_id` that is stored changed, the second deleted: the collection keeps the first, and replay keeps the second |
| Accounting.EveryRunConserves | nosqlite.go:239-248 | In every state of every run, size is the header, the define records, the indexed records and the dead bytes, and total is the number of indexed documents |
| Accounting.EveryRunAudits | store.go:782-845 | In every state of every run, tracking `_id`s through the log gives the dead bytes, and per collection the documents and bytes, that tracking slots through the index gives, if and only if payloadID can read every document in the log |
| Accounting.ScanSeesEveryByte | store.go:782-845 | In any log, the bytes the tracking calls live, those it calls dead, those of the documents it passes over and those of the defines add up to the log |
| Accounting.EmptyAudits | store.go:782-845 | They agree for a new database |
| Audit.WalkFile | store.go:658-730 | A file without the magic is refused; else the loop over its bytes hands every framed record with a right checksum to the ledger, and fails where the file stops being framed |
| Audit.ScanLive | store.go:782-845 | The report is that ledger added up: dead bytes, and per collection documents and bytes |
| Audit.DamagedIsPassedOver | store.go:782-845 | A framed record that does not check out, anywhere among the records of a file, leaves the ledger what it would be without it |
| Audit.AuditAfterRun | store.go:782-845 | On the first size bytes of the file of any legal run from a new database, the report states the live database's own dead bytes, document counts and live bytes if and only if payloadID can read every document in the log |
| Scan.ScanStrided | scan.go:132-150 | One read per entry hands out the documents in index order until the callback stops it |
| Scan.ScanSequential | scan.go:75-120 | One pass over the file hands out the collection's insert payloads in file order until the index count is reached or the callback stops it, and never fails |
| Scan.ScansAgreeOnEveryRun | scan.go:52-67 | In every state of every run a snapshot reads the live documents, and unless the collection is dirty the file's insert records of that collection are the same documents in the same order |
| Scan.ScanRecords | scan.go:52-67 | Whichever shape the ratio chooses, the same documents are handed out |
| Find.VisitedMatches | collection.go:479-505 | The accepted positions counted off during a scan that stops at the limit are the first accepted index positions |
| Snapshots.Shared.AppendIndex | index.go:95-98 | The live slices gain an entry, in place or in larger copies, and every outstanding snapshot stays as it was |
| Snapshots.Shared.ReplaceIndex | index.go:119-129 | The live slices change in fresh arrays, and every outstanding snapshot stays as it was |
| Snapshots.Shared.RemoveIndex | index.go:148-182 | The survivors move to fresh arrays, and every outstanding snapshot stays as it was |
| Snapshots.Shared.TakeSnapshot | index.go:273-287 | A new reader shares the live arrays and is protected from then on |
| Snapshots.Run | index.go:78-182 | Every schedule of snapshots, reader turns, writes and index changes keeps every reader protected |
| Snapshots.StridedReaderSees | scan.go:132-150 | A strided scan that has ended handed out what its snapshot held when it was taken, and it ends within one turn more than there are entries |
| Snapshots.SequentialReaderSees | scan.go:75-120 | So did a sequential scan of a collection that was clean then, and it ends within one turn more than there are records |
| Order.CompareIsLower | internal/engine/compare.go:123-213 | compare computes the published order on every pair of values: kinds in their sequence with missing first, numbers by size, false before true, strings and arrays by the first difference and then length, objects by the lowest key at which they differ |
| Values.TotalOrder | internal/engine/compare.go:123-213 | compare is antisymmetric and transitive on all nested values and the absent sentinel, and zero exactly on the same value |
| Values.OrderedKeys | internal/engine/compare.go:220-227 | Sorting keys loses none, invents none, repeats none and leaves them ascending |
| Sorting.LessIsStrictTotal | internal/engine/sort.go:48-59 | For any mix of ascending and descending keys, entryLess is a strict total order on entries from different points of a scan |
| Sorting.LessIsInOrder | internal/engine/sort.go:48-59 | entryLess puts an entry ahead exactly when the first level that tells the two apart has the lower key, or the higher if descending, and by scan position when none does |
| Sorting.SortArranges | internal/engine/sort.go:63-69 | Sorting leaves the entries it was given, every two of them in that order |
| Sorting.SortedIsUnique | internal/engine/sort.go:63-69 | Given entries have only one sorted arrangement |
| Sorting.SortIsSorted | internal/engine/sort.go:63-69 | The arrangement SortEntries leaves is sorted |
| Sorting.TopK.Push | internal/engine/sort.go:100-102 | One more entry, no entry precedes a child of its, and the most ever held is kept count of |
| Sorting.TopK.Pop | internal/engine/sort.go:104-111 | The root comes out, and the rest is a heap again |
| Sorting.TopK.Add | internal/engine/sort.go:132-145 | If the heap held the first k of the sorted stream, it holds the first k of the sorted stream with the entry added; at no moment has it held more than k + 1 |
| Sorting.TopK.SortedEntries | internal/engine/sort.go:151-157 | What comes out is the first k of the sorted stream, every two in the order asked for |
| Sorting.FrontStep | internal/engine/sort.go:132-145 | How one more entry changes the first k of a sorted stream: it joins them, displaces the last, or changes nothing |
| Filters.SplitPath | internal/engine/compile.go:244 | The segments contain no dot and, joined with dots, give the field back |
| Meaning.PathSegments | internal/engine/compile.go:244 | A field without dots is one segment, and one with a dot goes on after it |
| Meaning.DottedReaches | internal/engine/match.go:275-304 | A dotted field reaches what the rest of it reaches in the object or array under its first segment, and nothing in anything else |
| Meaning.ArrayReaches | internal/engine/match.go:286-302 | Inside an array a segment reaches the element whose position it writes in decimal, with leading zeros or a sign allowed, and the value under it in every element that has it as a key, and nothing else |
| Meaning.PositionReaches | internal/engine/match.go:288-292 | A position written out reaches the element there, and nothing else unless an element has it as a key |
| Meaning.NothingThere | internal/engine/match.go:286-304 | A segment that names no position of the array and no key of its elements reaches nothing |
| Meaning.FieldCandidate | internal/engine/match.go:95-119 | An operator on a field without dots looks at the value there, or the sentinel, and at its elements if it is an array |
| Meaning.FirstByPosition | internal/engine/match.go:275-317 | Of the values along a path into an array, those of the element named by position come first |
| Meaning.FirstAlong | internal/engine/match.go:275-317 | With none such, those of the first element that has any under the key |
| Filters.CompiledFilterDecides | internal/engine/compile.go:38-234 | Compilation succeeds on exactly the well-formed filters, and the matcher it gives decides the meaning of the filter document, in which neither key order nor order of evaluation appears |
| Filters.Match | internal/engine/match.go:37-245 | The walk of a matcher, stopping early where it can, answers what the matcher decides |
| Filters.ReachedIsReaches | internal/engine/match.go:275-304 | The values collected are exactly those that lie at the path, a segment being a key, a position, or a key of any element |
| Filters.CollectPath | internal/engine/match.go:275-304 | Those values are appended, in order, to what was there |
| Filters.LookupPath | internal/engine/match.go:256-271 | The values at the path, or the one sentinel when there are none, by either route |
| Filters.LookupOne | internal/engine/match.go:314-317 | The first of them |
| Meaning.OrderFilters | internal/engine/match.go:124-147 | `$gt`, `$gte`, `$lt` and `$lte` pass a document exactly when a candidate of the argument's own kind lies on that side of it in the published order |
| Meaning.NumberFilters | internal/engine/match.go:124-147 | On a number in a field they, and `$eq`, compare by size |
| Meaning.EqFilter | internal/engine/match.go:124-127 | `$eq`, and a literal, pass exactly when the value itself is a candidate |
| Meaning.ExistsFilter | internal/engine/match.go:193-198 | `$exists` passes exactly when the path does or does not reach anything, as wanted; null is something |
| Meaning.RegexFilter | internal/engine/match.go:212-239 | `$regex` passes exactly when a candidate is a string the pattern matches |
| Meaning.EntriesAllPass | internal/engine/compile.go:47-74 | A filter compiles when each of its entries does and passes what each of them passes; the empty one passes everything |
| Meaning.OperatorsAllPass | internal/engine/compile.go:144-172 | So for the operators on one field |
| Meaning.AndOrPass | internal/engine/compile.go:78-140 | `$and` passes what all of its filters pass and `$or` what one does; neither compiles with none |
| Meaning.KnownOperators | internal/engine/compile.go:176-238 | Which operators there are and which arguments they take |
| Meaning.KnownEntries | internal/engine/compile.go:47-172 | Which entries there are: under a field operators do not mix with other keys, under a dollar only the three combinators are known |
| Filters.InIsAnyEq | internal/engine/match.go:157-185 | `$in` passes a document exactly when `$eq` with some value of its list does |
| Filters.GteIsGtOrEq | internal/engine/match.go:95-147 | `$gte` passes exactly when `$gt` or `$eq` does, and `$lte` when `$lt` or `$eq` does, with arrays traversed |
| Filters.NegatedOperators | internal/engine/match.go:95-185 | `$ne` and `$nin` are the exact complements of `$eq` and `$in` |
| Filters.NotIsComplement | internal/engine/compile.go:92-101 | Both forms of `$not` are exact complements |
| Projections.InsertionOrderIsIrrelevant | internal/engine/projection.go:62-80 | Whatever order a list of paths is inserted in, the leaves are exactly its prefix-minimal paths |
| Projections.Tree.Insert | internal/engine/projection.go:62-80 | In place: nothing new when a leaf covers the path, otherwise the path becomes a leaf and the leaves below it go; no leaf has children and every node leads to a leaf |
| Projections.CompileProjection | internal/engine/projection.go:87-161 | Succeeds exactly when every field has a yes or no and a valid path and no excluded path lies above or below an included one; the tree's leaves are then the minimal paths of the included ones and `_id`, or of the excluded ones |
| Projections.Tree.IncludeMap | internal/engine/projection.go:240-255 | Walking the tree against a document gives what including its paths means |
| Projections.Tree.ExcludeMap | internal/engine/projection.go:287-301 | Walking the document against the tree gives what excluding its paths means |
| Projections.ScalarsSplit | internal/engine/projection.go:238-325 | On array-free documents a scalar survives inclusion exactly when some path is a prefix of its own, and exclusion exactly when none is, with nothing added |
| Projections.ProjectionKeeps | internal/engine/projection.go:87-301 | From the projection document: with an inclusion a scalar stays exactly when it lies on or below an included path or `_id`, unless that is excluded; with none, exactly when on or below no excluded path |
| Projections.ProjectedTwice | internal/engine/projection.go:228-325 | Projecting what a projection left changes nothing, arrays and all |
| Kept.ExcludeAt | internal/engine/projection.go:287-325 | On every document, arrays and all: a place is there after exclusion, unmoved and with what it held, exactly when it was there and no path covers the keys walked to it; an element that is not a document is not entered |
| Kept.IncludeAt | internal/engine/projection.go:240-283 | A place stays under inclusion when a path covers the keys walked to it, or as an object or array on the way to a path's end through documents only; it is then found moved up past the elements dropped before it |
| Kept.IncludedFrom | internal/engine/projection.go:240-283 | Every place of the result is one that stayed |
| Kept.MovedOnce | internal/engine/projection.go:240-283 | No two places that stay move to the same |
| Kept.ExclusionKeeps | internal/engine/projection.go:87-325 | From a projection document that asks for nothing: a place of any document stays exactly when no declined field lies on the way to it |
| Kept.InclusionKeeps | internal/engine/projection.go:87-283 | From one that asks for a field: a scalar of any document on or below a field asked for, or `_id` unless declined, is there afterwards, moved up past dropped elements |
| Kept.InclusionKeepsOnly | internal/engine/projection.go:87-283 | And every scalar of the result is one of those |
| Kept.CompilesWhen | internal/engine/projection.go:87-222 | A projection document compiles exactly when every field is asked for or declined under a good name, and no field asked for lies above or below a declined one |
| Queries.RunUnsorted | scan.go:191-227 | Reads exactly the payloads a scan hands out until the page is full or one does not decode, and emits the matches from skip to skip + limit |
| Queries.RunSorted | scan.go:237-303 | With the heap or without, the page is the slice of all matches sorted; it fails exactly when some payload does not decode |
| Queries.UnsortedIsSortedByNothing | scan.go:186-190 | Scan order is the order of sorting by no key |
| Queries.RunQuery | scan.go:160-188 | Refuses exactly the queries with a negative bound, a sort key without a field name, a bad filter or a bad projection, and those that read a payload that does not decode; answers every other with its slice of all results |
| Queries.AnswerRows | scan.go:160-303 | What a query answers, end to end: rows that are exactly the documents the filter passes, each once, ordered by the first sort level that tells two apart, up or down, and then by scan order; and of these, projected, the limit's number from skip on |
| Queries.SortValueIs | scan.go:255-262 | A level sorts by a value its path finds, for a field without dots the value there |
| Queries.ShortPageReadsAll | scan.go:191-227 | A page that is not full means everything was read |
| Queries.IterFind | python/nosqlite/__init__.py:289-316 | The pages join up to all results after the skipped ones, each once and in order, for any filter, sort, skip and positive batch, and the loop ends; it raises exactly when the batch is not positive, the query is refused, an empty sort field included, or a payload does not decode |
| Handles.StepKeeps | capi/capi.go:85-108 | Every critical section keeps the protocol's invariant |
| Handles.RefsCountCallsInside | capi/capi.go:65-108 | In every state every interleaving reaches, refs is the number of calls inside, and no database was closed twice |
| Handles.OpenHandleLetsIn | capi/capi.go:85-98 | In every reachable state an acquire on a listed handle that is not closed gets in, whoever is inside, and changes nothing else |
| Handles.OpenUntilAsked | capi/capi.go:58-80 | A handle stays listed and open through any steps in which no call asks to close it |
| Handles.LeavingIsCounted | capi/capi.go:101-108 | In every reachable state a release takes exactly its call out and one off the count |
| Handles.CloseShutsTheDoor | capi/capi.go:218-241 | In every reachable state the first close marks the handle, and goes on at once exactly when nobody is inside |
| Handles.ClosedAloneAndOnce | capi/capi.go:233-246 | Whenever a database is about to be closed, no call is inside, it was not closed before and the registry no longer lists it |
| Handles.NobodyEntersAfterClose | capi/capi.go:85-98 | Once closed is set, no acquire gets in, however the run goes on |
| Handles.IdsAreNeverReused | capi/capi.go:208-212 | A new handle's id is one no handle had and none will have again |
| Handles.WaitingCloseCanFinish | capi/capi.go:101-108 | No wake-up is lost: a closed, empty handle whose database is open has one call closing it that is awake, and going on closes the database |
| Handles.EveryCloseCanFinish | capi/capi.go:101-108 | From any sound state in which a handle is closed and its database open, the calls inside leaving and the waiting close going on close the database |
| Handles.Registry.Acquire | capi/capi.go:85-98 | A handle is returned, with one reference more and the call inside, exactly when it is registered and not closed, whoever is inside; otherwise nothing changes |
| Handles.Registry.Release | capi/capi.go:101-108 | The call is out, the handle has one reference less, and at none left no close sleeps on |
| Handles.Registry.Close | capi/capi.go:218-242 | Up to its wait or unlock: an unknown handle is refused, a closed one left alone, an open one marked, and taken off the registry exactly when nobody is inside |
| Handles.Registry.Register | capi/capi.go:208-212 | A new handle without references is listed under an id never used before |

## Findings

What the code does where that is not what its comments or documents say, each with the lemma that shows it.

- **A define can be lost in memory and kept in the file.** `defineCollection` returns on a failed sync
  after its record was written and the append point moved (catalog.go:60-71). The collection is not
  registered and its id is used again; replay registers both. `Failures.LostDefineIsNotRebuilt`; after
  the next define the file does not open, `Rebuild.RedefineIsFatal`.
- **An accepted document can make the file unreadable.** `payloadID` decodes into a struct, which matches
  keys but for case (index.go:423-431), so `{"_ID": 5}` is accepted and its generated `_id` cannot be
  read. The file stops opening exactly when such a document replaces another, or shares its collection
  with a replace or a delete, before or after: `Rebuild.ReplayRebuildsEveryRun`, and one run for each
  order, `Unread.UnreadReplacement`, `Unread.UnreadThenDeleted`, `Unread.UnreadAfterDelete`. `ScanLive`
  passes over such a document: its report agrees exactly when there is none,
  `Accounting.EveryRunAudits`.
- **A delete can hit another document after reopening.** An `_id` that is not valid UTF-8 is stored
  changed, and the check for duplicates compares what was supplied, so the same one gets in twice.
  Deleting the second document writes a tombstone for the stored `_id`, and replay takes out the first.
  `Unread.WrongDocument`; it hits the right one exactly when none before it stores the same `_id`,
  `Unread.TombstoneHitsRight`.
- **A torn tail skips compaction.** The exits at store.go:335-405 return before store.go:482-484, so after
  a tombstone and a torn record, zero-length slots are published, where docs/records.md:233 says
  recovery leaves everything unchanged. `Failures.TornTailAfterDelete`, `Recovery.TornTailPublishes`.
  The file itself is sound, and the next open shows the right state: `Store.ReopenTwice`.
- **Residue can stop a file from opening.** A failed write may leave bytes past the append point
  (store.go:203-211). If another write over them is then cut short, the residue can complete what it
  declares with a wrong checksum short of the end of the file, and opening fails (store.go:393-401):
  after a shorter write cut past its header, `Failures.HeaderLanded`, but also after a longer one cut
  before its length has landed, `Failures.LongerWriteOverResidue`. `Failures.CrashAfterFailedWrite`
  has the condition for every cut. Under fast open an insert is not checked, and the mixture is
  published as a document: `Failures.FastOpenTakesResidue`.
- **Documentation.** docs/records.md:211-216 says a tombstone takes its `_id` out of the table; the entry
  stays and lookup skips it (store.go:562-607, index.go:451-478). docs/records.md:44-50 says an insert is
  indexed only after its fsync; the code indexes it before (collection.go:161-175).

## Left out

- Rebuild.ReplayRebuildsEveryRun: a legal run stores every document under the `_id` it is filed under, as far as that can be read, and generates fresh ones; what happens when the stored `_id` differs is the subject of `Unread.TombstoneHitsRight` and `Unread.WrongDocument`.
- Store.ReopenAfterRun: about the first size bytes of the run's file and part of one record behind them; for bytes an earlier failed write of the run left there, see `Failures.ResidueEnds`.
- Store.DB.Replay: promises nothing once a record's `_id` names several live documents of a collection whose table has grown since it was built, where the source takes whichever its table yields first; no log of a legal run has such a record.
- Store.DB.CollectionOrDefine: is the two lookups and the define in one call; another writer's turn between the read lock and the write lock is any other operation before it.
- Recovery.CrashDuringOperation: the file is assumed to end at the append point when the write begins; `Failures.CrashAfterFailedWrite` is about files that do not.
- Failures.CrashAfterFailedWrite: assumes that a garbled record that is all there is read, has zero flags and a wrong checksum; what happens otherwise is in `Failures.ResidueEnds`.
- Audit.AuditAfterRun: about the first size bytes of the file; on residue past them the pass reports an error.
- Audit.WalkFile: the format, flags and time it returns from the header are not modelled.
- Collections.Collection.ReplaceIndex: the columns are sequences there; that the source builds new slices, and that its other changes are in place, is modelled with arrays in `Snapshots`.
- Handles.Registry.Close: the waiting loop is cut at its waits into one step a round (`Recheck`), the sleepers being part of the protocol's state; errors of closing a database are not modelled.
- Projections.ScalarsSplit: is about array-free documents, as is `Projections.ProjectionKeeps`; for documents with arrays see `Kept.ExclusionKeeps`, `Kept.InclusionKeeps` and `Kept.InclusionKeepsOnly`.
- Contents.InsertPutsIn: is about collections whose documents `payloadID` can read; for others the check is as `Store.DB.HasID` says.
- Meaning.PositionReaches: positions from 2^63 on are not numerals, as on 64-bit integers.
- Queries.IterFind: raises or answers as a whole, while the generator yields the pages before a failing one; the default limit of `find` is not modelled.
- Working on a database reopened after a torn tail with marked slots published, before it is opened again: nothing is proved beyond the state itself.
- Calls on a closed database, failing reads and truncation errors: every such branch returns the error at once.
- Integer widths beyond collection ids, record lengths and index segments: positions, counts and skip + limit are unbounded.
- Numbers are reals, since JSON has no NaN; Go types a hand-written filter may contain beyond JSON's, and unrecognised values, do not occur.
- Error texts, and which of several errors in one filter or projection is reported.
- sort.SliceStable and container/heap are written out, the former as an insertion sort; regular expressions are an unknown predicate.
- Emitting a result always succeeds: a callback that stops a query with an error is not modelled.
- Collection handles shared between goroutines before the lock is taken, trace output, Close and Sync of the database, bindings other than the paging loop: plumbing.
