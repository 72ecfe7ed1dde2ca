# dansal: a verified model of the API server's stateful rules

dansal is an event calendar server. Organisers and feeds put events into one
table, visitors book tickets and leave notes on an event's board, and
administrators back everything up. This project models the parts of the server
that keep state under strict rules and proves what those rules promise.

* **Feed import and duplicates** (`EventTable`, `Titles`, `Dedup`, `EventImport`,
  `ImportOutcomes`, `ImportColumns`, `ImportIdempotence`, `ImportLaws`, `BatchImport`,
  `EntryRuns`, `DuplicateFlags`, `TableRuns`, `EventStore`). A five-tier search decides
  whether an entry is merged, flagged or inserted; an upsert follows; a batch runs in one
  transaction with a savepoint per entry; flagged pairs form a graph that is rechecked,
  cleared and cleaned up.
* **Locations** (`Locations`, `LocationLaws`, `LocationStore`): find-or-create for venues.
* **Geohashes** (`Geohash`, `GeohashText`, `GeohashCodec`), over the reals.
* **Bookings** (`Bookings`, `BookingAvailability`, `AvailabilityRuns`, `BookingEffects`, `BookingStore`):
  each handler split into its SELECT and its guarded write, in every interleaving; and
  the shown availability, both when handlers run one at a time and when the count and
  the store of their refreshes overlap.
* **Feed jobs** (`FetchJobs`, `FetchJobRegistry`): two maps kept in agreement while
  goroutines start, finish and are pruned.
* **Backup chains** (`BackupChains`, `BackupBases`, `BackupDirectory`): archives that store only a
  delta, the chains they form, what restoring one yields, and pruning.
* **Account limiter** (`RateLimit`), **board posts** (`BoardPosts`, `BoardLaws`, `ContactBoard`) and
  **iCalendar values** (`ICalText`, `ICalDuration`; RFC 5545 sections 3.3.11 and 3.3.6).

Tables are maps from id to row, times are integers, and each SQL statement is one
atomic step. Code that changes state is a class whose methods follow the source
statement by statement and are proved equal to a specification function; the laws
are lemmas about those functions. The laws whose names end in `Means` or `Exactly` say
in terms of columns and constants what an operation answers and leaves behind. Where a query can match several rows and has no
ORDER BY, the row with the lowest id is taken. Clocks, generated tokens and short
codes, and what a lock or a linked table does to a statement, are parameters.

`dafny verify dfyconfig.toml` checks the whole project.

## Where the code does less than it says

Each of these is a lemma: a concrete case, or the exact condition.

* Confirming a manual creation that matches by URL flags a pair that the collision
  rule may not recognise, because that rule ignores URLs; the next recheck drops
  both flags (`ImportLaws.ConfirmedUrlMatchCollidesExactly`,
  `ImportLaws.ConfirmedUrlMatchCanMiss`).
* Deleting events can leave a row flagged for review with no partner
  (`DuplicateFlags.DeleteStrandsExactly`, `DuplicateFlags.DeletingTwoPartnersStrands`),
  also because an import can flag a row between the clean-up and the DELETE
  (`DuplicateFlags.DeleteStatementStrandsExactly`,
  `DuplicateFlags.ImportDuringDeleteStrands`).
* A backup reads every image again after recording its checksum, and compares nothing.
  An image that becomes unreadable in between is recorded but not stored, and later
  archives that find it unchanged do not store it either; one that is replaced in
  between is restored as something the manifest does not record, with nothing reported
  (`BackupChains.UnreadableImagesAreLostExactly`, `BackupChains.LossIsInherited`,
  `BackupChains.UnreadableImageIsLost`, `BackupChains.ReplacedImageIsRestored`).
* An approval while a second scan is in flight lets one booking in twice; nothing else
  does (`Bookings.SecondAdmission`, `Bookings.LateScanIsAdmittedExactly`,
  `Bookings.ReapprovalCanAdmitTwice`).
* Overlapping handlers, an edit of the event, the retention sweep, and a verification
  that finds its link expired while an organiser approves the booking can leave a stale
  availability (`AvailabilityRuns.QuietIsCorrectExactly`,
  `AvailabilityRuns.OverlappingHandlersGoStale`, `AvailabilityRuns.EditGoesStale`,
  `AvailabilityRuns.ExpiredLinkGoesStale`, `BookingAvailability.SweepKeepsCorrectExactly`,
  `BookingAvailability.SweepCanGoStale`).
* A feed's coordinates replace a venue's without touching its stored geohash
  (`Locations.GeohashFitsExactly`, `Locations.MovedVenueKeepsGeohash`).
* A limit below one still grants one request per window
  (`RateLimit.NonPositiveLimitActsAsOne`).
* One Telegram handle can hold more board posts of a category than the cap: a request
  with an email address or an account is held against those only, and one with neither
  only against posts without an address (`BoardPosts.HandleIsAcceptedExactly`,
  `BoardPosts.HandleCanBeUsedTwice`).
* A ride, sleep or ticket post can outlive its event by weeks: PUT and PATCH change the
  kind of a lost-and-found post and keep its thirty days
  (`BoardPosts.OutlivesEventExactly`, `BoardPosts.RetypedRideOutlivesEvent`).
* A duration beyond some 292 years wraps around
  (`ICalDuration.StandardDurationIsParsed`).
* The duration parser accepts more than the standard writes, for instance `P` alone;
  `ICalDuration.ParseIsTheGrammar` says exactly what it accepts.

## Model

| member | source | states |
|---|---|---|
| Titles.OverlapLaws | cmd/dansal/events.go:1124-1130 | the fuzzy title rule does not depend on which title comes first, never fires for an empty title, and fires for any two long titles that differ only in case and surrounding space |
| Titles.CaseIsAllThatIsLost | cmd/dansal/events.go:1124-1130 | two titles have one lower-case form if and only if they differ in nothing but the case of letters |
| Titles.NormalizeMeans | cmd/dansal/events.go:1124-1130 | surrounding white space, of any length on either side, is all a title loses besides case |
| Titles.OverlapMeans | cmd/dansal/events.go:1124-1130 | two titles without white space around them overlap if and only if both have eight characters or more and one of them, up to case, is a part of the other |
| Dedup.FoundMeans | cmd/dansal/dedup.go:77-174 | what a hit of each tier guarantees about the returned row: it exists, carries the uid, URL, venue, title or feed the tier looks for, and below the uid tier starts within three hours of the entry |
| Dedup.TierMeans | cmd/dansal/dedup.go:77-174 | which tier answers, on every table: the first of uid, URL, venue, title and similar title of the same feed that any row within three hours answers, the uid alone being searched at any time |
| Dedup.RowMeans | cmd/dansal/dedup.go:77-174 | which row it returns: one that answers that tier, and the lowest id of those everywhere but at a venue |
| Dedup.VenueHitMeans | cmd/dansal/dedup.go:126-131 | a venue hit is taken for the same event if and only if a feed asks and the row comes from that feed or has the same or an overlapping title; any other venue hit is a review hint |
| EventStoreModule.EventStore.FindExistingEvent | cmd/dansal/dedup.go:77-174 | the tier-by-tier search with early returns computes the specified search |
| EventStoreModule.EventStore.FirstFuzzy | cmd/dansal/dedup.go:153-171 | reading the feed's rows one by one finds the first row whose title overlaps, and nothing exactly when there is none |
| ImportLaws.NoHitMeansNoCollision | cmd/dansal/dedup.go:80-173 | when no tier fires, the row an insert writes collides with no row of the table: the search misses nothing the collision rule would report |
| ImportLaws.ReviewHintCollides | cmd/dansal/duplicates.go:49-68 | whenever the search returns a review tier and the entry is inserted, both rows are flagged against each other, collide in both directions, and a recheck of either changes nothing |
| ImportLaws.ConfirmedUrlMatchCollidesExactly | cmd/dansal/events.go:1309-1318 | a confirmed URL match collides if and only if the two rows share a venue or a non-empty title; otherwise the next recheck drops both flags |
| ImportLaws.ConfirmedUrlMatchCanMiss | cmd/dansal/events.go:1309-1318 | confirming a URL match whose title and venue differ flags a pair that does not collide, and a recheck drops both flags |
| EventImport.FreeCodeIsFree | cmd/dansal/events.go:1478-1504 | the code an insert ends up with is the first of the five drawn that no row uses; there is none exactly when all five are taken |
| EventImport.FailedInsertChangesNothing | cmd/dansal/events.go:1498-1504 | a failed insert leaves the table as it was |
| EventImport.InsertedAddsOneRow | cmd/dansal/events.go:1463-1513 | an insert adds exactly one row under a fresh id and code and touches at most the flag of the review candidate |
| EventImport.StoreTouchesRow | cmd/dansal/events.go:1274-1514 | one call changes a row that was there only if it is the row decided on and the write succeeds; any other row keeps all but its flag |
| EventStoreModule.EventStore.InsertRow | cmd/dansal/events.go:1478-1504 | the retry loop takes the first free code, or inserts nothing |
| EventStoreModule.EventStore.InsertEventCore | cmd/dansal/events.go:1274-1514 | the upsert without the SEQUENCE write; refused, failed and unchanged outcomes leave the table as it was |
| EventStoreModule.EventStore.UpdateExisting | cmd/dansal/events.go:1361-1460 | the skip, merge and overwrite branches, in the source's order |
| EventStoreModule.EventStore.InsertEvent | cmd/dansal/events.go:1266-1272 | one whole upsert: the new table and the reported outcome are those the laws below speak about |
| ImportOutcomes.RefusedExactly | cmd/dansal/events.go:1309-1318 | an entry is turned away, with nothing written, if and only if it comes from no feed, is not confirmed and matches by URL |
| ImportOutcomes.InsertedExactly | cmd/dansal/events.go:1320-1513 | an entry without a match, with a review hint or with a confirmed URL match becomes a new row, unless its difficulty is not allowed or all five codes are taken, and then nothing is written |
| ImportOutcomes.MatchedExactly | cmd/dansal/events.go:1361-1460 | a matched row stays as it was if and only if the entry is no newer than the stored timestamp, repeats the stored sequence number, or is no newer than an edit that an import meets; otherwise it is updated, or the call fails because of the difficulty it would store |
| ImportOutcomes.NewerEntryIsStored | cmd/dansal/events.go:1361-1438 | no news is dropped: an entry of a feed that is newer than the row it matches and than its last edit is reported as an update, and its start, end, cancellation and timestamp are in the row |
| ImportColumns.NewRowCarriesEntry | cmd/dansal/events.go:1463-1513 | every column of a new row is the entry's, with what is not given stored as NULL, under the next id and the first drawn code no row uses; it is flagged, and the row the search returned with it, exactly when there is such a row, and no other row changes |
| ImportIdempotence.SearchReturnsWritten | cmd/dansal/dedup.go:77-174 | the search that led to a row, repeated after the row was written, returns that row as a match, whichever tier answers |
| ImportIdempotence.ImportIsIdempotent | cmd/dansal/events.go:1266-1514 | importing a feed entry twice returns the same row, reports it as unchanged and leaves the table as the first import left it, on every path |
| ImportLaws.StoreKeepsConsistent | cmd/dansal/events.go:1274-1514 | no import breaks the uniqueness of uids and short codes, the bound on ids or the soundness of duplicate references, and no row disappears |
| ImportLaws.StoreEvolvesRow | cmd/dansal/events.go:1361-1438 | an edited row is updated only by a source newer than both the edit and the stored timestamp, keeps its curated columns, booking URL, uid and organisation, and any other row keeps all but its flag |
| ImportLaws.RescheduleNeedsUid | cmd/dansal/events.go:510-525 | a previous start time is recorded only on a uid match, for a published row that is not cancelled, at three hours or more |
| ImportColumns.RescheduleIsRecorded | cmd/dansal/events.go:1381-1387 | every update that moves a published row that is not cancelled by three hours or more records its previous start |
| ImportColumns.UpdateAgreesWithInsert | cmd/dansal/events.go:1361-1460 | every column of an updated row, measured against any row that carries the entry: a row that an import finds edited takes, column by column, what the entry gives and keeps the rest; any other mirrors the insert except for its title, and only an import claims it for its feed; a published row that moves by three hours remembers where it stood, and no other row changes |
| ImportColumns.OwnFeedFirstThenClosest | cmd/dansal/dedup.go:113-123 | the row a venue hit returns: one of the entry's own feed whenever there is one near, then the closest start, then the lowest id |
| ImportLaws.RunProtectsEdits | cmd/dansal/events.go:1361-1438 | over any run of feed imports an edited row is protected as above, and the number of its updates is bounded by the growth of its source timestamp |
| DuplicateFlags.CollideMeans | cmd/dansal/duplicates.go:49-68 | the collision rule in one sentence, in both directions, and its symmetry down to the list of reasons |
| DuplicateFlags.ReasonsMean | cmd/dansal/duplicates.go:49-68 | what each reason stands for, in terms of the two rows: near in time, same venue, same title that is not empty, similar title of one feed when the titles differ; time first, then venue, then title |
| DuplicateFlags.CheckMeans | cmd/dansal/duplicates.go:88-110 | the partner a check shows is the one the row names, if it exists, and whether and why the two collide is said of that partner only |
| DuplicateFlags.CheckListsCollisions | cmd/dansal/duplicates.go:88-133 | at most twenty other conflicts are listed, all of which collide with the row and none of which is its partner; none is missed unless more than twenty rows near in time share its venue, title or feed |
| DuplicateFlags.FlagPairLinksBoth | cmd/dansal/events.go:1135-1143 | flagging links two rows to each other, changes no other row and keeps the flag graph sound |
| DuplicateFlags.ClearPairKeepsFlagsSound | cmd/dansal/duplicates.go:138-142 | clearing a pair keeps every duplicate reference on a flagged row and pointing at another existing row |
| DuplicateFlags.RecheckSettles | cmd/dansal/duplicates.go:147-153 | after a recheck a row is flagged exactly when it was and its partner exists and still collides; rechecking again changes nothing, and no row but the mutual partner is touched |
| DuplicateFlags.RecheckOfLinkedPair | cmd/dansal/duplicates.go:138-153 | for a mutually flagged pair a recheck changes nothing while they collide and drops both flags otherwise |
| DuplicateFlags.DeleteSettles | cmd/dansal/events.go:3290-3323 | after a delete, a row that pointed at the deleted one is flagged exactly when another flagged row still points at it; its reference is gone and all other rows are untouched |
| DuplicateFlags.DeleteStrandsExactly | cmd/dansal/events.go:3290-3323 | when nothing writes between its two statements, a delete strands a flagged row if and only if that row had no reference of its own and only the deleted row pointed at it |
| DuplicateFlags.DeleteStatementStrandsExactly | cmd/dansal/events.go:3297-3313 | whatever was written since the clean-up, the DELETE strands a row if and only if it is flagged, names the deleted row or none, and only the deleted row points at it |
| DuplicateFlags.ImportDuringDeleteStrands | cmd/dansal/events.go:3297-3313 | a run in which a row flagged between the two statements is stranded |
| DuplicateFlags.DeletingTwoPartnersStrands | cmd/dansal/events.go:3290-3323 | flagging 2 and then 3 against 1 and deleting 3 and then 2 leaves row 1 flagged with nothing to compare |
| EventStoreModule.EventStore.FlagDuplicateReview | cmd/dansal/events.go:1135-1143 | the two UPDATEs write the specified pair of flags |
| EventStoreModule.EventStore.OtherConflicts | cmd/dansal/duplicates.go:104-132 | the row loop keeps, in order, the rows that collide with the checked one |
| EventStoreModule.EventStore.CheckDuplicates | cmd/dansal/duplicates.go:88-133 | the check reports the partner, the reasons and the other conflicts of an existing row, and nothing for a missing one |
| EventStoreModule.EventStore.ClearDuplicatePair | cmd/dansal/duplicates.go:138-142 | clears the row, and its partner only while that one names the row |
| EventStoreModule.EventStore.RecheckDuplicatePair | cmd/dansal/duplicates.go:147-153 | acts on the check's answer alone: nothing for a missing, unflagged or colliding row, otherwise the pair is cleared |
| EventStoreModule.EventStore.HardDeleteEvent | cmd/dansal/events.go:3290-3323 | clears, deletes and lets the foreign key drop references, and reports whether a row was deleted |
| TableRuns.ApplyKeepsConsistent | cmd/dansal/duplicates.go:138-224 | an import, an edit with its recheck, an administrator's decision and either statement of a delete keep the table consistent |
| TableRuns.HistoryKeepsConsistent | cmd/dansal/events.go:1266-1514 | in every history of those operations a duplicate reference sits on a flagged row and names another existing row, uids and codes stay unique, and ids are never reused |
| TableRuns.DecisionSettles | cmd/dansal/duplicates.go:178-224 | accepting a pair unflags the row and the partner that names it, whatever they look like; "resolved" does the same unless the row still collides with an existing partner, and then nothing |
| TableRuns.EditSettles | cmd/dansal/duplicates.go:145-153 | after an edit and its recheck the row has the new title, time and venue and is flagged if and only if it was and, as it is now, still collides with its partner; only a partner that names it changes with it |
| BatchImport.CreateTallies | cmd/dansal/events.go:1534-1641 | an entry that succeeds returns one event for each of its dates and counts each of them once, none as failed |
| EntryRuns.DatesAreStoredInOrder | cmd/dansal/events.go:1554-1640 | an entry's dates are stored one after the other, each in the table the one before left, with that date's start, end and description; the loop ends at the first date that does not parse, is not stored or fails on a linked table, and leaves what was stored |
| EntryRuns.StoredDateIsHeld | cmd/dansal/events.go:1565-1570 | the row a date was stored in begins and ends with that date, and has its description wherever the date gives one |
| EntryRuns.EntryIsStoredDateByDate | cmd/dansal/events.go:1534-1641 | an entry that lists dates is stored once for each, in order, and one that lists none once for its own date; it returns the events stored in that order and counts each under what its store reported; if any date goes wrong, it counts as failed and the table is as before |
| BatchImport.BatchIsFoldOfSuccesses | cmd/dansal/fetchurl.go:1137-1305 | importing a batch gives the same table, events and counts as importing only its successful entries in order, apart from the number of failures |
| BatchImport.FailureCountIsInert | cmd/dansal/fetchurl.go:1107-1128 | failed entries influence no later entry |
| BatchImport.BatchCountsAddUp | cmd/dansal/events.go:1170-1187 | new, updated and unchanged together count the returned events, failed counts the failing entries, and the table stays consistent |
| BatchImport.RetryCommitsAtMostOnce | cmd/dansal/fetchurl.go:1227-1256 | at most four attempts and at most one commit, each attempt after a busy one nobody gave up on; it commits exactly when some attempt commits after nothing but such, and otherwise leaves the table untouched |
| EventStoreModule.EventStore.CreateEventFromRequest | cmd/dansal/events.go:1534-1641 | the loop over the dates stores them in order and stops at the first error, leaving the earlier writes to the savepoint |
| EventStoreModule.EventStore.ImportEntriesTx | cmd/dansal/fetchurl.go:1269-1305 | one attempt: the whole batch when it commits, the table as it was when it does not |
| EventStoreModule.EventStore.ImportEntriesAfterCommit | cmd/dansal/fetchurl.go:1227-1256 | the retry loop ends with the specified table and report, and the table is consistent |
| Locations.EnsureIsIdempotent | cmd/dansal/fetchurl.go:287-371 | repeating a call that did not fail returns the same id and leaves the table unchanged, along the OSM, name, composite, alias and insert paths |
| Locations.LookupsAfterUpdate | cmd/dansal/fetchurl.go:331-354 | filling in a row changes no name lookup, and gives the OSM identity to that row only when it had none |
| Locations.EnsureOverwritesNoText | cmd/dansal/fetchurl.go:331-356 | no name, parent, web site, geohash, known OSM identity or non-empty text is ever overwritten, and no row but the returned one changes |
| Locations.EnsureKeepsConsistent | cmd/dansal/fetchurl.go:331-370 | the UPDATEs whose errors are ignored never violate a unique index, and neither does a successful insert |
| Locations.GeohashFitsExactly | cmd/dansal/fetchurl.go:331-361 | a row whose geohash fits its coordinates goes on fitting if and only if the call gives none or ones in the same cell |
| Locations.MovedVenueKeepsGeohash | cmd/dansal/fetchurl.go:331-361 | a venue that a feed creates and later places more than a degree of latitude to the south keeps the geohash of its old place |
| LocationLaws.LookupMeans | cmd/dansal/fetchurl.go:302-327 | which venue a call returns: the lowest id with the given OSM identity, else with the name, else with the name and address as another export writes them, else with that alias; a new one only when there is none of these |
| LocationLaws.FoundVenueMeans | cmd/dansal/fetchurl.go:329-356 | what a call does to the venue it found, column by column: given coordinates replace the stored ones, texts are filled in where there is none, a venue without an OSM identity takes the given one, and nothing else changes |
| LocationLaws.NewVenueMeans | cmd/dansal/fetchurl.go:357-371 | a venue no lookup finds is inserted as the feed describes it, with the geohash of its coordinates, unless another venue has its OSM identity or, without a parent, its geohash; then nothing happens |
| LocationStoreModule.LocationStore.FirstRow | cmd/dansal/fetchurl.go:306-327 | a single-row query returns the lowest matching id, and none exactly when nothing matches |
| LocationStoreModule.LocationStore.UpdateRow | cmd/dansal/fetchurl.go:331-354 | the three conditional UPDATEs together make the specified row |
| LocationStoreModule.LocationStore.EnsureLocation | cmd/dansal/fetchurl.go:287-371 | the cascade of lookups, updates and the insert computes the specified table and reply |
| Geohash.CellIsItsCode | cmd/dansal/geohash.go:8-82 | a cell owns exactly the points that encode to it, for every point of the plane and every length: the bounds of decoding and the choices of encoding agree |
| Geohash.EncodePrefix | cmd/dansal/geohash.go:8-49 | a longer encoding of a point begins with every shorter one |
| Geohash.LongerIsSmaller | cmd/dansal/geohash.go:52-82 | the box of a prefix encloses the box of the whole |
| Geohash.BoxSize | cmd/dansal/geohash.go:52-82 | n halvings leave a height of 180/2^floor(n/2) and a width of 360/2^ceil(n/2) |
| Geohash.CornerIsItsDigits | cmd/dansal/geohash.go:52-82 | the choices are the binary digits of the south-western corner, longitude and latitude by turns, an upper half being a one |
| Geohash.CornerIsOwned | cmd/dansal/geohash.go:18-35 | a point on the edge of two cells belongs to the northern and the eastern one: the south-western corner of a cell is encoded as the cell |
| GeohashText.LettersAreTheAlphabet | cmd/dansal/geohash.go:5 | the letters computed from an index are the source's 32 characters in order |
| GeohashText.FiveBitsAreAnIndex | cmd/dansal/geohash.go:37-42 | the number five choices accumulate is below 32 and has those choices as its bits |
| GeohashText.ValueOfFive | cmd/dansal/geohash.go:37-42 | the first of the five bits of a character weighs sixteen, the last one |
| GeohashText.KnownMeans | cmd/dansal/geohash.go:56-60 | a character is read as the letter with its lowest byte, and as none exactly when no letter has it |
| GeohashText.IndexIsItsFiveBits | cmd/dansal/geohash.go:60-61 | the five bits read back from an index spell that index |
| GeohashText.TextOfBits | cmd/dansal/geohash.go:52-91 | reading characters and writing the bits again gives the letter each character is read as |
| GeohashText.BitsOfText | cmd/dansal/geohash.go:8-91 | writing bits as characters and reading them again gives the bits |
| GeohashText.CanonicalIffAlphabet | cmd/dansal/geohash.go:57-91 | a hash is read as itself if and only if it is written in the alphabet (the reader looks at the low byte of a character) |
| GeohashCodec.GeohashEncode | cmd/dansal/geohash.go:8-49 | the loop over the char buffer produces the specified text for every point and precision |
| GeohashCodec.IndexInBase32 | cmd/dansal/geohash.go:84-91 | returns the rank of a letter, and -1 exactly for bytes outside the alphabet |
| GeohashCodec.GeohashBBox | cmd/dansal/geohash.go:52-82 | returns the box of the characters before the first one outside the alphabet |
| GeohashCodec.GeohashDecode | cmd/dansal/geohash.go:94-97 | returns the centre of that box |
| GeohashCodec.EncodeOfDecode | cmd/dansal/geohash.go:8-97 | for every string, encoding the decoded centre at the length that was read gives back what was read |
| GeohashCodec.RoundTrip | cmd/dansal/geohash.go:8-97 | encode(decode(h), length of h) = h if and only if every character of h is in the alphabet |
| GeohashCodec.DecodeIsInjective | cmd/dansal/geohash.go:94-97 | different hashes of one length decode to different points |
| GeohashCodec.EncodedBoxContains | cmd/dansal/geohash.go:8-82 | the box of encode(p, n) owns p, contains it if p is on the globe, and is 180/2^floor(5n/2) high and 360/2^ceil(5n/2) wide |
| GeohashCodec.ShorterIsPrefix | cmd/dansal/geohash.go:8-82 | a shorter precision gives a prefix and an enclosing box |
| GeohashCodec.OneCellPerPoint | cmd/dansal/geohash.go:8-82 | the boxes of one length tile the plane: a point is owned by the box of its own geohash and by no other |
| GeohashCodec.CornerEncodesToItsHash | cmd/dansal/geohash.go:8-82 | the south-western corner of a hash's box is encoded as that hash |
| GeohashCodec.DistinctBoxesAreDisjoint | cmd/dansal/geohash.go:52-82 | boxes of different hashes of one length share no interior point |
| GeohashCodec.FarPointsDiffer | cmd/dansal/geohash.go:8-49 | points of the globe more than a degree of latitude apart have different geohashes from the fourth character on |
| Bookings.StoredTicketsExpire | cmd/dansal/bookings.go:85-136 | for the integer times every stored event has, the check-in window is exactly from the opening margin before the start to the closing margin, or six hours, after the end |
| Bookings.TicketsExpireExactlyWhenScheduled | cmd/dansal/bookings.go:85-110 | the calculation on text that does not parse, which no stored event has: some instant bounds every scan if and only if there is an end, or a start and an enabled closing margin |
| Bookings.NextKeepsInv | cmd/dansal/bookings.go:341-580 | the invariant behind the theorems below holds after every statement of every request |
| Bookings.OneTokenPerBooking | cmd/dansal/bookings.go:359-402 | in every interleaving a booking is given at most one QR token in its life |
| Bookings.HandedOutTokenIsStored | cmd/dansal/bookings.go:376-402 | the token a verification hands out is the one its own UPDATE stored, and the only one the booking ever shows afterwards |
| Bookings.TokenMeansVerified | cmd/dansal/bookings.go:389-402 | a booking with a QR token has no verification token left and is confirmed, approved or cancelled |
| Bookings.SecondAdmission | cmd/dansal/bookings.go:481-556 | between two admissions of a booking an organiser wrote "approved", and the second scan had read the booking before the first was admitted |
| Bookings.LateScanIsAdmittedExactly | cmd/dansal/bookings.go:526-556 | after an admission, a scan of the booking still in flight is admitted if and only if the row exists and the newest write about it is an organiser's "approved" |
| Bookings.WithoutApprovalAdmittedOnce | cmd/dansal/bookings.go:526-556 | without such a write, any number of concurrent scans admits a booking at most once |
| Bookings.ReapprovalCanAdmitTwice | cmd/dansal/bookings.go:446-556 | a run that does admit a booking twice |
| BookingAvailability.HandleKeepsCorrect | cmd/dansal/bookings.go:35-55 | each handler keeps the shown availability of every event with a capacity equal to the classification of its approved and checked-in bookings |
| BookingAvailability.RunsKeepAvailabilityCorrect | cmd/dansal/bookings.go:422-580 | and so does every run of handlers |
| BookingAvailability.ClassifyMeans | cmd/dansal/bookings.go:46-52 | sold out iff count >= total, limited iff count < total <= 2*count, free otherwise |
| BookingAvailability.SweepKeepsCorrectExactly | cmd/dansal/main.go:362-366 | the retention sweep keeps an event's availability correct if and only if losing its expired ticket holders does not change the class |
| BookingAvailability.SweepCanGoStale | cmd/dansal/main.go:362-366 | the expiry of the only ticket holder leaves a sold-out event shown as sold out |
| AvailabilityRuns.ShownExactlyAsLastWritten | cmd/dansal/bookings.go:35-55 | at every moment of every interleaving, sweeps and edits of the event included, the availability is right if and only if what was written last, the class at the count of that refresh or the edited value, is the class now |
| AvailabilityRuns.QuietIsCorrectExactly | cmd/dansal/bookings.go:35-55 | once no handler of an event is between its write and its store, and nothing was removed without a refresh since the last store, the availability is right if and only if what was written last was the class at that moment: for a refresh, if the writes between its count and its store left the class where it was |
| AvailabilityRuns.UnmovedClassIsCorrect | cmd/dansal/bookings.go:35-55 | in particular it is right when no write in between moved the class |
| AvailabilityRuns.OverlappingHandlersGoStale | cmd/dansal/bookings.go:446-456 | a run after which all handlers are done and an event without takers is shown as sold out |
| AvailabilityRuns.CancellingMovesStayCorrect | cmd/dansal/bookings.go:446-456 | a run in which writes between a count and its store move the class there and back, and the availability ends right |
| AvailabilityRuns.ExpiredLinkGoesStale | cmd/dansal/bookings.go:368-373 | a run in which a verification with an expired link deletes a booking approved in the meantime and refreshes nothing |
| AvailabilityRuns.EditGoesStale | cmd/dansal/events.go:3086-3098 | a run in which an edit writes back an availability from before an approval |
| AvailabilityRuns.WriteIsFollowedByRefresh | cmd/dansal/bookings.go:446-580 | a refresh is due exactly after an organiser writes or deletes an existing booking or a scan admits one, and for that booking's event |
| AvailabilityRuns.RefreshMeans | cmd/dansal/bookings.go:35-55 | a refresh counts the approved and checked-in bookings of that moment and later stores the class of that count, whatever they are by then |
| BookingStoreModule.BookingStore.UpdateEventAvailability | cmd/dansal/bookings.go:35-55 | counts and stores, and does nothing for an event without a capacity |
| BookingStoreModule.BookingStore.CreateBooking | cmd/dansal/bookings.go:237-312 | refuses an unknown event and one that takes no bookings, and otherwise adds one pending booking under a new id |
| BookingStoreModule.BookingStore.VerifyBooking | cmd/dansal/bookings.go:359-402 | not found exactly when no pending booking has the token; otherwise that booking is deleted if the link expired and confirmed unless the generated token is taken |
| BookingStoreModule.BookingStore.UpdateBookingStatus | cmd/dansal/bookings.go:422-456 | writes the status and refreshes the availability of the booking's event |
| BookingStoreModule.BookingStore.CheckinBooking | cmd/dansal/bookings.go:481-556 | admits exactly a live ticket inside its window, and any other scan changes nothing |
| BookingStoreModule.BookingStore.DeleteBooking | cmd/dansal/bookings.go:563-580 | the booking is gone, every other one and the last id are as they were, and the availability of its event is refreshed |
| BookingStoreModule.VerifyIsTwoStatements | cmd/dansal/bookings.go:359-402 | the whole handler does to the rows what its SELECT and its write do when nothing comes between them |
| BookingStoreModule.ScanIsTwoStatements | cmd/dansal/bookings.go:481-556 | and so does a check-in |
| BookingEffects.HandlerMeans | cmd/dansal/bookings.go:304-580 | what each handler leaves of its booking, column by column: a created one is pending, a verified one confirmed with its QR token or gone when its date has passed, a patched one approved or cancelled, a scanned one checked in without a token, a deleted one gone; no other booking and no other event's availability changes |
| BookingEffects.OneStatementHandlers | cmd/dansal/bookings.go:422-580 | the handlers that create, patch and delete leave the bookings that their one statement leaves in the interleaving model |
| BookingEffects.SelectMeans | cmd/dansal/bookings.go:359-556 | a SELECT changes no booking and lets its request go on if and only if a pending booking has the link's token, or a live ticket with that QR token is scanned inside its window |
| BookingEffects.WriteMeans | cmd/dansal/bookings.go:359-556 | a write acts on the booking as it is by then: an expiry deletes it, a verification confirms it only while it is pending and the QR token is free, a scan admits it only while it is approved or confirmed |
| BookingEffects.SweepMeans | cmd/dansal/main.go:362-366 | the sweep removes exactly the bookings whose date has passed |
| BookingEffects.HistoryIsTrue | cmd/dansal/bookings.go:341-580 | the history the interleaving theorems speak about records an admission exactly when a booking becomes checked in, a token exactly when a booking gets it, and an approval or cancellation exactly when an organiser writes one |
| BookingEffects.RunsShowTheClass | cmd/dansal/bookings.go:35-55 | after every run of handlers an event with a capacity is shown as sold out, limited or free according to the number of its approved and checked-in bookings |
| FetchJobs.NextKeepsInv | cmd/dansal/fetch_jobs.go:69-156 | every start, get, prune and finish keeps the running map, the jobs in state running and the live goroutines in one-to-one agreement |
| FetchJobs.PruningFits | cmd/dansal/fetch_jobs.go:103-109 | pruning never drops a running job |
| FetchJobs.JobsAreFound | cmd/dansal/fetch_jobs.go:75-144 | in every run the unchecked lookups of start and execute find a running job of the right source |
| FetchJobs.RunsNeverOverlap | cmd/dansal/fetch_jobs.go:69-156 | of two runs of one source the earlier is done before the later begins |
| FetchJobs.JobsEndOnce | cmd/dansal/fetch_jobs.go:78-153 | no job id is used twice and no job leaves the running state twice |
| FetchJobs.FinishedJobIsKeptForRetention | cmd/dansal/fetch_jobs.go:87-109 | a finished job stays as it is until the first request more than ten minutes after its end, and is gone for good from then on |
| FetchJobs.StepMeans | cmd/dansal/fetch_jobs.go:69-156 | what one step does to a job: a start adds a running one for its source and caller under the next id exactly when the source has none; a finish ends it as its import ended, with a result only on success and a code only for robots.txt; any other stays as it is or disappears more than ten minutes after its end |
| FetchJobRegistryModule.FetchJob.Finish | cmd/dansal/fetch_jobs.go:144-152 | writes the outcome into the shared job object |
| FetchJobRegistryModule.FetchJobRegistry.PruneLocked | cmd/dansal/fetch_jobs.go:103-109 | keeps exactly the unexpired job objects, unchanged |
| FetchJobRegistryModule.FetchJobRegistry.Start | cmd/dansal/fetch_jobs.go:69-84 | returns the source's running job, new if and only if there was none; every other job object survives as it was |
| FetchJobRegistryModule.FetchJobRegistry.Get | cmd/dansal/fetch_jobs.go:87-100 | a copy of the job, or nothing when it is unknown or expired |
| FetchJobRegistryModule.FetchJobRegistry.CallerOf | cmd/dansal/fetch_jobs.go:122-124 | the first lookup of a run reads the caller recorded for its job |
| FetchJobRegistryModule.FetchJobRegistry.Finish | cmd/dansal/fetch_jobs.go:142-155 | ends the job and frees its source |
| BackupChains.ChainResolves | internal/backuparchive/chain.go:101-124 | walking the bases of an archive ends at a full backup of its chain after as many steps as its sequence number, so it resolves exactly up to the hop limit |
| BackupChains.ExtractionMatchesManifest | cmd/dansal/restore_chain.go:62-110 | extracting a chain whose archives hold everything they record, with the recorded content, yields on the paths the last manifest lists exactly what it records |
| BackupChains.RestoreRebuilds | cmd/dansal/restore_chain.go:46-206 | restoring such a chain over any live images yields exactly the images recorded when its last archive was written |
| BackupChains.UnreadableImagesAreLostExactly | cmd/dansal/backup_modes.go:158-205 | every chain, full backups and chains that lost images before included, restores exactly if and only if it starts with a full backup and, for every recorded image, the newest archive that stores the image stores the recorded content |
| BackupChains.UnreadableImageIsLost | cmd/dansal/backup_modes.go:158-205 | a run of a full and an incremental backup after which an image that was unreadable only once is restored from neither |
| BackupChains.ReplacedImageIsRestored | internal/backuparchive/write.go:59-79 | a run in which an image is replaced after its checksum was recorded: the archive reports nothing and restores the new content |
| BackupChains.LossIsInherited | cmd/dansal/backup_modes.go:199-205 | an image the manifests agree on is restored from the later archive exactly as from the earlier one, wrong or missing ones included |
| BackupChains.PruneKeepsWholeChains | cmd/dansal/backup_modes.go:497-529 | pruning leaves whole chains: survivors are unchanged and still linked to their bases, and the archive just written is among them |
| BackupChains.PruneKeepsNewestChains | cmd/dansal/backup_modes.go:497-529 | if an archive is deleted, each of the newest chains to keep survives with an archive no older than it |
| BackupChains.ChainStartsBefore | internal/backuparchive/chain.go:128-138 | chains are listed in the order of their newest archives |
| BackupChains.StepKeepsSound | cmd/dansal/backup_modes.go:72-266 | a backup run records the image state it met, survives its own pruning, leaves every other archive unchanged or removes it, and writes a clean archive if and only if every image it had to store was still there with its recorded content |
| BackupChains.EveryArchiveRestores | cmd/dansal/backup_modes.go:94-266 | after every run of full, incremental and cumulative backups with pruning, whatever happens to images meanwhile, each remaining archive resolves to a chain that restores the images recorded in it exactly when the chain holds them, as it does whenever all its archives are clean |
| BackupBases.BaseMeans | cmd/dansal/backup_modes.go:94-107 | an incremental run builds on a newest archive of the whole directory, a cumulative one on a newest full backup however many other archives are newer, and a full one on none |
| BackupBases.ManifestMeans | cmd/dansal/backup_modes.go:206-229 | what a manifest records: a full backup starts a chain, any other archive continues that of its base with the next sequence number and lists the images that are gone |
| BackupBases.StoredMeans | cmd/dansal/backup_modes.go:158-205 | an archive holds, of the images that are new or differ from what the base recorded, those a second read finds, as it finds them, and notes the others |
| BackupBases.CumulativeNeedsItsFullOnly | cmd/dansal/backup_modes.go:94-107 | in every run each cumulative archive has sequence number one and resolves to exactly two archives, its full backup and itself, whatever was written in between |
| BackupBases.ResolvesExactly | internal/backuparchive/chain.go:101-124 | on every directory, broken ones included, an archive resolves to a chain if and only if the chain starts with a full backup, each archive names the one before as its base, and there are at most 10001 of them |
| BackupBases.RestoredImageMeans | cmd/dansal/restore_chain.go:62-206 | what a restore leaves at a path: nothing unless the last manifest lists it, otherwise the newest stored copy, and what was there before only where no archive stores one |
| BackupBases.RunLeavesFewChains | cmd/dansal/backup_modes.go:497-529 | a run that is to keep a number of chains leaves at most that many besides its own and deletes nothing while there are no more; without a number it deletes nothing |
| BackupDirectoryModule.BackupDirectory.ListArchives | internal/backuparchive/chain.go:55-81 | lists every archive once, newest first |
| BackupDirectoryModule.BackupDirectory.Latest | internal/backuparchive/chain.go:85-96 | a newest archive, of any kind for an incremental run and among the full backups for a cumulative one; none exactly when there is no such archive |
| BackupDirectoryModule.BackupDirectory.ListChains | internal/backuparchive/chain.go:128-138 | each chain once, in the order of first appearance |
| BackupDirectoryModule.BackupDirectory.StoreImages | cmd/dansal/backup_modes.go:194-205 | records all images, stores what a second read of the changed ones finds, and notes those that have become unreadable |
| BackupDirectoryModule.BackupDirectory.ListDeleted | cmd/dansal/backup_modes.go:206-211 | the images of the base that are gone |
| BackupDirectoryModule.BackupDirectory.PruneChains | cmd/dansal/backup_modes.go:497-529 | keeps the newest chains of some listing and the one just written, and nothing else |
| BackupDirectoryModule.BackupDirectory.ResolveArchives | internal/backuparchive/chain.go:101-124 | the walk over the bases returns the chain oldest first, or fails |
| BackupDirectoryModule.BackupDirectory.RestoreChain | cmd/dansal/restore_chain.go:46-206 | extraction in order and removal of unlisted images; a chain that does not start with a full backup is refused |
| BackupDirectoryModule.BackupDirectory.CreateModeBackup | cmd/dansal/backup_modes.go:72-266 | fails, changing nothing, exactly when an incremental run finds no archive, a cumulative one no full backup, or an image cannot be hashed; otherwise it is one of the runs the theorems range over |
| RateLimit.AccountLimiter.Allow | cmd/dansal/account_rate_limit.go:31-42 | grants and counts one request |
| RateLimit.WindowGrantsUpToLimit | cmd/dansal/account_rate_limit.go:31-42 | at any point of a run the current window has granted every request counted in it, up to the limit and never more |
| RateLimit.GrantsAreBounded | cmd/dansal/account_rate_limit.go:31-42 | in every run no user is granted more than 2*limit - 1 requests in any closed interval of one period |
| RateLimit.BoundIsMet | cmd/dansal/account_rate_limit.go:31-42 | for every limit and period there is a run that reaches this bound |
| RateLimit.NonPositiveLimitActsAsOne | cmd/dansal/account_rate_limit.go:31-42 | a limit below one grants exactly what a limit of one grants |
| RateLimit.UsersAreIndependent | cmd/dansal/account_rate_limit.go:31-42 | a user's grants depend on the user's own requests only |
| BoardPosts.CreationEndsAfterEvent | cmd/dansal/contact_posts.go:76-91 | the expiry a new post is given: at most thirty days and, unless lost or found, the third day after the event; such a post is refused exactly from that day on |
| BoardPosts.OutlivesEventExactly | cmd/dansal/contact_posts.go:718-865 | in every run a ride, sleep or ticket post lives beyond the third day after its event if and only if it was created as lost or found with thirty days reaching beyond that day and was retyped since |
| BoardPosts.RetypedRideOutlivesEvent | cmd/dansal/contact_posts.go:718-865 | a run that posts, as a retyped lost item, a ride that is refused because the event is over |
| BoardPosts.HandleKeepsCaps | cmd/dansal/contact_posts.go:207-265 | every create, PUT, PATCH, delete and sweep keeps every identity within its caps |
| BoardPosts.CapsHold | cmd/dansal/contact_posts.go:478-865 | in every run, at every later moment, nobody holds more live posts of a category on one event than the cap, by email without regard to case, by account, or by handle for posters who gave nothing else |
| BoardLaws.NobodyHoldsMore | cmd/dansal/contact_posts.go:478-865 | the same in terms of the posts: in every run, no set of live posts of one category and event by one address up to case, one account, or one handle without either, has more than five lost-and-found posts or more than one other |
| BoardLaws.CreateMeans | cmd/dansal/contact_posts.go:441-574 | which posts count against a request, when it is refused for them, for a missing identity or for an event that is over, and every column of the post it adds otherwise, its expiry included |
| BoardLaws.EditMeans | cmd/dansal/contact_posts.go:695-865 | when a PUT or PATCH is refused, and that it otherwise changes the kind and nothing else |
| BoardLaws.RemovalMeans | cmd/dansal/contact_posts.go:871-910 | a manage link removes its post while it is live, an organiser at any time, the clean-up exactly what has expired; no other post changes |
| BoardPosts.HandleIsAcceptedExactly | cmd/dansal/contact_posts.go:207-240 | on every board, however many posts carry the handle: a request with an email address or an account is accepted exactly while its own posts are below the cap, one with neither exactly while the posts that carry the handle and no address are |
| BoardPosts.SecondRide | cmd/dansal/contact_posts.go:207-240 | of two rides with one handle for an event still accepting posts the second is refused exactly when the first counts against it, and otherwise both are live |
| BoardPosts.HandleCanBeUsedTwice | cmd/dansal/contact_posts.go:207-240 | two anonymous posters with different addresses, or one without an address followed by an account, hold two rides with one handle; in the opposite order the second is refused |
| ContactBoardModule.ContactBoard.BoardPostCapExceeded | cmd/dansal/contact_posts.go:207-240 | collecting the kinds of a category and counting gives the specified answer |
| ContactBoardModule.ContactBoard.CreateContactPost | cmd/dansal/contact_posts.go:441-574 | rejects a post without an identity, of an ended event or above the cap, and otherwise adds it |
| ContactBoardModule.ContactBoard.CheckManageToken | cmd/dansal/contact_posts.go:695-716 | the answer to a missing, unknown, wrong or expired token |
| ContactBoardModule.ContactBoard.CheckBoardPostCap | cmd/dansal/contact_posts.go:245-265 | the cap for the stored identity without the post itself |
| ContactBoardModule.ContactBoard.PutContactPost | cmd/dansal/contact_posts.go:733-787 | changes the type only with a valid token and within the cap |
| ContactBoardModule.ContactBoard.UpdateContactPost | cmd/dansal/contact_posts.go:793-869 | the same, and a PATCH without a type keeps it |
| ICalText.IcalUnescapeText | cmd/dansal/fetchurl.go:405-429 | the byte loop computes the specified unescaping |
| ICalText.SplitICalTextList | cmd/dansal/jcal.go:581-601 | the loop computes the specified splitting |
| ICalText.UnescapeInvertsEscape | cmd/dansal/jcal.go:603-607 | unescaping inverts escaping on every string |
| ICalText.EscapedIsOnePart | cmd/dansal/jcal.go:581-607 | an escaped text runs through the splitter in one piece, whatever surrounds it |
| ICalText.TextListRoundTrip | cmd/dansal/jcal.go:204-210 | every text list the converter accepts, which has at least one value, is read back as it was written; of the functions alone, this holds if and only if the list is not empty |
| ICalText.UnescapeMeans | cmd/dansal/fetchurl.go:405-429 | on every text: a backslash makes a comma, a semicolon and a backslash literal and n or N a line break, and stands for itself before anything else and at the end |
| ICalText.SplitMeans | cmd/dansal/jcal.go:581-601 | splitting any value loses nothing and goes as far as it can: the parts join to the value and none can be split again |
| ICalDuration.ParseICalDuration | cmd/dansal/fetchurl.go:547-598 | the loop returns the parsed seconds as 64-bit nanoseconds, wrapped around as the source's arithmetic does, and consumes input in every round |
| ICalDuration.WrapEarly | cmd/dansal/fetchurl.go:579-597 | wrapping after every addition, multiplication and negation gives what wrapping once at the end gives |
| ICalDuration.WrittenIsParsed | cmd/dansal/fetchurl.go:561-593 | every sequence of time marks and amounts is parsed to the sum of its amounts |
| ICalDuration.LargeIsRefused | cmd/dansal/fetchurl.go:575-578 | such a sequence with a number beyond 64 bits is an error |
| ICalDuration.ParsedIsWritten | cmd/dansal/fetchurl.go:561-593 | and whatever is parsed is such a sequence |
| ICalDuration.ParseIsTheGrammar | cmd/dansal/fetchurl.go:547-598 | the parser returns a number of seconds if and only if the text is an optional plus, an optional minus, P and such a sequence with that total |
| ICalDuration.StandardDurationIsParsed | cmd/dansal/fetchurl.go:547-598 | every duration the grammar of RFC 5545 section 3.3.6 can write, with either sign, leading zeros and numbers of any length, is parsed to its seconds if each number fits 64 bits and is an error otherwise; it is returned exactly if and only if it is also within 9223372036 seconds of zero |

## Left out

- HTTP, JSON, email, Telegram, Matrix, webhooks and logging: plumbing around the state changes.
- Authentication, tokens as secrets, signing, encryption and IP handling; every caller is taken to be authorised.
- SQLite itself: statements are atomic, SAVEPOINT, RELEASE and reads do not fail, and a lock is an outcome of the whole attempt.
- Tables linked to events (tags, musicians, dances, event_locations, event geohashes); an entry may fail on them, but what they hold is not modelled.
- Foreign keys of an event's location, organisation and creator: the ids in a request are taken to exist.
- HTML entity decoding: titles and venue texts are taken as decoded.
- Titles.OverlapLaws: does not model Unicode case folding and white space, and counts characters where the source counts bytes; the two agree on ASCII titles.
- previewDuplicateStatus, filterEntriesToWindow, templates and the post-commit callbacks of a feed run.
- pruneBackups in cmd/dansal/backup.go, which counts archives without regard to chains, encryption of archives, and the databases and configuration they carry.
- Failures of the file system while an archive is written, restored or deleted; an image's content is identified with its checksum.
- Floating-point rounding in geohashes: bounds are exact reals.
- A negative geohash precision, which makes the source panic.
- geohashRadiusToBBox and distances.
- Bytes of a text: strings are sequences of characters, and every character the parsers compare with is ASCII.
- The checks of a booking or board request that only look at the request (names, email syntax, links, cities, persons), and the limit on open verifications per address.
- Accounts that are deleted while their board posts remain.
- Feed-format parsers, RRULE expansion and time zones.
- A restart of the server, which drops all feed jobs, and the 30-minute cap on one run, which ends an import early but not differently.
- BookingStoreModule.BookingStore.CreateBooking: does not model the checks of the request's own fields or the limit on open verifications, because bookings carry no address here.
- BookingAvailability.RunsKeepAvailabilityCorrect: the configured number of tickets of an event is fixed during a run.
- BoardPosts.OutlivesEventExactly: the end of an event is fixed during a run, because posts keep the date computed from it.
- Bookings.NextKeepsInv: the window check of a scan is one yes or no at its SELECT, because it reads only the event and the clock.
- BackupChains.EveryArchiveRestores: up to the hop limit of 10000 archives per chain, beyond which the source refuses to resolve.
