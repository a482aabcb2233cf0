# A verified model of the media repository's core

This project models, in Dafny, the parts of matrix-media-repo in which a mistake loses
or leaks data, and proves what they are for.

* **Reference integrity** (`Repository`, `Quarantine`, `Purge`, `ThumbnailOrder`,
  `ThumbnailPurge`, `Migration`, `Uploads`, `Lifecycle`, `Service`). Uploads deduplicate
  by content hash, so many media and thumbnail rows share one stored object. Uploads,
  thumbnail storage, quarantine, purges, the thumbnail sweep and datastore migration all
  create, move or delete rows and objects. The law is that no row ever loses its object
  and, while no call fails, no object is left behind; the code keeps it exactly under the
  conditions stated below. The tables are sets of rows, the SQL
  statements set operations, and an object is represented by the SHA-256 of its bytes.
  `Repository.Repo` is the live repository: each call may fail; a failed statement changes
  nothing, a failed write of a new object may leave a fragment. Its ghost fields record
  every state passed through and how many calls failed, so that claims about arbitrary
  failures and about every intermediate state can be stated.
* **Races** (`UploadRace`, `PreviewCache`, `PreviewOrigins`). Any number of uploads under the
  per-hash lock, and any number of preview workers racing for one cache row, as transition
  systems whose steps are single calls.
* **Upload wait channels** (`Notifier`). A send happens while the mutex is held.
* **Archives** (`ArchiveFormat`, `ArchiveWriting`, `ArchiveReading`, `ArchiveRoundTrip`).
  The part-splitting writer and the importer that has to undo it.
* **GIF pre-scan** (`GifScan`, `GifPrefixes`, `GifFormat`, `GifGuard`). A byte parser with budgets over
  a rewindable reader.
* **Printer and parser pairs** (`Text`, `Base64`, `XMatrix`, `SynapseKeys`).

Where the source updates things in place the model does too (methods, classes, loops with
invariants), each method being proved against a specification function or relation whose
own properties are the lemmas. What a shared function computes (how a URI or a user ID is
cut, what a cutoff or a budget is, which rows a request selects) is also written out by
itself, in terms that do not mention the function. `dafny verify dfyconfig.toml` checks
everything.

Places where the code differs from what one might expect, and how the model treats them:

* X-Matrix values may have spaces at their edges: the parser trims spaces before it takes
  off the quotes. Only commas and quotes at an edge break the round trip
  (`XMatrix.RoundTripIff`).
* An archive file that several MXCs share is read once; the second MXC is imported
  empty. `ArchiveRoundTrip.RoundTripIff` is the exact condition, and
  `ArchiveRoundTrip.ExtensionsCollide` two media that violate it.
* The cleanup of an unused preview image asks only the media table whether the object is
  still needed. `Uploads.CleanupIsSoundIff` is the exact condition under which no
  thumbnail loses its object, and `Lifecycle.CleanupsCanBreakTheLaw` a run in which one
  does.
* A purge removes objects before the rows that use them. `Purge.BrokenPurgesAreSoundIff`
  and `ThumbnailPurge.BrokenSweepsAreSoundIff` are the exact conditions, on the table
  before the call, under which it keeps the law wherever it breaks off;
  `Lifecycle.BrokenPurgesAreHandedOut` is a run in which it does not.
* A thumbnail row copies the place of a record read earlier, and nothing ties the two
  together. `Uploads.ThumbnailIsSoundIff` is the exact condition, and
  `Lifecycle.LateThumbnailsLoseTheirObjects` a run without failures that violates it.
* The quarantine of a hash is checked before the lock is taken and not again after it.
  `Lifecycle.LateUploadsGetNothing` is what that allows.
* Purging relies on records that are current and on "datastore/location" and MXC strings
  that are unambiguous. `Purge.DoPurge` ends in a "logic error" exactly when a record is
  stale or two locations of different users print the same key;
  `Purge.StaleRecordsStopThePurge` and `Purge.SlashesBreakThePurge` are examples.
* The comparison of content types when a record is reused compares a field with itself,
  so it takes no part in the choice (`Uploads.FindRecord`).
* A preview worker hands out an image it has just removed exactly when the cached row
  expires between its lost insert and its last read (`PreviewCache.DeadAnswerIff`).

## Model

| member | source | states |
|---|---|---|
| `Lifecycle.NoRowEverLosesItsObject` | pipelines/pipeline_upload/pipeline.go:92-188 | for every sequence of uploads, thumbnail inserts, pins, quarantines, purges, thumbnail purges, migrations and preview cleanups, completed or broken off by failures: in every state of every run each thumbnail and each non-quarantined media row has a stored object with its hash, IDs are unique and the rows of one hash share one location, if and only if, in every run, each thumbnail row is inserted while its object is there, each preview cleanup starts where another media row, or no thumbnail, shares the object, and each purge that breaks off starts where no row or thumbnail needs an object that it may remove |
| `Lifecycle.NoObjectEverLeaks` | tasks/task_runner/purge.go:165-223 | in every run without failures, the law holds and every stored object is used by some row in all states, if and only if those conditions are met and no cleanup is called with a record that has moved in the meantime and was the last use of its new place |
| `Lifecycle.UploadsAreNeverAnsweredWithNothing` | pipelines/pipeline_upload/pipeline.go:92-143 | in every run whose earlier steps met their conditions, the record an upload is answered with exists and has its object unless it is quarantined; if the hash is not quarantined when it is looked up, the record is not quarantined and has its object, even after a purge kept a quarantined row of the same hash |
| `Lifecycle.StepIsSoundIff` | pipelines/pipeline_upload/pipeline.go:92-188 | an operation keeps the law however it goes if and only if its condition on the state before it is met; only thumbnail inserts, cleanups and purges that break off have one |
| `Lifecycle.StepLeaksNothingIff` | tasks/task_runner/purge.go:165-223 | each single operation without failures leaves no object unused, except a cleanup with a stale record, which does exactly under its condition |
| `Lifecycle.CleanupsCanBreakTheLaw` | pipelines/_steps/url_preview/process.go:118-136 | from an empty repository and without a failing call there is a run (two uploads, a thumbnail, a purge, a cleanup) after which a thumbnail has lost its object |
| `Lifecycle.LateThumbnailsLoseTheirObjects` | pipelines/_steps/thumbnails/generate.go:120-143 | from an empty repository and without a failing call: the bytes of a thumbnail are uploaded, their media row is purged, the thumbnail row is inserted, and it has no object |
| `Lifecycle.LateUploadsGetNothing` | pipelines/pipeline_upload/pipeline.go:92-143 | an upload that passed the quarantine check before a quarantine and a purge is answered with a quarantined record without object, although every operation met its condition |
| `Lifecycle.BrokenPurgesAreHandedOut` | tasks/task_runner/purge.go:195-207 | a purge that stops between removing an object and deleting its row makes the next upload of the same bytes be answered with a record without object |
| `Lifecycle.PinsProtect` | tasks/task_runner/purge.go:56-73 | a pinned MXC keeps its row, unflagged, and the object behind it in any quarantine and any purge, completed or broken off |
| `Lifecycle.UnpinnedRowsGo` | tasks/task_runner/purge.go:56-73 | once the pin is taken off, a purge of the MXC deletes the row |
| `Service.Serve` | tasks/task_runner/purge.go:33-48 | carrying out any one operation on a healthy repository runs into no "logic error" whatever fails, and if no call fails the repository is healthy afterwards and the operation has done, over the tables, what the request asks for: the decided upload or thumbnail, exactly the selected rows flagged, exactly the requested records purged or nothing if one may not be, exactly the thumbnails that are not young gone, exactly the old places moved |
| `Service.ServeAll` | tasks/task_runner/purge_remote_media.go:27-43 | the same for any sequence of operations: while no call fails, each has been carried out and the repository is healthy after each of them |
| `Repository.KeysAreInjective` | util/mxc.go:3-5 | MXC URIs and location keys identify their MXC and location when origins and datastore IDs have no slash |
| `Repository.Repo.Upload` | datastores/upload.go:20-106 | the object appears under a name that nothing uses; success means the bytes have the expected hash; on a mismatch the object is gone again; every intermediate state differs at that name only |
| `Quarantine.SplitMxcInverts` | util/identifiers.go:8-22 | parsing a printed MXC gives it back if and only if neither half contains a slash or a question mark |
| `Quarantine.SplitMxcExact` | util/identifiers.go:8-22 | a URI is read as an MXC if and only if it is the printed MXC, with or without a query after a question mark, and neither half has a slash or a question mark |
| `Quarantine.ResolveMedia` | tasks/task_runner/quarantine.go:57-93 | the result is the given rows and then, in the order of the request and with its repetitions, the rows of the named MXCs that have one; it fails only with a failed call or, without a host restriction, at a URI that does not parse, and with one such a URI is skipped |
| `Quarantine.QuarantineAddsUp` | tasks/task_runner/quarantine.go:29-54 | quarantining hash by hash is the same as quarantining the set, and the counts add up without counting a row twice |
| `Quarantine.QuarantineRecords` | tasks/task_runner/quarantine.go:31-54 | after any prefix of the records exactly the rows sharing a hash with them are flagged and the total is the number of rows that changed |
| `Quarantine.QuarantineMedia` | tasks/task_runner/quarantine.go:23-55 | the whole request: which records it acted on; a row is flagged if and only if it shares its hash with one of them, is not pinned and both are of the host, if one is given; nothing else changes; the count is that of the rows that changed; and it fails only with a failed call or at a URI that does not parse |
| `Quarantine.QuarantineKeepsConsistency` | tasks/task_runner/quarantine.go:23-55 | quarantine takes no object from a row and leaks none |
| `Purge.KeptFilters` | tasks/task_runner/purge.go:56-73 | the filtered list is the given records without pinned and, unless included, quarantined ones |
| `Purge.PreFilter` | tasks/task_runner/purge.go:56-73 | the loop computes that list, in order |
| `Purge.KeptInOrder` | tasks/task_runner/purge.go:56-73 | filtering keeps the order and the repetitions of the records |
| `Purge.ReportsTheUnpinned` | tasks/task_runner/purge.go:165-227 | the URIs a purge reports are those of the unpinned records, printed with "mxc://" |
| `Purge.FlagLocation` | tasks/task_runner/purge.go:81-110 | a location not seen before is entered with exactly the MXCs of its media and thumbnail rows, all unmarked |
| `Purge.FlagAll` | tasks/task_runner/purge.go:111-127 | for any table and any records, the flag map is that of the locations in the order they come by: the first location of a key decides whose users are entered |
| `Purge.FlagsShowTheUsers` | tasks/task_runner/purge.go:78-127 | for current records the flag map shows exactly the users of every location of a record or of one of its thumbnails |
| `Purge.MarkAll` | tasks/task_runner/purge.go:129-163 | ends in the logic error if and only if a record or a thumbnail found for it has no entry in the flag map; for what stage 1 hands over for current records it never does, and exactly the pairs of location and listed MXC are marked |
| `Purge.StuckIff` | tasks/task_runner/purge.go:131-163 | stage 2 gets through if and only if the MXC of each record and found thumbnail is among the users of the location that first printed its key |
| `Purge.StuckMeans` | tasks/task_runner/purge.go:131-163 | it does not in exactly two cases: a stale record or thumbnail, no longer a user of its own location, or a collision, a different location with the same key that came by earlier and that it is no user of |
| `Purge.TableRowsAreNotStale` | tasks/task_runner/purge.go:111-127 | records that are rows of the table, and their thumbnails, are not stale |
| `Purge.FlagsDecide` | tasks/task_runner/purge.go:174-182 | an affected location has all its flags set if and only if everybody who uses it is in the list |
| `Purge.TryRemoveFile` | tasks/task_runner/purge.go:169-191 | an object is removed exactly when it has not been handled and all its flags are set |
| `Purge.RemoveAll` | tasks/task_runner/purge.go:192-223 | under any failures every state is safe; a run to the end has done exactly what the purge means |
| `Purge.DoPurge` | tasks/task_runner/purge.go:50-227 | for any table and records, a purge in which no call fails ends in a logic error if and only if a record is stale or keys collide, for table rows if and only if keys collide, and then nothing has changed; for table rows with unambiguous keys in any order and with repetitions no logic error is reachable, and whatever fails every state has lost only rows of listed MXCs and objects nobody else uses; a completed purge removes an object if and only if all its users are listed, deletes the listed rows and all their thumbnails, keeps quarantined rows, pinned media and everything else, and reserves the IDs of this server; and on the way some state violates the law if and only if an object that a row needed has gone, which for a completed purge is if and only if the table before it had such an object |
| `Purge.SlashesBreakThePurge` | tasks/task_runner/purge.go:82-85 | two rows in datastores "a/b" and "a" whose locations print the same key collide: purging both is the logic error |
| `Purge.StaleRecordsStopThePurge` | tasks/task_runner/purge.go:131-149 | a record moved or deleted since it was read ends the purge in the logic error, whatever the keys |
| `Purge.BrokenPurgesAreSoundIff` | tasks/task_runner/purge.go:192-223 | a purge keeps the law wherever it may break off, if and only if in the table before it no thumbnail and no unquarantined row is at a place whose users are all listed |
| `Purge.OthersKeepTheirObjects` | tasks/task_runner/purge.go:165-223 | wherever a purge stops, rows of MXCs outside the list are still there with their objects |
| `Purge.PurgeKeepsConsistency` | tasks/task_runner/purge.go:165-223 | a completed purge keeps the law and leaks nothing |
| `Purge.Authorised` | tasks/task_runner/purge.go:39-44 | succeeds if and only if the caller may affect every record |
| `Purge.PurgeMedia` | tasks/task_runner/purge.go:33-48 | the answer is decided: a bad request if and only if some URI does not parse, else a refusal if and only if a record is of another uploader or origin than the caller speaks for, and in both cases nothing is changed; else, for current records and without failed calls, a purge as above, which reports exactly the MXC URIs of the unpinned records, in order |
| `ThumbnailOrder.BeforeIsTotal` | database/table_thumbnails.go:33-35 | the twelve-column order is a strict total order on rows for every total text order, so a cursor skips no row |
| `ThumbnailPurge.FirstRows` | database/table_thumbnails.go:33-35 | the batch query returns the first rows in order, up to the limit |
| `ThumbnailPurge.Split` | tasks/task_runner/purge_thumbnails.go:98-106 | the old rows of a location, each once, and whether a newer one shares it |
| `ThumbnailPurge.PurgeLocation` | tasks/task_runner/purge_thumbnails.go:80-132 | under any failures only expired rows and objects used by nothing but expired rows go; the count is the number of rows deleted; without failures no expired row is left at the location |
| `ThumbnailPurge.PurgeBatch` | tasks/task_runner/purge_thumbnails.go:70-135 | the same for a batch, and no location is emptied twice |
| `ThumbnailPurge.OnlyExpiredThumbsLoseObjects` | tasks/task_runner/purge_thumbnails.go:111-131 | whatever has failed, a row left without its object is an expired thumbnail at a location the purge emptied itself |
| `ThumbnailPurge.BrokenSweepsAreSoundIff` | tasks/task_runner/purge_thumbnails.go:111-131 | a sweep keeps the law wherever it may break off, if and only if in the table before it no place is used by expired thumbnails alone |
| `ThumbnailPurge.CursorAdvances` | tasks/task_runner/purge_thumbnails.go:55-59 | moving the cursor past a batch strictly shrinks what is after it, and skips nothing but the batch |
| `ThumbnailPurge.OldShrinks` | tasks/task_runner/purge_thumbnails.go:54-60 | a batch that deleted anything strictly shrinks the set of old rows |
| `ThumbnailPurge.Sweep` | tasks/task_runner/purge_thumbnails.go:43-61 | terminates for every pattern of failures; every state is safe; each object is removed at most once; at completion every old row left was visited in the final pass; without failures the result is exact; on the way some state violates the law if and only if an object is removed, which without failures is if and only if a place is used by expired thumbnails alone |
| `ThumbnailPurge.SafeSparesTheYoung` | tasks/task_runner/purge_thumbnails.go:39-39 | whatever a sweep has failed at, a thumbnail that is at most the configured number of days of 86400000 milliseconds old keeps its row, and its object if it had one |
| `ThumbnailPurge.CompletedTakesTheRest` | tasks/task_runner/purge_thumbnails.go:98-131 | a sweep without failures leaves no older thumbnail, and an object that a thumbnail used if and only if a media row or a young thumbnail uses it |
| `ThumbnailPurge.PurgeThumbnails` | tasks/task_runner/purge_thumbnails.go:32-62 | the task with its expiry setting: nothing without one; otherwise, with the age written out in milliseconds, whatever fails a thumbnail that is not older than the setting keeps its row and object, and without failures every older one is gone with the objects nothing else uses |
| `ThumbnailPurge.ThumbPurgeKeepsConsistency` | tasks/task_runner/purge_thumbnails.go:32-135 | a sweep without failures keeps the law and leaks nothing |
| `Migration.MoveSteps` | tasks/task_runner/datastore_migrate.go:87-116 | each of the four writes of a move, by itself, takes the object from no row |
| `Migration.MoveOne` | tasks/task_runner/datastore_migrate.go:78-119 | under any failure every state is harmless; a completed move has moved object and rows to a new place and nothing else; without failures it only declines if the source has no object of that hash |
| `Migration.MoveObjects` | tasks/task_runner/datastore_migrate.go:73-120 | the same for a list of records with repetitions; without failures exactly the locations with an object of the expected hash have moved |
| `Migration.MigratedExtends` | tasks/task_runner/datastore_migrate.go:87-119 | a further single move extends a relocation by that one location |
| `Migration.MigratedKeepsConsistency` | tasks/task_runner/datastore_migrate.go:73-120 | a relocation keeps the law, deduplication included, and leaks nothing |
| `Migration.DatastoreMigrate` | tasks/task_runner/datastore_migrate.go:21-71 | refuses equal or unknown datastores; harmless at every step whatever fails; without failures it moves exactly the places in the source that hold the object of a media row whose bytes were last accessed before the given time, and then those of such thumbnail rows, after which no such row sits on its object in the source |
| `Uploads.FindRecord` | pipelines/_steps/upload/deduplicate.go:8-30 | the first record of the same user and file name, failing that the first of the hash, none only if there is none |
| `Uploads.Execute` | pipelines/pipeline_upload/pipeline.go:92-188 | the answer is decided when no call fails: quarantined if and only if some row of the hash is, else over quota if and only if a user is over it, else done if the same user's identical upload is handed back or the ID is free, else a conflict; done means one of three exact outcomes, written out over the tables and the fields of the request (an identical upload handed back and nothing changed, a new row at the place of the same bytes, new object at an unused place and row); failure changes no table, and nothing at all if no call failed |
| `Uploads.UploadedIsStored` | pipelines/pipeline_upload/pipeline.go:92-143 | an upload that is answered has a row, with its object unless the row is quarantined, which it is not if the hash is not when it is looked up |
| `Uploads.UploadKeepsConsistency` | pipelines/pipeline_upload/pipeline.go:105-181 | an upload keeps the law |
| `Uploads.UploadLeaksNothing` | pipelines/pipeline_upload/pipeline.go:105-181 | and leaves no object unused |
| `Uploads.StoreThumbnail` | pipelines/_steps/thumbnails/generate.go:120-147 | the bytes are uploaded as media first, with the same decided answer, and the thumbnail row has the asked-for MXC, dimensions, method and animation and the hash, place, type, size and time of the record that came back; failures leave at most that upload |
| `Uploads.ThumbnailIsSoundIff` | pipelines/_steps/thumbnails/generate.go:126-147 | inserting a thumbnail row keeps the law if and only if its object is there at that moment |
| `Uploads.CleanupPreview` | pipelines/_steps/url_preview/process.go:118-136 | what the cleanup leaves, completed or broken off |
| `Uploads.CleanupIsSoundIff` | pipelines/_steps/url_preview/process.go:118-136 | whatever record it is called with, the cleanup keeps the law if and only if another media row shares the location or no thumbnail does |
| `Uploads.CleanupLeaksNothingIff` | pipelines/_steps/url_preview/process.go:118-136 | it leaves no object unused if and only if the row it deletes is where the record says or is not the last use of its place |
| `Uploads.CleanupUndoesUpload` | pipelines/_steps/url_preview/process.go:118-136 | cleaning up right after the upload of a preview image restores the repository exactly |
| `UploadRace.StepKeepsInv` | pipelines/pipeline_upload/pipeline.go:105-181 | every step of any worker keeps the invariant of the locked uploads |
| `UploadRace.InvAlways` | pipelines/_steps/upload/lock.go:14-50 | the invariant holds after every interleaving |
| `UploadRace.OneObjectPerHash` | pipelines/pipeline_upload/pipeline.go:105-181 | in every interleaving of any number of uploads, with any failures, all rows of a hash share a location, no row is without its object, and apart from failed writes and failed removals each hash is stored at most once |
| `UploadRace.StraysComeFromFailures` | pipelines/pipeline_upload/pipeline.go:153-181 | an object outside that count comes only from a broken write or a failed removal |
| `UploadRace.IdsStayUnique` | pipelines/pipeline_upload/pipeline.go:145-181 | with or without the lock no two rows ever have the same ID |
| `UploadRace.DuplicatesAddNothing` | pipelines/pipeline_upload/pipeline.go:129-138 | an upload of the same user, bytes and name that need not use its ID is answered with the record that is there and adds nothing |
| `UploadRace.AnswersAreStored` | pipelines/pipeline_upload/pipeline.go:129-187 | in every interleaving, whoever leaves with an answer has, to the end, a row for its bytes under its user and file name, and its object unless the row is quarantined |
| `UploadRace.SilenceHasAReason` | pipelines/pipeline_upload/pipeline.go:129-187 | nobody leaves without an answer unless one of its own calls has failed or its ID was taken |
| `UploadRace.WhenAllAreGone` | pipelines/pipeline_upload/pipeline.go:105-187 | once everybody has left, no lock is held and every object is the home of a row or a stray |
| `UploadRace.NobodyWaitsForever` | pipelines/_steps/upload/lock.go:14-50 | as long as somebody has not left, it or whoever it waits for can take a step, a successful one unless an ID is taken |
| `UploadRace.StepsAreCounted` | pipelines/pipeline_upload/pipeline.go:105-187 | every step brings its worker nearer to leaving, so that each leaves after at most seven steps of its own |
| `UploadRace.WithoutTheLockRowsSplit` | pipelines/_steps/upload/lock.go:14-50 | without the lock any two uploads of the same bytes have an interleaving that splits the rows over two locations |
| `PreviewCache.HourBucketIsIdempotent` | util/time.go:34-36 | bucketing a bucketed time changes nothing, negative times included |
| `PreviewCache.KeysAgree` | database/table_url_previews.go:72-80 | rows are read under the key they are written under |
| `PreviewCache.SuccessIsFinal` | database/table_url_previews.go:29-31 | no step of any worker, failing or not, changes a cached success; it can only expire |
| `PreviewCache.InvStep` | pipelines/_steps/url_preview/process.go:41-136 | every step, with any failure, a half-done cleanup and expiry included, keeps: a cached image names an existing media row |
| `PreviewCache.WorkersStayExact` | pipelines/_steps/url_preview/process.go:59-115 | while no call fails and no row of its key has expired, what a worker has read after losing the race is the cached success |
| `PreviewCache.ImagesStayAccounted` | pipelines/_steps/url_preview/process.go:103-108 | whatever fails, every uploaded image is cached, in the hands of a worker, that of an expired row, or one whose cleanup failed at its first step |
| `PreviewCache.CachedSuccessSurvives` | pipelines/_steps/url_preview/process.go:41-116 | in every interleaving with any failures a cached success whose row does not expire is there to the end, with its image |
| `PreviewCache.AnswersAreTheCachedRow` | pipelines/_steps/url_preview/process.go:59-115 | in every interleaving without failed calls, each worker that answers with a preview and whose key has no expired row answers with exactly the final cached row |
| `PreviewCache.LosersLeaveNothing` | pipelines/_steps/url_preview/process.go:103-136 | once all workers have finished, whatever has failed, the surviving images are exactly those of cached and of expired rows and those whose cleanup failed at its first step; without failed calls there are none of the last kind |
| `PreviewCache.DeadAnswerIff` | pipelines/_steps/url_preview/process.go:103-114 | in every interleaving without failed calls, a worker has answered with an image that does not exist if and only if it had uploaded one and the row of its key expired between its lost insert and its last read, with nobody having put one back |
| `PreviewCache.ExpiryHandsOutADeadImage` | pipelines/_steps/url_preview/process.go:103-114 | such an interleaving of two workers exists, without a failed call, from every initial state that has them |
| `PreviewOrigins.HourBucketIsTheHour` | util/time.go:34-36 | a bucket is a multiple of an hour, the timestamp less than an hour away from it, towards zero |
| `PreviewOrigins.CachedRowsHaveAnOrigin` | pipelines/_steps/url_preview/process.go:19-60 | in every interleaving, whatever fails or expires, a cached success was there at the start or is the page that a worker of the key fetched, with that worker's image or none, and a cached error was there at the start or is the code with which a worker of the key was refused, and nothing else |
| `PreviewOrigins.AnswersHaveAnOrigin` | pipelines/_steps/url_preview/process.go:17-116 | a worker that could not fetch its page answers with nothing; one that could answers with its own page or with such a row of its key |
| `PreviewOrigins.OnlyFetcherAnswersWithItsPage` | pipelines/_steps/url_preview/process.go:20-116 | without failed calls and expiry, if all other workers of a key without a cached success were refused, a worker that fetched the page answers with it, whoever came first |
| `PreviewOrigins.OnlyErrorsAreUpgraded` | pipelines/_steps/url_preview/process.go:63-85 | after a lost insert a worker sets out to replace the cached row if and only if that is an error, and otherwise settles for what it has read, a row or none |
| `PreviewOrigins.RowsChangeOnlySo` | database/table_url_previews.go:29-31 | a row is added only under a free key, by an insert or a refusal, is changed only from an error to a success, by an upgrade, and is removed only by expiry |
| `PreviewOrigins.RefusalsAreCached` | pipelines/_steps/url_preview/process.go:20-30 | a refusal leaves a row with its code, without site and image, if the key is free, and answers with nothing |
| `PreviewOrigins.RefusedKeysAreTaken` | pipelines/_steps/url_preview/process.go:20-30 | without failed calls the key of a refused worker is taken as long as no row of it expires |
| `PreviewOrigins.FaultedIff` | pipelines/_steps/url_preview/process.go:26-136 | an interleaving counts as one with failures if and only if a write or read of the cache, or the cleanup of an image, has failed in it |
| `PreviewOrigins.WorkersFinish` | pipelines/_steps/url_preview/process.go:17-116 | no worker is ever blocked, and each of its steps, of which there are at most seven, brings it nearer to its answer |
| `PreviewOrigins.AbortMeans` | pipelines/_steps/url_preview/process.go:42-101 | after a failed call a worker answers with its own page, without the image if its cleanup went through and with it otherwise, and the image is in the media table unless the cleanup got that far |
| `Notifier.WaitList.GetUploadWaitChannel` | notifier/uploads.go:19-50 | a new channel is listed last under its MXC; every listed channel stays open, empty and listed once |
| `Notifier.WaitList.Finish` | notifier/uploads.go:33-47 | the channel leaves the list, the others stay, and it is closed once |
| `Notifier.WithoutInOrder` | notifier/uploads.go:38-46 | taking a channel out of a list leaves the others in their order |
| `Notifier.WaitList.NotifyUpload` | notifier/uploads.go:58-72 | every listed channel gets the record without the send ever blocking or hitting a closed channel, and the list is dropped |
| `Notifier.FinishKeepsReady` | notifier/uploads.go:33-47 | finishing keeps every listed channel sendable |
| `Notifier.NotifyKeepsReady` | notifier/uploads.go:58-72 | so does notifying, and every channel it sends on is open and empty |
| `Notifier.History` | notifier/uploads.go:19-72 | after every legal history the lists and channels are what the history says, for every waiter |
| `Notifier.WaitersGetWhatTheyAreOwed` | notifier/uploads.go:19-72 | in every history each waiter gets at most one record, always for its own MXC, namely that of the first notification if this comes before its finish, and none otherwise |
| `ArchiveWriting.GroupingIsRight` | archival/v2archive/writer.go:186-190 | no file is lost or reordered, every closed part reaches the target size only with its last file, the open part is below it |
| `ArchiveWriting.PartsAreInOrder` | archival/v2archive/writer.go:77-141 | part numbers run from one without gaps, the manifest part is last and unique, the other parts hold the appended files in order |
| `ArchiveWriting.ArchiveWriter.AppendMedia` | archival/v2archive/writer.go:144-191 | the writer's fields and the persisted parts are those of the longer list of files |
| `ArchiveWriting.ArchiveWriter.Finish` | archival/v2archive/writer.go:235-279 | what was persisted is exactly the archive of the appended files |
| `ArchiveReading.AddToIndex` | archival/v2archive/reader.go:130-136 | every archived name leads to exactly the MXCs recorded under it, each once, and nothing counts as uploaded |
| `ArchiveReading.ArchiveReader.TryGetManifestFrom` | archival/v2archive/reader.go:98-143 | finds a manifest exactly where there is one of version 2 with an entity or of version 1 with a user, and with a media table; takes the user of a version 1 manifest for the entity; indexes it, and refuses a second |
| `ArchiveReading.ArchiveReader.Offer` | archival/v2archive/reader.go:194-284 | what offering a stream to one MXC does, with every reason to skip it, and how much of the stream is left; only a failed call or an MXC missing from the manifest ends it |
| `ArchiveReading.ArchiveReader.ImportFile` | archival/v2archive/reader.go:187-287 | the effect of one archived file on all MXCs under its name; it ends early only for a failed call, or for an index with an MXC that is not in the manifest |
| `ArchiveReading.ArchiveReader.ProcessFile` | archival/v2archive/reader.go:174-185 | the effect of one part, refused without a manifest |
| `ArchiveReading.ArchiveReader.GetNotUploadedMxcUris` | archival/v2archive/reader.go:88-96 | exactly the MXCs marked as not uploaded |
| `ArchiveReading.ServerOfUserId` | util/identifiers.go:24-40 | the server of a user ID is what follows the first colon, port included |
| `ArchiveReading.ServerOfIff` | util/identifiers.go:24-40 | a text has a server if and only if it begins with an at sign and has a colon after it, and then exactly the one after the first colon |
| `ArchiveRoundTrip.RoundTrip` | archival/v2archive/reader.go:174-287 | export, then parts in any order and any number of times: each importable file is imported exactly once with its bytes, content type, name and uploader, nothing else is imported or logged, and only what is not importable stays marked as missing |
| `ArchiveRoundTrip.OnlyFilesAreImported` | archival/v2archive/reader.go:204-284 | whatever entries are processed, an MXC of none of the files is left as it was and nothing else is logged |
| `ArchiveRoundTrip.RoundTripIff` | archival/v2archive/reader.go:187-287 | for files with different MXCs, all importable and none empty, after any order covering the data parts every file has arrived if and only if no two archived names are the same |
| `ArchiveRoundTrip.ExtensionsCollide` | archival/v2archive/writer.go:151-151 | media IDs "x.png" without and "x" with the extension ".png" collide: however they are exported and read back, one of them does not arrive |
| `ArchiveRoundTrip.ManifestSays` | archival/v2archive/writer.go:159-170 | the manifest lists every file under its MXC URI with its name, archived name, size, type, MXC, time and uploader, and nothing else |
| `ArchiveRoundTrip.ArchiveHolds` | archival/v2archive/writer.go:144-191 | every file is in a data part, under that archived name and with its bytes |
| `ArchiveRoundTrip.ImportableIff` | archival/v2archive/reader.go:213-260 | a file is imported by a real import if and only if its uploader, where that is a user ID, is on the MXC's server and a lock, if there is one, names that user or the MXC's server |
| `ArchiveRoundTrip.ArrivesAs` | archival/v2archive/reader.go:213-284 | what arrives are the bytes, type and name of the file, and its uploader if that is a user ID |
| `ArchiveRoundTrip.LocalUploadersArrive` | archival/v2archive/reader.go:213-224 | a file whose uploader is a user of the MXC's server, port included, is importable without a lock and keeps its uploader |
| `ArchiveRoundTrip.ImportsOnlyAdd` | archival/v2archive/reader.go:247-284 | whatever an archive holds, media that is there is not overwritten, what is ticked off stays so, and a run that only checks changes nothing |
| `ArchiveRoundTrip.KnownMediaIsTickedOff` | archival/v2archive/reader.go:247-256 | media that is there already is ticked off when its file comes by, and leaves the stream to the next MXC |
| `ArchiveRoundTrip.UploaderDecides` | archival/v2archive/reader.go:213-224 | without a lock a file is importable if and only if its uploader is empty, malformed or on the MXC's server, and the uploader survives if and only if it is empty or on that server |
| `ArchiveRoundTrip.Export` | archival/v2archive/writer.go:54-279 | running the writer over a list of files persists the archive of the list |
| `ArchiveRoundTrip.FindManifest` | archival/v2archive/reader.go:98-143 | offering the parts one by one finds the manifest if and only if the entity is not empty |
| `ArchiveRoundTrip.ExportAndImport` | archival/v2archive/reader.go:88-287 | the round trip on the writer and reader objects; it succeeds if and only if no call failed, then imports the importable files and nothing else and reports as missing exactly the rest |
| `GifScan.ScanIsBounded` | thumbnailing/i/gif.go:160-270 | for every stream a positive size limit bounds what is pulled from it by the limit and one colour table |
| `GifFormat.FallsBackIff` | thumbnailing/i/gif.go:141-231 | for every well-formed GIF and whatever follows it, the guard chooses the still frame if and only if there are more than 256 frames, or frames times width times height, read from the header as little-endian numbers, exceeds the configured pixels or 32000000 without a setting, or the encoding exceeds a positive size limit |
| `GifFormat.WholeGifIsRead` | thumbnailing/i/gif.go:186-231 | where the guard does not fall back, the scan of a well-formed GIF goes exactly to the end of its trailer, whatever follows, and finds it acceptable |
| `GifFormat.BrokenOffIff` | thumbnailing/i/gif.go:188-231 | a GIF with nothing or something unknown in place of its trailer is judged by the blocks it has |
| `GifFormat.NoGifFallsBackIff` | thumbnailing/i/gif.go:160-168 | a stream that is too short or does not begin with the letters GIF goes on to the decoder, unless a size limit does not allow for a header |
| `GifFormat.TableLengthIsSkipped` | thumbnailing/i/gif.go:178-184 | without the top bit of the packed field no colour table is skipped, and with it one of three bytes for each of 2 to 256 colours |
| `GifPrefixes.PrefixesFallBackLess` | thumbnailing/i/gif.go:160-270 | for every stream: if the guard falls back for a prefix it falls back for the whole, so a cut can hide a reason but not invent one |
| `GifFormat.ChainPasses` | thumbnailing/i/gif.go:257-270 | skipping a chain of sub-blocks consumes exactly that chain, unless the size limit falls within it |
| `GifFormat.EncodedIsStream` | thumbnailing/i/gif.go:160-231 | every well-formed GIF, written out and followed by anything, is a stream of its header, table and blocks |
| `GifGuard.BufferReadsReader.Read` | util/readers/buffer_reads_reader.go:28-33 | hands out the next piece of the stream, of any size, and remembers it; refuses after rewinding |
| `GifGuard.BufferReadsReader.MakeRewoundReader` | util/readers/buffer_reads_reader.go:35-41 | the first rewind gives a reader that delivers the whole original stream; a later one hands out that same reader, as far as it has been read, with an error |
| `GifGuard.BufferReadsReader.GetRewoundReader` | util/readers/buffer_reads_reader.go:43-46 | the same without the error |
| `GifGuard.Scanner.ReadFull` | thumbnailing/i/gif.go:239-246 | for any fragmentation of the reads, counts the whole request and looks at the limit before the error |
| `GifGuard.Scanner.SkipSubBlocks` | thumbnailing/i/gif.go:257-270 | the loop terminates and does what the recursive description says |
| `GifGuard.Scanner.ExceedsAnimationComplexity` | thumbnailing/i/gif.go:160-231 | terminates on every stream and reports the verdict of the scan |
| `GifGuard.GuardAnimatedGif` | thumbnailing/i/gif.go:141-158 | the decision of the scan, a reader that still yields exactly the original bytes, and the bound on what was pulled |
| `Text.SplitJoinIff` | util/http.go:62-62 | splitting undoes joining if and only if no part contains the separator |
| `Text.JoinSplit` | homeserver_interop/synapse/signing_key.go:42-42 | joining undoes splitting for every text |
| `Base64.DecodeInvertsEncode` | util/unpadded_base64.go:7-13 | unpadded base64 decodes to what was encoded, for all bytes |
| `Base64.ValueIff` | util/unpadded_base64.go:7-13 | the symbols are those of the standard alphabet, in its order |
| `Base64.SextetsSpellTheBytes` | util/unpadded_base64.go:11-13 | three bytes and their four symbols are the same number of 24 bits; at the end one byte makes two and two bytes make three symbols, filled up with zeros |
| `Base64.SextetsAreRead` | util/unpadded_base64.go:7-9 | the same backwards, without a look at the bits that are left over at the end |
| `Base64.DecodesIff` | util/unpadded_base64.go:7-9 | a text decodes if and only if it has only symbols and line breaks and not one symbol more than a multiple of four |
| `Base64.BreaksAreSkipped` | util/unpadded_base64.go:7-9 | line breaks change nothing, wherever they are |
| `XMatrix.UnquoteInverts` | util/http.go:70-70 | quoting and then trimming spaces and quotes gives the value back unless it brings a quote at an edge |
| `XMatrix.NameIs` | util/http.go:69-69 | names are read in any case and with any spaces and tabs around them |
| `XMatrix.ValueIs` | util/http.go:70-70 | values lose the spaces around them and then the quotes at both ends |
| `XMatrix.CutIff` | util/http.go:64-67 | a pair is cut at its first equals sign, if it has one |
| `XMatrix.ParsePairsIff` | util/http.go:62-76 | a list of pairs is accepted if and only if each has an equals sign and no two have the same name, and is then read as what the pairs give |
| `XMatrix.HeaderMeans` | util/http.go:54-92 | a header is malformed if and only if its pairs are or the signature they give is no base64, and is read as an origin, destination, key and signature if and only if these are what its pairs give and none but the destination is empty |
| `XMatrix.ParsedAuthIsPlain` | util/http.go:52-95 | whatever the header, what is parsed from it has no comma and no edge quote, and origin, key and signature are there |
| `XMatrix.RoundTripIff` | matrix/xmatrix.go:88-107 | parsing a created header gives back origin, destination, key ID and signature if and only if there are an origin and a signature and the values have no comma and no edge quote |
| `XMatrix.CreateIs` | matrix/xmatrix.go:88-107 | the text of a created header, part by part |
| `XMatrix.ParsePairList` | util/http.go:62-76 | the pairs of one header, failing on a pair without '=' or a repeated name |
| `XMatrix.GetXMatrixAuth` | util/http.go:52-95 | all usable X-Matrix headers in order; one malformed header fails the request |
| `XMatrix.ParseAllIff` | util/http.go:52-95 | the list fails if and only if some header is malformed, and otherwise holds exactly what the usable ones say |
| `XMatrix.ParseAllInOrder` | util/http.go:52-95 | the headers of two lists, one after the other, are read as the one list and then the other |
| `XMatrix.ValidateHeaders` | matrix/xmatrix.go:46-86 | accepts if and only if there is one origin and one destination, which if named is this server, and every signature verifies with a known key over the same canonical object; otherwise names the fault of the first header at fault, each fault written out |
| `XMatrix.CreatedHeadersAreAccepted` | matrix/xmatrix.go:46-107 | a created header, parsed again, is accepted for the matching key and own destination |
| `SynapseKeys.EncodeAll` | homeserver_interop/internal/signing_key_encode.go:10-37 | the file is the encoded keys with exactly one newline between each two, whatever the versions hold |
| `SynapseKeys.DecodeAll` | homeserver_interop/synapse/signing_key.go:34-79 | the keys of the lines in order, or the first line at fault and why |
| `SynapseKeys.LineWithParts` | homeserver_interop/synapse/signing_key.go:47-74 | a line of three parts is a key if and only if the first is ed25519 and the last is base64 of at least 32 bytes, the first 32 of which are the seed, and otherwise has the one fault that comes first |
| `SynapseKeys.LineWithoutParts` | homeserver_interop/synapse/signing_key.go:43-50 | any other line is passed over if it is empty and else has one part more than it has spaces, which is not three |
| `SynapseKeys.RoundTripIff` | homeserver_interop/synapse/signing_key.go:16-79 | reading back a written list gives the same list in order if and only if no version contains a space or a newline |
| `SynapseKeys.DecodedVersionsAreClean` | homeserver_interop/synapse/signing_key.go:42-76 | no version ever read contains a space or a newline |
| `SynapseKeys.FilesConcatenate` | homeserver_interop/synapse/signing_key.go:42-78 | two files pasted together hold the keys of both; blank lines change nothing |

## Left out

- Repository.Repo.Upload: a stored object is its hash, so sizes are not tracked; a size mismatch is one of the ways a write fails.
- Purge.DoPurge: safety under failures and the exact result are stated for records that are current rows, with origins and datastore IDs without a slash. With ambiguous location keys, what is removed depends on the order in which repeated thumbnail queries return their rows; for such tables only the logic error is characterised.
- Service.ServeAll: purges and migrations take no upload lock; the model lets them run between uploads, and between the quarantine check and the look-up of an upload, but not inside an upload's section between finding a record and inserting a row.
- ThumbnailPurge.PurgeThumbnails: does not model 64-bit overflow of the expiry in milliseconds.
- Uploads.Execute: the quota is a parameter; the spam check, the cache, the freeze option with the table of restricted media and the notification of waiters are not part of this model.
- Uploads.StoreThumbnail: runs by itself here; what may happen between the upload and the insert of the thumbnail row is covered by `Uploads.ThumbnailIsSoundIff` and `Lifecycle.NoRowEverLosesItsObject`. Generating the image is not part of this model, and a conflict in the thumbnails table counts as a failed call.
- UploadRace.OneObjectPerHash: expiry of the lock and running without Redis are assumed away; without the lock the claim is false, as `UploadRace.WithoutTheLockRowsSplit` shows.
- PreviewCache.AnswersAreTheCachedRow: says nothing of a worker whose key has had a row expire; `PreviewOrigins.AnswersHaveAnOrigin` says where its answer comes from, and `PreviewCache.DeadAnswerIff` when its image is dead.
- PreviewCache.LosersLeaveNothing: the media table is reduced to the IDs of preview images; object removal is covered by `Uploads.CleanupIsSoundIff`.
- ArchiveWriting.ArchiveWriter.Finish: tar, gzip, JSON, templates and temporary files work without error, and the sizes of manifest and index are parameters.
- ArchiveRoundTrip.RoundTrip: the S3 URL and hash fields of the manifest, creation times, the choice of local or remote kind, empty media IDs, and refusals inside the upload (a quarantined hash, the spam check) are not part of this model.
- ArchiveReading.ArchiveReader.Offer: the optional process function is not modelled.
- GifGuard.BufferReadsReader.Read: a stream that fails is one that ends there; neither the scan nor the rewound reader tells the two apart.
- XMatrix.GetXMatrixAuth: lower case is modelled for ASCII letters only.
- XMatrix.ValidateHeaders: the canonical JSON encoder and ed25519 are parameters; fetching the origin's keys and cutting a trailing question mark off the URI are not part of this model.
- SynapseKeys.DecodeAll: a key is its seed; deriving the key pair is not modelled.
- Quarantine.QuarantineMedia: removal of cached bytes is not modelled, and a quarantine is never lifted, which no code path in the repository does either.
- Importing from S3 URLs, the import task with its channels, and the exporting task around the writer.
- The choice of a datastore for an upload, which is arbitrary here.
- HTTP routing and handlers, configuration, metrics, logging, rate limiting, image and audio codecs, server discovery and federated download: they move data in and out or call foreign code, and decide nothing about the rows, objects and formats modelled here.
- The other homeserver key formats, access tokens, the user directory and statistics: they keep no state that the modelled operations depend on.
