/** The deduplicating upload (pipelines/pipeline_upload/pipeline.go) and the cleanup
    of an unused preview image (pipelines/_steps/url_preview/process.go). */
module Uploads {
  import opened Wrappers
  import opened Repository

  /** What is known about a stream once it has been buffered and hashed. */
  datatype Request = Request(
    mxc: Mxc,
    mustUseMediaId: bool,
    contentType: string,
    fileName: string,
    userId: string,
    hash: Hash,
    sizeBytes: int,
    now: int,
    datastoreId: string)

  datatype Result = Done(record: Media) | Quarantined | OverQuota | StoreError | Conflict

  function NewRow(req: Request, at: Location): Media {
    Media(req.mxc, req.fileName, req.contentType, req.userId, req.hash, req.sizeBytes, req.now, false, at)
  }

  /** A new row for the object of an existing record; the flag is copied as well. */
  function RowLike(req: Request, m: Media): Media {
    NewRow(req, m.at).(quarantined := m.quarantined)
  }

  function MediaInserted(db: Db, m: Media): Db {
    db.(media := db.media + {m})
  }

  predicate IdTaken(db: Db, x: Mxc) {
    exists m | m in db.media :: m.mxc == x
  }

  predicate Perfect(m: Media, userId: string, fileName: string) {
    m.userId == userId && m.uploadName == fileName
  }

  /** The record to reuse: the first one of the same user and file name, failing that
      the first of the hash. The content type does not take part: the source compares
      each record's with itself. */
  method FindRecord(records: seq<Media>, userId: string, fileName: string) returns (found: Option<Media>, perfect: bool)
    ensures found.None? <==> records == []
    ensures perfect <==> exists r :: r in records && Perfect(r, userId, fileName)
    ensures found.Some? ==> found.value in records
    ensures perfect ==> Perfect(found.value, userId, fileName)
    ensures !perfect && records != [] ==> found == Some(records[0])
    ensures perfect ==> exists i | 0 <= i < |records| ::
      records[i] == found.value && forall j | 0 <= j < i :: !Perfect(records[j], userId, fileName)
  {
    var hashMatch: Option<Media> := None;
    for i := 0 to |records|
      invariant hashMatch == if i == 0 then None else Some(records[0])
      invariant forall j | 0 <= j < i :: !Perfect(records[j], userId, fileName)
    {
      if hashMatch.None? { hashMatch := Some(records[i]); }
      if Perfect(records[i], userId, fileName) {
        assert records[i] in records;
        return Some(records[i]), true;
      }
    }
    return hashMatch, false;
  }

  /** The same user has uploaded the same bytes under the same name. */
  ghost predicate HasPerfect(db: Db, req: Request) {
    exists m :: m in db.media && m.hash == req.hash && m.userId == req.userId && m.uploadName == req.fileName
  }

  ghost predicate HasQuarantined(db: Db, hash: Hash) {
    exists m :: m in db.media && m.quarantined && m.hash == hash
  }

  ghost predicate IdFree(db: Db, x: Mxc) {
    forall m | m in db.media :: m.mxc != x
  }

  /** There is a record to hand back, or the new row's ID is free. */
  ghost predicate CanStore(db: Db, req: Request) {
    (!req.mustUseMediaId && HasPerfect(db, req)) || IdFree(db, req.mxc)
  }

  /** The answer of an upload in which no call fails. */
  ghost predicate Decided(before: Db, req: Request, withinQuota: bool, r: Result) {
    if HasQuarantined(before, req.hash) then r == Quarantined
    else if req.userId != "" && !withinQuota then r == OverQuota
    else if CanStore(before, req) then r.Done?
    else r == Conflict
  }

  /** The row that an upload adds holds what the request says. */
  ghost predicate Describes(record: Media, req: Request) {
    && record.mxc == req.mxc && record.hash == req.hash
    && record.userId == req.userId && record.uploadName == req.fileName && record.contentType == req.contentType
    && record.sizeBytes == req.sizeBytes && record.creationTs == req.now && !record.quarantined
  }

  /** The three ways to succeed, written out over the tables: a record of the same user,
      bytes and name is handed back and nothing changes; or the request's row is added,
      at the place of a row of the same bytes if there is one, and otherwise at a place
      of the chosen datastore that was empty and unused, where the bytes are stored. */
  ghost predicate Succeeds(before: Db, req: Request, now: Db, record: Media) {
    if !req.mustUseMediaId && HasPerfect(before, req) then
      && now == before && record in before.media && record.hash == req.hash
      && record.userId == req.userId && record.uploadName == req.fileName
    else
      && Describes(record, req) && IdFree(before, req.mxc) && now.media == before.media + {record}
      && now.thumbs == before.thumbs && now.pinned == before.pinned && now.reserved == before.reserved
      && if exists m :: m in before.media && m.hash == req.hash
         then now.objects == before.objects && exists m :: m in before.media && m.hash == req.hash && m.at == record.at
         else
           && record.at.datastoreId == req.datastoreId && record.at !in before.objects
           && (forall m | m in before.media :: m.at != record.at)
           && (forall t | t in before.thumbs :: t.at != record.at)
           && now.objects == before.objects[record.at := req.hash]
  }

  lemma AnsweredSucceeds(before: Db, req: Request, now: Db, record: Media)
    requires Uploaded(before, req, now, record)
    requires !req.mustUseMediaId && HasPerfect(before, req) ==> now == before && record in before.media
    ensures Succeeds(before, req, now, record)
  {
    assert !HasQuarantined(before, req.hash);
    if !(!req.mustUseMediaId && HasPerfect(before, req)) {
      if m :| m in before.media && m.hash == req.hash && record == RowLike(req, m) {
      } else {
        forall m | m in before.media ensures m.at != record.at {
          assert m.at == record.at ==> m.mxc in UsersOf(before, m.at);
        }
        forall t | t in before.thumbs ensures t.at != record.at {
          assert t.at == record.at ==> t.of in UsersOf(before, t.at);
        }
      }
    }
  }

  /** The outcomes of an upload as a relation between states, from the look-up of the hash
      on: the quarantine of the hash has been checked before. */
  ghost predicate Answered(before: Db, req: Request, now: Db, record: Media) {
    && record.hash == req.hash
    && (
      // an exact duplicate: its record is handed back
      || (now == before && record in before.media && !req.mustUseMediaId && Perfect(record, req.userId, req.fileName))
      // the bytes are known: a new row for the existing object
      || (!IdTaken(before, req.mxc) && now == MediaInserted(before, record)
          && (req.mustUseMediaId || !HasPerfect(before, req))
          && exists m :: m in before.media && m.hash == req.hash && record == RowLike(req, m))
      // new bytes
      || (!IdTaken(before, req.mxc) && (forall m | m in before.media :: m.hash != req.hash)
          && record == NewRow(req, record.at) && Unused(before, record.at) && record.at.datastoreId == req.datastoreId
          && now == MediaInserted(ObjectWritten(before, record.at, req.hash), record)))
  }

  /** The same with the check and the look-up in one state. */
  ghost predicate Uploaded(before: Db, req: Request, now: Db, record: Media) {
    !HashQuarantined(before, req.hash) && Answered(before, req, now, record)
  }

  /** The tables are the same; at most an object nobody points at has been added. */
  ghost predicate OnlyStray(before: Db, now: Db) {
    now == before || exists at :: Unused(before, at) && SameBut(before, now, at)
  }

  method GetByHash(repo: Repo, hash: Hash) returns (ok: bool, rows: seq<Media>)
    modifies repo
    ensures repo.Looked(ok)
    ensures ok ==> forall m :: m in rows <==> m in repo.db.media && m.hash == hash
  {
    rows := ToList(set m | m in repo.db.media && m.hash == hash);
    ok := *;
    if !ok { repo.faults := repo.faults + 1; }
  }

  /** The unique index refuses a second row for an ID. */
  method InsertMedia(repo: Repo, m: Media) returns (ok: bool)
    modifies repo
    ensures repo.faults >= old(repo.faults) && repo.history == old(repo.history) + [repo.db]
    ensures ok ==>
      repo.faults == old(repo.faults) && !IdTaken(old(repo.db), m.mxc) && repo.db == MediaInserted(old(repo.db), m)
    ensures !ok ==> repo.db == old(repo.db)
    ensures !ok && repo.faults == old(repo.faults) ==> IdTaken(old(repo.db), m.mxc)
  {
    ok := *;
    if !ok {
      repo.faults := repo.faults + 1;
    } else if IdTaken(repo.db, m.mxc) {
      ok := false;
    } else {
      repo.db := MediaInserted(repo.db, m);
    }
    repo.history := repo.history + [repo.db];
  }

  /** Steps 6 to 14, with the hash lock held. Without faults the answer is decided and an
      upload that does not succeed leaves the repository as it was; with faults it can
      leave a stray object but never a row without one. */
  method Execute(repo: Repo, req: Request, withinQuota: bool) returns (r: Result)
    modifies repo
    ensures repo.faults >= old(repo.faults)
    ensures r.Done? ==> Uploaded(old(repo.db), req, repo.db, r.record)
    ensures r.Done? ==> Succeeds(old(repo.db), req, repo.db, r.record)
    ensures r.Done? ==> !HasQuarantined(old(repo.db), req.hash) && (req.userId == "" || withinQuota)
    ensures !r.Done? ==> OnlyStray(old(repo.db), repo.db)
    ensures !r.Done? && repo.faults == old(repo.faults) ==> repo.db == old(repo.db)
    ensures HashQuarantined(old(repo.db), req.hash) ==> r == Quarantined || r == StoreError
    ensures repo.faults == old(repo.faults) ==> Decided(old(repo.db), req, withinQuota, r)
    ensures r == StoreError ==> repo.faults > old(repo.faults)
    ensures r == Quarantined ==> HasQuarantined(old(repo.db), req.hash)
    ensures r == OverQuota ==> req.userId != "" && !withinQuota
    ensures r == Conflict ==> repo.faults > old(repo.faults) || !IdFree(old(repo.db), req.mxc)
  {
    ghost var before := repo.db;
    var ok := *;
    if !ok {
      repo.faults := repo.faults + 1;
      return StoreError;
    }
    if HashQuarantined(repo.db, req.hash) { return Quarantined; }
    if req.userId != "" && !withinQuota { return OverQuota; }
    var records: seq<Media>;
    ok, records := GetByHash(repo, req.hash);
    if !ok { return StoreError; }
    var found, perfect := FindRecord(records, req.userId, req.fileName);
    if found.Some? {
      if perfect && !req.mustUseMediaId {
        AnsweredSucceeds(before, req, before, found.value);
        return Done(found.value);
      }
      assert !found.value.quarantined;
      var row := RowLike(req, found.value);
      ok := InsertMedia(repo, row);
      if !ok { return Conflict; }
      AnsweredSucceeds(before, req, repo.db, row);
      return Done(row);
    }
    assert forall m | m in before.media && m.hash == req.hash :: m in records;
    var at: Location;
    ok, at := repo.Upload(req.datastoreId, req.hash, req.hash);
    if !ok { return StoreError; }
    var row := NewRow(req, at);
    ok := InsertMedia(repo, row);
    if !ok {
      var removed := repo.RemoveObject(at);
      assert ObjectRemoved(ObjectWritten(before, at, req.hash), at).objects == before.objects;
      return Conflict;
    }
    AnsweredSucceeds(before, req, repo.db, row);
    return Done(row);
  }

  // ----- storing a generated thumbnail -----

  function ThumbInserted(db: Db, t: Thumbnail): Db {
    db.(thumbs := db.thumbs + {t})
  }

  method InsertThumb(repo: Repo, t: Thumbnail) returns (ok: bool)
    modifies repo
    ensures repo.Wrote(ok, ThumbInserted(old(repo.db), t))
  {
    ok := *;
    if ok { repo.db := ThumbInserted(repo.db, t); } else { repo.faults := repo.faults + 1; }
    repo.history := repo.history + [repo.db];
  }

  /** The thumbnail row for bytes that were uploaded as media of their own. */
  function ThumbOf(record: Media, of: Mxc, width: int, height: int, method_: string, animated: bool): Thumbnail {
    Thumbnail(of, record.contentType, width, height, method_, animated, record.hash, record.sizeBytes,
              record.creationTs, record.at)
  }

  /** The generated bytes go through the whole upload, deduplication included, before
      the thumbnail row copies the place of the record that came back. */
  method StoreThumbnail(repo: Repo, req: Request, of: Mxc, width: int, height: int, method_: string, animated: bool)
    returns (stored: Option<Thumbnail>, ghost mid: Db, ghost r: Result)
    modifies repo
    ensures repo.faults >= old(repo.faults)
    ensures r.Done? ==> Uploaded(old(repo.db), req, mid, r.record) && Succeeds(old(repo.db), req, mid, r.record)
    ensures repo.faults == old(repo.faults) ==>
      Decided(old(repo.db), req, true, r) && (stored.Some? <==> r.Done?)
    ensures stored.Some? ==>
      r.Done? && stored.value == ThumbOf(r.record, of, width, height, method_, animated)
        && repo.db == ThumbInserted(mid, stored.value)
    ensures stored.Some? ==>
      && stored.value.of == of && stored.value.width == width && stored.value.height == height
      && stored.value.method_ == method_ && stored.value.animated == animated
      && stored.value.hash == req.hash && stored.value.at == r.record.at
      && stored.value.contentType == r.record.contentType && stored.value.sizeBytes == r.record.sizeBytes
      && stored.value.creationTs == r.record.creationTs
      && repo.db.thumbs == mid.thumbs + {stored.value} && repo.db.media == mid.media
      && repo.db.objects == mid.objects
    ensures stored.None? ==>
      if r.Done? then repo.db == mid && repo.faults > old(repo.faults) else OnlyStray(old(repo.db), repo.db)
    ensures stored.None? && repo.faults == old(repo.faults) ==> repo.db == old(repo.db)
  {
    stored := None;
    var answer := Execute(repo, req, true);
    mid, r := repo.db, answer;
    if !answer.Done? { return; }
    var t := ThumbOf(answer.record, of, width, height, method_, animated);
    var ok := InsertThumb(repo, t);
    if ok { stored := Some(t); }
  }

  // ----- consequences -----

  /** Whoever is told "done" holds a row, and if the row is not quarantined its object is
      there. So the missing object of a purged but kept row is not handed out again as
      long as the hash is still without quarantine when it is looked up. */
  lemma UploadedIsStored(before: Db, req: Request, now: Db, record: Media)
    requires Consistent(before) && Answered(before, req, now, record)
    ensures record in now.media && (record.quarantined || Stored(now, record.at, req.hash))
    ensures !HashQuarantined(before, req.hash) ==> !record.quarantined && Stored(now, record.at, req.hash)
  {
    if m :| m in before.media && m.hash == req.hash && m.at == record.at && m.quarantined == record.quarantined {
      assert !m.quarantined ==> Stored(before, m.at, m.hash);
    }
  }

  lemma RowAdded(db: Db, m: Media)
    requires Consistent(db) && !IdTaken(db, m.mxc)
      && (!m.quarantined || m.at in db.objects ==> Stored(db, m.at, m.hash))
    requires forall k | k in db.media && k.hash == m.hash :: k.at == m.at
    ensures Consistent(MediaInserted(db, m))
  {}

  lemma UploadKeepsConsistency(before: Db, req: Request, now: Db, record: Media)
    requires Consistent(before) && Answered(before, req, now, record)
    ensures Consistent(now)
  {
    if now == before {
    } else if m :| m in before.media && m.hash == req.hash && record == RowLike(req, m) {
      RowAdded(before, record);
    } else {
      var mid := ObjectWritten(before, record.at, req.hash);
      assert mid.objects - {record.at} == before.objects - {record.at};
      StrayKeepsConsistency(before, mid);
      RowAdded(mid, record);
    }
  }

  lemma UploadLeaksNothing(before: Db, req: Request, now: Db, record: Media)
    requires NoOrphans(before) && Answered(before, req, now, record)
    ensures NoOrphans(now)
  {
    forall at | at in now.objects
      ensures UsersOf(now, at) != {}
    {
      if at in before.objects {
        assert UsersOf(before, at) <= UsersOf(now, at);
      } else {
        assert record.mxc in UsersOf(now, at);
      }
    }
  }

  /** Nothing ties a thumbnail row to the record its place was copied from: inserting it
      keeps the law exactly if its object is still there. */
  lemma ThumbnailIsSoundIff(db: Db, t: Thumbnail)
    requires Consistent(db)
    ensures Consistent(ThumbInserted(db, t)) <==> Stored(db, t.at, t.hash)
  {
    assert t in ThumbInserted(db, t).thumbs;
  }

  lemma StrayKeepsConsistency(before: Db, now: Db)
    requires Consistent(before) && OnlyStray(before, now)
    ensures Consistent(now)
  {
    if now != before {
      var at :| Unused(before, at) && SameBut(before, now, at);
      assert now.media == before.media && now.thumbs == before.thumbs;
      assert now.objects - {at} == before.objects - {at};
      forall m | m in before.media ensures m.at != at { assert m.at == at ==> m.mxc in UsersOf(before, at); }
      forall t | t in before.thumbs ensures t.at != at { assert t.at == at ==> t.of in UsersOf(before, at); }
      assert forall p | p != at ::
        (p in before.objects - {at} <==> p in before.objects) && (p in now.objects - {at} <==> p in now.objects);
      assert forall p | p != at && p in before.objects :: (before.objects - {at})[p] == (now.objects - {at})[p];
    }
  }

  // ----- cleaning up an unused preview image -----

  function CleanupResult(db: Db, m: Media): Db {
    var rest := MediaDeleted(db, m.mxc);
    if MediaAt(rest, m.at) != {} then rest else ObjectRemoved(rest, m.at)
  }

  /** The row is the only media row at its location, or nothing else is there. */
  ghost predicate SafeCleanup(db: Db, m: Media) {
    (exists n :: n in db.media && n.at == m.at && n.mxc != m.mxc) || ThumbsAt(db, m.at) == {}
  }

  /** The cleanup asks only the media table whether the object is still needed. Whatever
      record it is called with, it keeps every row's object exactly when another media
      row shares the location or no thumbnail does. */
  lemma CleanupIsSoundIff(db: Db, m: Media)
    requires Consistent(db)
    ensures Consistent(CleanupResult(db, m)) <==> SafeCleanup(db, m)
  {
    var rest := MediaDeleted(db, m.mxc);
    var now := CleanupResult(db, m);
    if n :| n in db.media && n.at == m.at && n.mxc != m.mxc {
      assert n in MediaAt(rest, m.at);
    } else {
      assert MediaAt(rest, m.at) == {};
      if t :| t in ThumbsAt(db, m.at) {
        assert t in now.thumbs && t.at !in now.objects;
      } else {
        forall u | u in now.thumbs ensures u.at != m.at { assert u.at == m.at ==> u in ThumbsAt(db, m.at); }
        forall k | k in now.media ensures k.at != m.at { assert k.at == m.at ==> k in MediaAt(rest, m.at); }
      }
    }
  }

  /** The row that goes away is where the record says, or somebody else uses its place. */
  ghost predicate TidyCleanup(db: Db, m: Media) {
    forall k | k in db.media && k.mxc == m.mxc && k.at != m.at && k.at in db.objects ::
      (exists n :: n in db.media && n.at == k.at && n.mxc != m.mxc) || ThumbsAt(db, k.at) != {}
  }

  /** A record that has become stale, say by a migration, makes the cleanup leak: it
      leaves no object unused exactly when the row it deletes does not take the last use
      of another location with it. */
  lemma CleanupLeaksNothingIff(db: Db, m: Media)
    requires NoOrphans(db)
    ensures NoOrphans(CleanupResult(db, m)) <==> TidyCleanup(db, m)
  {
    var rest, now := MediaDeleted(db, m.mxc), CleanupResult(db, m);
    if TidyCleanup(db, m) {
      forall at | at in now.objects ensures UsersOf(now, at) != {} {
        TidyPlaceIsUsed(db, m, at);
        UsedAfterCleanup(db, m, at);
      }
    } else {
      var k :| k in db.media && k.mxc == m.mxc && k.at != m.at && k.at in db.objects
        && (forall n | n in db.media && n.at == k.at :: n.mxc == m.mxc) && ThumbsAt(db, k.at) == {};
      UsedAfterCleanup(db, m, k.at);
      assert MediaAt(rest, k.at) == {} && k.at in now.objects;
    }
  }

  lemma UsedAfterCleanup(db: Db, m: Media, at: Location)
    ensures UsersOf(CleanupResult(db, m), at) == {} <==>
      MediaAt(MediaDeleted(db, m.mxc), at) == {} && ThumbsAt(db, at) == {}
  {
    var rest, now := MediaDeleted(db, m.mxc), CleanupResult(db, m);
    if k :| k in MediaAt(rest, at) { assert k.mxc in UsersOf(now, at); }
    if t :| t in ThumbsAt(db, at) { assert t.of in UsersOf(now, at); }
    if x :| x in UsersOf(now, at) {
      if k :| k in now.media && k.at == at && k.mxc == x {
        assert k in MediaAt(rest, at);
      } else {
        var t :| t in now.thumbs && t.at == at && t.of == x;
        assert t in ThumbsAt(db, at);
      }
    }
  }

  lemma TidyPlaceIsUsed(db: Db, m: Media, at: Location)
    requires NoOrphans(db) && TidyCleanup(db, m) && at in CleanupResult(db, m).objects
    ensures MediaAt(MediaDeleted(db, m.mxc), at) != {} || ThumbsAt(db, at) != {}
  {
    var rest := MediaDeleted(db, m.mxc);
    if MediaAt(rest, at) == {} && ThumbsAt(db, at) == {} {
      var x :| x in UsersOf(db, at);
      forall t | t in db.thumbs ensures t.at != at { assert t.at == at ==> t in ThumbsAt(db, at); }
      var k :| k in db.media && k.at == at && k.mxc == x;
      forall n | n in db.media && n.at == at ensures n.mxc == m.mxc {
        assert n.mxc != m.mxc ==> n in MediaAt(rest, at);
      }
      assert false;
    }
  }

  /** Cleaning up the image of a preview right after its upload undoes the upload. */
  lemma CleanupUndoesUpload(before: Db, req: Request, now: Db, record: Media)
    requires UniqueIds(before) && req.mustUseMediaId && Answered(before, req, now, record)
    ensures CleanupResult(now, record) == before
  {
    var rest := MediaDeleted(now, record.mxc);
    assert rest.media == before.media;
    if m :| m in before.media && m.hash == req.hash && m.at == record.at {
      assert m in MediaAt(rest, record.at);
    } else {
      forall k | k in before.media ensures k.at != record.at { assert k.mxc in UsersOf(before, k.at); }
      assert MediaAt(rest, record.at) == {};
      assert ObjectRemoved(rest, record.at).objects == before.objects;
    }
  }

  method CleanupPreview(repo: Repo, m: Media) returns (ok: bool)
    modifies repo
    ensures ok ==> repo.db == CleanupResult(old(repo.db), m)
    ensures !ok ==> repo.faults > old(repo.faults) && repo.db in {old(repo.db), MediaDeleted(old(repo.db), m.mxc)}
  {
    ok := repo.DeleteMedia(m.mxc);
    if !ok { return; }
    var used: bool;
    ok, used := repo.MediaLocationExists(m.at);
    if !ok { return; }
    if used { return; }
    ok := repo.RemoveObject(m.at);
  }
}
