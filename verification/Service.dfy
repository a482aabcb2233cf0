/** The operations themselves, one after the other on one repository: what the lifecycle
    relations say of states holds of the methods that carry the operations out. */
module Service {
  import opened Wrappers
  import opened Repository
  import Lifecycle
  import Purge
  import Quarantine
  import ThumbnailOrder
  import ThumbnailPurge
  import Migration
  import Uploads

  datatype Command =
    | Upload(req: Uploads.Request, withinQuota: bool)
    | StoreThumbnail(req: Uploads.Request, of: Mxc, width: int, height: int, method_: string, animated: bool)
    | QuarantineMedia(onlyHost: string, named: Quarantine.Target)
    | PurgeMedia(auth: Purge.Auth, wanted: Media -> bool, single: Option<Mxc>, uris: seq<string>, ours: set<string>)
    | PurgeRemoteMedia(wanted: Media -> bool, ours: set<string>)
    | PurgeThumbnails(expireDays: int, nowMillis: int)
    | DatastoreMigrate(datastores: set<string>, source: string, target: string, lastAccess: map<Hash, int>,
                       beforeTs: int)

  /** Server names and datastore IDs have no slash. */
  predicate Allowed(cmd: Command) {
    match cmd
    case Upload(req, _) => '/' !in req.mxc.origin && '/' !in req.datastoreId
    case StoreThumbnail(req, of, _, _, _, _) => '/' !in req.mxc.origin && '/' !in req.datastoreId && '/' !in of.origin
    case DatastoreMigrate(_, _, target, _, _) => '/' !in target
    case _ => true
  }

  /** No row without its object, no object without a row, every key unambiguous. */
  ghost predicate Healthy(db: Db) {
    Lifecycle.Healthy(db) && WellKeyed(db)
  }

  lemma UploadKeepsHealth(before: Db, req: Uploads.Request, now: Db, record: Media)
    requires Healthy(before) && Uploads.Uploaded(before, req, now, record)
    requires '/' !in req.mxc.origin && '/' !in req.datastoreId
    ensures Healthy(now)
  {
    Uploads.UploadKeepsConsistency(before, req, now, record);
    Uploads.UploadLeaksNothing(before, req, now, record);
    UploadStaysKeyed(before, req, now, record);
  }

  lemma UploadStaysKeyed(before: Db, req: Uploads.Request, now: Db, record: Media)
    requires WellKeyed(before) && Uploads.Uploaded(before, req, now, record)
    requires '/' !in req.mxc.origin && '/' !in req.datastoreId
    ensures WellKeyed(now)
  {
    assert now.thumbs == before.thumbs && forall m | m in now.media :: m in before.media || m == record;
  }

  lemma ThumbnailKeepsHealth(before: Db, req: Uploads.Request, mid: Db, record: Media, t: Thumbnail)
    requires Healthy(before) && Uploads.Uploaded(before, req, mid, record)
    requires '/' !in req.mxc.origin && '/' !in req.datastoreId && '/' !in t.of.origin
    requires t.at == record.at && t.hash == record.hash
    ensures Healthy(Uploads.ThumbInserted(mid, t))
  {
    UploadKeepsHealth(before, req, mid, record);
    Uploads.UploadedIsStored(before, req, mid, record);
    ThumbnailRowKeepsHealth(mid, t);
  }

  lemma ThumbnailRowKeepsHealth(db: Db, t: Thumbnail)
    requires Healthy(db) && Stored(db, t.at, t.hash) && '/' !in t.of.origin && UsersOf(db, t.at) != {}
    ensures Healthy(Uploads.ThumbInserted(db, t))
  {
    Lifecycle.UsersStay(db, Uploads.ThumbInserted(db, t));
    ThumbnailRowKeepsConsistency(db, t);
    ThumbnailRowStaysKeyed(db, t);
  }

  lemma ThumbnailRowKeepsConsistency(db: Db, t: Thumbnail)
    requires Consistent(db) && Stored(db, t.at, t.hash)
    ensures Consistent(Uploads.ThumbInserted(db, t))
  {}

  lemma ThumbnailRowStaysKeyed(db: Db, t: Thumbnail)
    requires WellKeyed(db) && '/' !in t.of.origin && UsersOf(db, t.at) != {}
    ensures WellKeyed(Uploads.ThumbInserted(db, t))
  {
    var x :| x in UsersOf(db, t.at);
    if m :| m in db.media && m.at == t.at && m.mxc == x {
      assert '/' !in m.at.datastoreId;
    } else {
      var u :| u in db.thumbs && u.at == t.at && u.of == x;
    }
  }

  lemma FewerRowsStayKeyed(s: Db, t: Db)
    requires WellKeyed(s) && t.media <= s.media && t.thumbs <= s.thumbs
    ensures WellKeyed(t)
  {}

  lemma ThumbnailPurgeKeepsHealth(db: Db, cutoff: int)
    requires Healthy(db)
    ensures Healthy(ThumbnailPurge.ThumbPurgeResult(db, cutoff))
  {
    ThumbnailPurge.ThumbPurgeKeepsConsistency(db, cutoff);
    FewerRowsStayKeyed(db, ThumbnailPurge.ThumbPurgeResult(db, cutoff));
  }

  lemma PurgeKeepsHealth(db: Db, listed: set<Mxc>, ours: set<string>)
    requires Healthy(db)
    ensures Healthy(Purge.PurgeResult(db, listed, ours))
  {
    Purge.PurgeKeepsConsistency(db, listed, ours);
    FewerRowsStayKeyed(db, Purge.PurgeResult(db, listed, ours));
  }

  lemma QuarantineKeepsHealth(before: Db, hashes: set<Hash>, onlyHost: string)
    requires Healthy(before)
    ensures Healthy(Quarantine.QuarantineResult(before, hashes, onlyHost))
  {
    Quarantine.QuarantineKeepsConsistency(before, hashes, onlyHost);
  }

  lemma RelocationKeepsHealth(before: Db, moves: map<Location, Location>, now: Db, source: string, target: string)
    requires Healthy(before) && source != target && '/' !in target
      && Migration.Relocated(before, moves, now, source, target)
    ensures Healthy(now)
  {
    Migration.MigratedKeepsConsistency(before, moves, now, source, target);
    RelocationStaysKeyed(before, moves, now, source, target);
  }

  lemma RelocationStaysKeyed(before: Db, moves: map<Location, Location>, now: Db, source: string, target: string)
    requires WellKeyed(before) && '/' !in target && Migration.Relocated(before, moves, now, source, target)
    ensures WellKeyed(now)
  {
    forall m | m in now.media ensures '/' !in m.mxc.origin && '/' !in m.at.datastoreId {
      var n :| n in before.media && m == Migration.PlacedMedia(moves, n);
    }
    forall t | t in now.thumbs ensures '/' !in t.of.origin && '/' !in t.at.datastoreId {
      var u :| u in before.thumbs && t == Migration.PlacedThumb(moves, u);
    }
  }

  // ----- what a command without failures does -----

  ghost predicate UploadDone(before: Db, req: Uploads.Request, withinQuota: bool, now: Db) {
    exists r :: Uploads.Decided(before, req, withinQuota, r)
                && if r.Done? then Uploads.Succeeds(before, req, now, r.record) else now == before
  }

  ghost predicate IsThumbnail(t: Thumbnail, record: Media, of: Mxc, width: int, height: int, method_: string,
                              animated: bool) {
    && t.of == of && t.width == width && t.height == height && t.method_ == method_ && t.animated == animated
    && t.hash == record.hash && t.at == record.at
  }

  ghost predicate ThumbnailDone(before: Db, req: Uploads.Request, of: Mxc, width: int, height: int, method_: string,
                                animated: bool, now: Db) {
    exists r, mid :: Uploads.Decided(before, req, true, r)
                     && if r.Done?
                        then Uploads.Succeeds(before, req, mid, r.record)
                          && exists t :: IsThumbnail(t, r.record, of, width, height, method_, animated)
                                         && now == mid.(thumbs := mid.thumbs + {t})
                        else now == before
  }

  ghost predicate AllParse(uris: seq<string>) {
    forall u | u in uris :: Quarantine.SplitMxc(u).Some?
  }

  ghost predicate QuarantineDone(before: Db, onlyHost: string, target: Quarantine.Target, now: Db) {
    if onlyHost == "" && !AllParse(target.uris) then now == before
    else exists records, total ::
      && Quarantine.SelectedAreFlagged(before, records, onlyHost, now, total)
      && Quarantine.Sourced(before, records, onlyHost, target)
      && target.rows <= records && Quarantine.AllCovered(before, records, onlyHost, target)
  }

  ghost predicate AreWanted(db: Db, wanted: Media -> bool, rows: seq<Media>) {
    forall m :: m in rows <==> m in db.media && wanted(m)
  }

  ghost predicate MayPurge(auth: Purge.Auth, records: seq<Media>) {
    forall m | m in records ::
      (auth.uploader == "" || m.userId == auth.uploader) && (auth.origin == "" || m.mxc.origin == auth.origin)
  }

  ghost predicate PurgeDone(before: Db, auth: Purge.Auth, wanted: Media -> bool, single: Option<Mxc>,
                            uris: seq<string>, ours: set<string>, now: Db) {
    if !AllParse(uris) then now == before
    else exists rows, records ::
      && AreWanted(before, wanted, rows)
      && Quarantine.RecordsOf(before, records, "", Quarantine.Target(rows, single, uris))
      && now == if MayPurge(auth, records)
                then Purge.PurgeResult(before, Purge.Listed(Purge.Kept(before, records, true)), ours) else before
  }

  ghost predicate RemotePurgeDone(before: Db, wanted: Media -> bool, ours: set<string>, now: Db) {
    exists rows :: AreWanted(before, wanted, rows)
                   && now == Purge.PurgeResult(before, Purge.Listed(Purge.Kept(before, rows, false)), ours)
  }

  ghost predicate ThumbnailPurgeDone(before: Db, expireDays: int, nowMillis: int, now: Db) {
    if expireDays <= 0 then now == before
    else (ThumbnailPurge.YoungStay(before, now, expireDays, nowMillis)
          && ThumbnailPurge.OnlyYoungStay(before, now, expireDays, nowMillis))
  }

  /** The media of the old places have moved, and then the thumbnails of the old places. */
  ghost predicate MigrationDone(before: Db, datastores: set<string>, source: string, target: string,
                                lastAccess: map<Hash, int>, beforeTs: int, now: Db) {
    if source == target || source !in datastores || target !in datastores then now == before
    else exists mid, first: map<Location, Location>, second: map<Location, Location> ::
      && Migration.Relocated(before, first, mid, source, target)
      && first.Keys == Migration.OldMediaPlaces(before, source, lastAccess, beforeTs)
      && Migration.Relocated(mid, second, now, source, target)
      && second.Keys == Migration.OldThumbPlaces(mid, source, lastAccess, beforeTs)
  }

  ghost predicate Done(before: Db, cmd: Command, now: Db) {
    match cmd
    case Upload(req, withinQuota) => UploadDone(before, req, withinQuota, now)
    case StoreThumbnail(req, of, width, height, method_, animated) =>
      ThumbnailDone(before, req, of, width, height, method_, animated, now)
    case QuarantineMedia(onlyHost, named) => QuarantineDone(before, onlyHost, named, now)
    case PurgeMedia(auth, wanted, single, uris, ours) => PurgeDone(before, auth, wanted, single, uris, ours, now)
    case PurgeRemoteMedia(wanted, ours) => RemotePurgeDone(before, wanted, ours, now)
    case PurgeThumbnails(expireDays, nowMillis) => ThumbnailPurgeDone(before, expireDays, nowMillis, now)
    case DatastoreMigrate(datastores, source, target, lastAccess, beforeTs) =>
      MigrationDone(before, datastores, source, target, lastAccess, beforeTs, now)
  }

  // ----- the commands -----

  /** The rows a request selects, as the caller of the purge has just read them. */
  method Select(repo: Repo, wanted: Media -> bool) returns (rows: seq<Media>)
    ensures AreWanted(repo.db, wanted, rows)
  {
    rows := ToList(set m | m in repo.db.media && wanted(m));
  }

  method ServePurge(repo: Repo, auth: Purge.Auth, wanted: Media -> bool, single: Option<Mxc>, uris: seq<string>,
                    ours: set<string>)
    returns (logicError: bool)
    modifies repo
    ensures repo.faults >= old(repo.faults)
    ensures Healthy(old(repo.db)) ==> !logicError
    ensures Healthy(old(repo.db)) && repo.faults == old(repo.faults) ==>
      Healthy(repo.db) && PurgeDone(old(repo.db), auth, wanted, single, uris, ours, repo.db)
  {
    var rows := Select(repo, wanted);
    ghost var before := repo.db;
    var result; ghost var records;
    result, records := Purge.PurgeMedia(repo, auth, Quarantine.Target(rows, single, uris), ours);
    logicError := result == Purge.LogicError;
    if Healthy(before) { PurgeKeepsHealth(before, Purge.Listed(Purge.Kept(before, records, true)), ours); }
  }

  method ServePurgeRemote(repo: Repo, wanted: Media -> bool, ours: set<string>) returns (logicError: bool)
    modifies repo
    ensures repo.faults >= old(repo.faults)
    ensures Healthy(old(repo.db)) ==> !logicError
    ensures Healthy(old(repo.db)) && repo.faults == old(repo.faults) ==>
      Healthy(repo.db) && RemotePurgeDone(old(repo.db), wanted, ours, repo.db)
  {
    var rows := Select(repo, wanted);
    ghost var before := repo.db;
    var result; ghost var lists;
    result, lists := Purge.DoPurge(repo, rows, false, ours);
    logicError := result == Purge.LogicError;
    if Healthy(before) { PurgeKeepsHealth(before, Purge.Listed(Purge.Kept(before, rows, false)), ours); }
  }

  method ServeMigration(repo: Repo, datastores: set<string>, source: string, target: string,
                        lastAccess: map<Hash, int>, beforeTs: int)
    requires '/' !in target
    modifies repo
    ensures repo.faults >= old(repo.faults) && Migration.Harmless(old(repo.db), repo.db)
    ensures Healthy(old(repo.db)) && repo.faults == old(repo.faults) ==> Healthy(repo.db)
    ensures repo.faults == old(repo.faults) ==>
      MigrationDone(old(repo.db), datastores, source, target, lastAccess, beforeTs, repo.db)
  {
    ghost var before := repo.db;
    var started; ghost var mid, first, second;
    started, mid, first, second := Migration.DatastoreMigrate(repo, datastores, source, target, lastAccess, beforeTs);
    if Healthy(before) && started && repo.faults == old(repo.faults) {
      RelocationKeepsHealth(before, first, mid, source, target);
      RelocationKeepsHealth(mid, second, repo.db, source, target);
    }
  }

  method ServeThumbnail(repo: Repo, req: Uploads.Request, of: Mxc, width: int, height: int, method_: string,
                        animated: bool)
    requires '/' !in req.mxc.origin && '/' !in req.datastoreId && '/' !in of.origin
    modifies repo
    ensures repo.faults >= old(repo.faults)
    ensures Healthy(old(repo.db)) && repo.faults == old(repo.faults) ==> Healthy(repo.db)
    ensures repo.faults == old(repo.faults) ==>
      ThumbnailDone(old(repo.db), req, of, width, height, method_, animated, repo.db)
  {
    ghost var before := repo.db;
    var stored; ghost var mid, r;
    stored, mid, r := Uploads.StoreThumbnail(repo, req, of, width, height, method_, animated);
    if Healthy(before) && stored.Some? { ThumbnailKeepsHealth(before, req, mid, r.record, stored.value); }
  }

  method ServeUpload(repo: Repo, req: Uploads.Request, withinQuota: bool)
    requires '/' !in req.mxc.origin && '/' !in req.datastoreId
    modifies repo
    ensures repo.faults >= old(repo.faults)
    ensures Healthy(old(repo.db)) && repo.faults == old(repo.faults) ==> Healthy(repo.db)
    ensures repo.faults == old(repo.faults) ==> UploadDone(old(repo.db), req, withinQuota, repo.db)
  {
    ghost var before := repo.db;
    var r := Uploads.Execute(repo, req, withinQuota);
    if Healthy(before) && r.Done? { UploadKeepsHealth(before, req, repo.db, r.record); }
  }

  method ServeQuarantine(repo: Repo, onlyHost: string, target: Quarantine.Target)
    modifies repo
    ensures repo.faults >= old(repo.faults)
    ensures Healthy(old(repo.db)) ==> Healthy(repo.db)
    ensures repo.faults == old(repo.faults) ==> QuarantineDone(old(repo.db), onlyHost, target, repo.db)
  {
    ghost var before := repo.db;
    var ok, total; ghost var records;
    ok, total, records := Quarantine.QuarantineMedia(repo, onlyHost, target);
    if Healthy(before) { QuarantineKeepsHealth(before, Quarantine.HashesOf(records, onlyHost), onlyHost); }
  }

  method ServeThumbnailPurge(repo: Repo, lt: ThumbnailOrder.TextOrder, expireDays: int, nowMillis: int)
    requires ThumbnailOrder.TotalOrder(lt)
    modifies repo
    ensures repo.faults >= old(repo.faults)
    ensures Healthy(old(repo.db)) && repo.faults == old(repo.faults) ==> Healthy(repo.db)
    ensures repo.faults == old(repo.faults) ==> ThumbnailPurgeDone(old(repo.db), expireDays, nowMillis, repo.db)
  {
    ghost var before := repo.db;
    ghost var cutoff := ThumbnailPurge.Cutoff(expireDays, nowMillis);
    ghost var complete, removed, visited := ThumbnailPurge.PurgeThumbnails(repo, lt, expireDays, nowMillis);
    if Healthy(before) && repo.faults == old(repo.faults) && expireDays > 0 {
      ThumbnailPurgeKeepsHealth(before, cutoff);
      assert repo.db == ThumbnailPurge.ThumbPurgeResult(before, cutoff);
    }
  }

  /** One command on a healthy repository: a purge never runs into a "logic error", and if
      no call fails, the repository is healthy afterwards and the command has been carried
      out. */
  method Serve(repo: Repo, lt: ThumbnailOrder.TextOrder, cmd: Command) returns (logicError: bool)
    requires ThumbnailOrder.TotalOrder(lt) && Allowed(cmd)
    modifies repo
    ensures repo.faults >= old(repo.faults)
    ensures Healthy(old(repo.db)) ==> !logicError
    ensures Healthy(old(repo.db)) && repo.faults == old(repo.faults) ==>
      Healthy(repo.db) && Done(old(repo.db), cmd, repo.db)
  {
    logicError := false;
    match cmd
    case Upload(req, withinQuota) => ServeUpload(repo, req, withinQuota);
    case StoreThumbnail(req, of, width, height, method_, animated) =>
      ServeThumbnail(repo, req, of, width, height, method_, animated);
    case QuarantineMedia(onlyHost, named) => ServeQuarantine(repo, onlyHost, named);
    case PurgeMedia(auth, wanted, single, uris, ours) =>
      logicError := ServePurge(repo, auth, wanted, single, uris, ours);
    case PurgeRemoteMedia(wanted, ours) => logicError := ServePurgeRemote(repo, wanted, ours);
    case PurgeThumbnails(expireDays, nowMillis) => ServeThumbnailPurge(repo, lt, expireDays, nowMillis);
    case DatastoreMigrate(datastores, source, target, lastAccess, beforeTs) =>
      ServeMigration(repo, datastores, source, target, lastAccess, beforeTs);
  }

  /** Any sequence of commands: as long as no call has failed, each has been carried out,
      the repository is healthy after each of them and no purge has run into a "logic
      error". */
  method ServeAll(repo: Repo, lt: ThumbnailOrder.TextOrder, commands: seq<Command>)
    returns (logicErrors: nat, ghost states: seq<Db>)
    requires ThumbnailOrder.TotalOrder(lt) && Healthy(repo.db)
    requires forall c | c in commands :: Allowed(c)
    modifies repo
    ensures repo.faults >= old(repo.faults)
    ensures |states| == |commands| + 1 && states[0] == old(repo.db) && states[|commands|] == repo.db
    ensures repo.faults == old(repo.faults) ==> logicErrors == 0 && forall s | s in states :: Healthy(s)
    ensures repo.faults == old(repo.faults) ==>
      forall i | 0 <= i < |commands| :: Done(states[i], commands[i], states[i + 1])
  {
    logicErrors, states := 0, [repo.db];
    for i := 0 to |commands|
      invariant repo.faults >= old(repo.faults)
      invariant |states| == i + 1 && states[0] == old(repo.db) && states[i] == repo.db
      invariant repo.faults == old(repo.faults) ==> logicErrors == 0 && forall s | s in states :: Healthy(s)
      invariant repo.faults == old(repo.faults) ==>
        forall k | 0 <= k < i :: Done(states[k], commands[k], states[k + 1])
    {
      assert commands[i] in commands && states[i] in states;
      var logicError := Serve(repo, lt, commands[i]);
      if logicError { logicErrors := logicErrors + 1; }
      states := states + [repo.db];
    }
  }
}
