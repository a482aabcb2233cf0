/** Moving objects from one datastore to another (tasks/task_runner/datastore_migrate.go). */
module Migration {
  import opened Wrappers
  import opened Repository

  /** One row of the last-access view, as far as the move looks at it. */
  datatype Access = Access(hash: Hash, at: Location)

  // ----- no row loses its object -----

  const NOWHERE := Location("", "")

  /** Rows without their location. The unique indexes of both tables do not mention
      the location, so this identifies a row across a move. */
  function Unplaced(m: Media): Media {
    m.(at := NOWHERE)
  }

  function UnplacedThumb(t: Thumbnail): Thumbnail {
    t.(at := NOWHERE)
  }

  function MediaRows(db: Db): set<Media> {
    set m | m in db.media :: Unplaced(m)
  }

  function ThumbRows(db: Db): set<Thumbnail> {
    set t | t in db.thumbs :: UnplacedThumb(t)
  }

  /** The rows whose location holds an object with the row's hash. */
  ghost function HeldMedia(db: Db): set<Media> {
    set m | m in db.media && Stored(db, m.at, m.hash) :: Unplaced(m)
  }

  ghost function HeldThumbs(db: Db): set<Thumbnail> {
    set t | t in db.thumbs && Stored(db, t.at, t.hash) :: UnplacedThumb(t)
  }

  /** The rows are the same up to their location, and no row that had an object with
      its hash has lost it. */
  ghost predicate Keeps(s: Db, t: Db) {
    && s.pinned == t.pinned && s.reserved == t.reserved
    && MediaRows(s) == MediaRows(t) && HeldMedia(s) <= HeldMedia(t)
    && ThumbRows(s) == ThumbRows(t) && HeldThumbs(s) <= HeldThumbs(t)
  }

  /** What every step of a migration keeps. */
  ghost predicate Harmless(s: Db, t: Db) {
    Keeps(s, t) && (Consistent(s) ==> Consistent(t))
  }

  lemma UnusedObjectIsHarmless(s: Db, t: Db, at: Location)
    requires SameBut(s, t, at) && UsersOf(s, at) == {}
    ensures Harmless(s, t)
  {
    assert s.media == t.media && s.thumbs == t.thumbs;
    forall m | m in s.media ensures m.at != at { assert m.at == at ==> m.mxc in UsersOf(s, at); }
    forall u | u in s.thumbs ensures u.at != at { assert u.at == at ==> u.of in UsersOf(s, at); }
    forall p | p != at
      ensures p in s.objects <==> p in t.objects
      ensures p in s.objects ==> s.objects[p] == t.objects[p]
    {
      SameElsewhere(s, t, at, p);
    }
  }

  lemma SameElsewhere(s: Db, t: Db, at: Location, p: Location)
    requires SameBut(s, t, at) && p != at
    ensures p in s.objects <==> p in t.objects
    ensures p in s.objects ==> s.objects[p] == t.objects[p]
  {
    assert s.objects - {at} == t.objects - {at};
    assert p in s.objects - {at} <==> p in s.objects;
    assert p in t.objects - {at} <==> p in t.objects;
  }

  lemma MovingMediaIsHarmless(s: Db, from: Location, to: Location, h: Hash)
    requires Stored(s, from, h) && Stored(s, to, h)
    ensures Harmless(s, MediaMoved(s, from, to))
  {
    var t := MediaMoved(s, from, to);
    assert t.objects == s.objects && t.thumbs == s.thumbs;
    MovedMediaRows(s, from, to, h);
    assert ThumbRows(s) == ThumbRows(t) && HeldThumbs(s) == HeldThumbs(t);
    MovingMediaKeepsConsistency(s, from, to, h);
  }

  lemma MovedMediaRows(s: Db, from: Location, to: Location, h: Hash)
    requires Stored(s, from, h) && Stored(s, to, h)
    ensures MediaRows(MediaMoved(s, from, to)) == MediaRows(s)
    ensures HeldMedia(s) <= HeldMedia(MediaMoved(s, from, to))
  {
    var t := MediaMoved(s, from, to);
    forall m | m in s.media
      ensures RowMoved(m, from, to) in t.media && Unplaced(RowMoved(m, from, to)) == Unplaced(m)
    {}
    forall x | x in HeldMedia(s)
      ensures x in HeldMedia(t)
    {
      var m :| m in s.media && Stored(s, m.at, m.hash) && x == Unplaced(m);
      var n := RowMoved(m, from, to);
      assert n in t.media && Stored(t, n.at, n.hash) && x == Unplaced(n);
    }
    forall x | x in MediaRows(s)
      ensures x in MediaRows(t)
    {
      var m :| m in s.media && x == Unplaced(m);
      assert RowMoved(m, from, to) in t.media;
    }
  }

  lemma MovingMediaKeepsConsistency(s: Db, from: Location, to: Location, h: Hash)
    requires Stored(s, from, h) && Stored(s, to, h)
    ensures Consistent(s) ==> Consistent(MediaMoved(s, from, to))
  {
    assert forall m | m in s.media && m.at == from :: m.at in s.objects;
  }

  lemma MovingThumbsIsHarmless(s: Db, from: Location, to: Location, h: Hash)
    requires Stored(s, from, h) && Stored(s, to, h)
    ensures Harmless(s, ThumbsMoved(s, from, to))
  {
    var t := ThumbsMoved(s, from, to);
    assert t.objects == s.objects && t.media == s.media;
    MovedThumbRows(s, from, to, h);
    assert MediaRows(s) == MediaRows(t) && HeldMedia(s) == HeldMedia(t);
  }

  lemma MovedThumbRows(s: Db, from: Location, to: Location, h: Hash)
    requires Stored(s, from, h) && Stored(s, to, h)
    ensures ThumbRows(ThumbsMoved(s, from, to)) == ThumbRows(s)
    ensures HeldThumbs(s) <= HeldThumbs(ThumbsMoved(s, from, to))
  {
    var t := ThumbsMoved(s, from, to);
    forall u | u in s.thumbs
      ensures ThumbMoved(u, from, to) in t.thumbs && UnplacedThumb(ThumbMoved(u, from, to)) == UnplacedThumb(u)
    {}
    forall x | x in HeldThumbs(s)
      ensures x in HeldThumbs(t)
    {
      var u :| u in s.thumbs && Stored(s, u.at, u.hash) && x == UnplacedThumb(u);
      var v := ThumbMoved(u, from, to);
      assert v in t.thumbs && Stored(t, v.at, v.hash) && x == UnplacedThumb(v);
    }
    forall x | x in ThumbRows(s)
      ensures x in ThumbRows(t)
    {
      var u :| u in s.thumbs && x == UnplacedThumb(u);
      assert ThumbMoved(u, from, to) in t.thumbs;
    }
  }

  lemma HarmlessTrans(s: Db, t: Db, w: Db)
    requires Harmless(s, t) && Harmless(t, w)
    ensures Harmless(s, w)
  {}

  // ----- moving one object -----

  ghost predicate HarmlessSince(repo: Repo, start: nat, before: Db)
    reads repo
  {
    && start <= |repo.history|
    && Harmless(before, repo.db)
    && forall k | start <= k < |repo.history| :: Harmless(before, repo.history[k])
  }

  ghost function Moved(db: Db, from: Location, to: Location, h: Hash): Db {
    ObjectRemoved(ThumbsMoved(MediaMoved(ObjectWritten(db, to, h), from, to), from, to), from)
  }

  lemma NobodyLeft(db: Db, from: Location, to: Location)
    requires from != to
    ensures UsersOf(ThumbsMoved(MediaMoved(db, from, to), from, to), from) == {}
  {}

  /** Each write of the move is harmless by itself. */
  lemma MoveSteps(db: Db, from: Location, to: Location, h: Hash)
    requires Stored(db, from, h) && Unused(db, to)
    ensures var s1 := ObjectWritten(db, to, h);
      var s2 := MediaMoved(s1, from, to);
      var s3 := ThumbsMoved(s2, from, to);
      Harmless(db, s1) && Harmless(s1, s2) && Harmless(s2, s3) && Harmless(s3, ObjectRemoved(s3, from))
  {
    var s1 := ObjectWritten(db, to, h);
    var s2 := MediaMoved(s1, from, to);
    var s3 := ThumbsMoved(s2, from, to);
    assert s1.objects - {to} == db.objects - {to};
    UnusedObjectIsHarmless(db, s1, to);
    MovingMediaIsHarmless(s1, from, to, h);
    MovingThumbsIsHarmless(s2, from, to, h);
    NobodyLeft(s1, from, to);
    assert ObjectRemoved(s3, from).objects - {from} == s3.objects - {from};
    UnusedObjectIsHarmless(s3, ObjectRemoved(s3, from), from);
  }

  method MoveOne(repo: Repo, record: Access, target: string, ghost before: Db, ghost start: nat)
    returns (moved: bool, to: Location)
    requires HarmlessSince(repo, start, before)
    modifies repo
    ensures HarmlessSince(repo, start, before) && old(repo.history) <= repo.history
    ensures repo.faults >= old(repo.faults)
    ensures moved ==> Stored(old(repo.db), record.at, record.hash)
    ensures moved ==>
      to.datastoreId == target && Unused(old(repo.db), to) && repo.db == Moved(old(repo.db), record.at, to, record.hash)
    ensures !moved && repo.faults == old(repo.faults) ==>
      repo.db == old(repo.db) && !Stored(repo.db, record.at, record.hash)
  {
    moved, to := false, NOWHERE;
    ghost var s0 := repo.db;
    var ok, content := repo.Download(record.at);
    if !ok { return; }
    ok, to := repo.Upload(target, content, record.hash);
    forall k | |old(repo.history)| <= k < |repo.history| ensures Harmless(before, repo.history[k]) {
      UnusedObjectIsHarmless(s0, repo.history[k], to);
      HarmlessTrans(before, s0, repo.history[k]);
    }
    UnusedObjectIsHarmless(s0, repo.db, to);
    HarmlessTrans(before, s0, repo.db);
    if !ok { return; }
    ghost var s1 := repo.db;
    MoveSteps(s0, record.at, to, content);
    ok := repo.UpdateMediaLocation(record.at, to);
    HarmlessTrans(before, s1, MediaMoved(s1, record.at, to));
    if !ok { return; }
    ghost var s2 := repo.db;
    ok := repo.UpdateThumbLocation(record.at, to);
    HarmlessTrans(before, s2, ThumbsMoved(s2, record.at, to));
    if !ok { return; }
    ghost var s3 := repo.db;
    ok := repo.RemoveObject(record.at);
    HarmlessTrans(before, s3, ObjectRemoved(s3, record.at));
    moved := ok;
  }

  // ----- a migration without failures -----

  function Placed(moves: map<Location, Location>, at: Location): Location {
    if at in moves then moves[at] else at
  }

  function PlacedMedia(moves: map<Location, Location>, m: Media): Media {
    m.(at := Placed(moves, m.at))
  }

  function PlacedThumb(moves: map<Location, Location>, t: Thumbnail): Thumbnail {
    t.(at := Placed(moves, t.at))
  }

  /** Distinct new places in the target, none of them in use before. */
  ghost predicate ValidMoves(db: Db, moves: map<Location, Location>, source: string, target: string) {
    && (forall p | p in moves ::
          p in db.objects && p.datastoreId == source && moves[p].datastoreId == target && Unused(db, moves[p]))
    && (forall p, q | p in moves && q in moves && moves[p] == moves[q] :: p == q)
  }

  /** The exact effect of moving the objects in `moves` and nothing else. */
  ghost predicate Migrated(before: Db, moves: map<Location, Location>, now: Db) {
    && now.pinned == before.pinned && now.reserved == before.reserved
    && now.media == (set m | m in before.media :: PlacedMedia(moves, m))
    && now.thumbs == (set t | t in before.thumbs :: PlacedThumb(moves, t))
    && ObjectsMoved(before.objects, moves, now.objects)
  }

  ghost predicate ObjectsMoved(before: map<Location, Hash>, moves: map<Location, Location>, now: map<Location, Hash>) {
    && now.Keys == (before.Keys - moves.Keys) + moves.Values
    && (forall at | at in before && at !in moves && at !in moves.Values :: now[at] == before[at])
    && (forall p | p in moves && p in before :: now[moves[p]] == before[p])
  }

  lemma ObjectsMovedExtends(before: map<Location, Hash>, moves: map<Location, Location>, now: map<Location, Hash>,
                            from: Location, to: Location)
    requires ObjectsMoved(before, moves, now)
    requires from in before && from !in moves && from !in moves.Values && to !in now && to !in before && to !in moves
    ensures ObjectsMoved(before, moves[from := to], now[to := before[from]] - {from})
  {
    var more := moves[from := to];
    assert more.Values == moves.Values + {to} by {
      assert more[from] == to;
      assert forall p | p in moves :: more[p] == moves[p];
    }
    assert forall p | p in moves :: moves[p] in moves.Values;
  }

  lemma MigratedExtends(before: Db, moves: map<Location, Location>, now: Db, from: Location, to: Location, h: Hash,
                        source: string, target: string)
    requires source != target && from.datastoreId == source && to.datastoreId == target
    requires ValidMoves(before, moves, source, target) && Migrated(before, moves, now)
    requires from !in moves && Stored(now, from, h) && Unused(now, to)
    ensures ValidMoves(before, moves[from := to], source, target)
    ensures Migrated(before, moves[from := to], Moved(now, from, to, h))
  {
    assert from !in moves.Values && from in before.objects && before.objects[from] == h;
    MovedRows(before, moves, now, from, to, h);
    UnusedBefore(before, moves, now, to, source, target);
    ObjectsMovedExtends(before.objects, moves, now.objects, from, to);
    ValidMovesExtend(before, moves, from, to, source, target);
  }

  lemma ValidMovesExtend(before: Db, moves: map<Location, Location>, from: Location, to: Location, source: string,
                         target: string)
    requires ValidMoves(before, moves, source, target) && from !in moves && to !in moves.Values
    requires from in before.objects && from.datastoreId == source && to.datastoreId == target && Unused(before, to)
    ensures ValidMoves(before, moves[from := to], source, target)
  {
    assert forall p | p in moves :: moves[p] in moves.Values;
  }

  lemma UnusedBefore(before: Db, moves: map<Location, Location>, now: Db, to: Location, source: string, target: string)
    requires source != target && to.datastoreId == target
    requires ValidMoves(before, moves, source, target) && Migrated(before, moves, now) && Unused(now, to)
    ensures Unused(before, to)
  {
    forall m | m in before.media ensures m.at != to {
      assert PlacedMedia(moves, m) in now.media;
      assert m.at == to ==> m.mxc in UsersOf(now, to);
    }
    forall t | t in before.thumbs ensures t.at != to {
      assert PlacedThumb(moves, t) in now.thumbs;
      assert t.at == to ==> t.of in UsersOf(now, to);
    }
  }

  lemma MovedRows(before: Db, moves: map<Location, Location>, now: Db, from: Location, to: Location, h: Hash)
    requires Migrated(before, moves, now) && from !in moves && from !in moves.Values
    ensures Moved(now, from, to, h).media == set m | m in before.media :: PlacedMedia(moves[from := to], m)
    ensures Moved(now, from, to, h).thumbs == set t | t in before.thumbs :: PlacedThumb(moves[from := to], t)
  {
    var next := Moved(now, from, to, h);
    forall m | m in before.media
      ensures PlacedMedia(moves, m) in now.media
      ensures RowMoved(PlacedMedia(moves, m), from, to) == PlacedMedia(moves[from := to], m)
    {}
    forall t | t in before.thumbs
      ensures PlacedThumb(moves, t) in now.thumbs
      ensures ThumbMoved(PlacedThumb(moves, t), from, to) == PlacedThumb(moves[from := to], t)
    {}
  }

  /** A failure-free migration loses nothing, leaks nothing and keeps deduplication. */
  lemma MigratedKeepsConsistency(before: Db, moves: map<Location, Location>, now: Db, source: string, target: string)
    requires source != target && Consistent(before)
    requires ValidMoves(before, moves, source, target) && Migrated(before, moves, now)
    ensures Consistent(now)
    ensures NoOrphans(before) ==> NoOrphans(now)
  {
    forall at | at in before.objects
      ensures Stored(now, Placed(moves, at), before.objects[at])
    {
      assert forall p | p in moves :: moves[p] !in before.objects;
    }
    forall m | m in before.media
      ensures m.at !in before.objects ==> Placed(moves, m.at) == m.at && m.at !in now.objects
    {
      assert m.mxc in UsersOf(before, m.at);
      assert forall p | p in moves :: UsersOf(before, moves[p]) == {};
    }
    if NoOrphans(before) {
      forall q | q in now.objects
        ensures UsersOf(now, q) != {}
      {
        if q in moves.Values {
          var p :| p in moves && moves[p] == q;
          UsersFollow(before, moves, now, p);
        } else {
          UsersFollow(before, moves, now, q);
        }
      }
    }
  }

  lemma UsersFollow(before: Db, moves: map<Location, Location>, now: Db, at: Location)
    requires Migrated(before, moves, now) && UsersOf(before, at) != {}
    ensures UsersOf(now, Placed(moves, at)) != {}
  {
    var x :| x in UsersOf(before, at);
    if m :| m in before.media && m.at == at && m.mxc == x {
      assert PlacedMedia(moves, m) in now.media && x in UsersOf(now, Placed(moves, at));
    } else {
      var t :| t in before.thumbs && t.at == at && t.of == x;
      assert PlacedThumb(moves, t) in now.thumbs && x in UsersOf(now, Placed(moves, at));
    }
  }

  // ----- the whole move -----

  /** The locations that a failure-free run of these records moves. */
  ghost function Movable(db: Db, records: seq<Access>): set<Location> {
    set r | r in records && Stored(db, r.at, r.hash) :: r.at
  }

  lemma SameDatastoreKeys(p: Location, q: Location)
    requires p.datastoreId == q.datastoreId && LocationId(p) == LocationId(q)
    ensures p == q
  {
    assert LocationId(p)[|p.datastoreId| + 1..] == p.name && LocationId(q)[|q.datastoreId| + 1..] == q.name;
  }

  lemma UntouchedSource(before: Db, moves: map<Location, Location>, now: Db, at: Location, h: Hash, source: string,
                        target: string)
    requires source != target && at.datastoreId == source && at !in moves
    requires ValidMoves(before, moves, source, target) && Migrated(before, moves, now)
    ensures Stored(now, at, h) <==> Stored(before, at, h)
  {
    assert at !in moves.Values;
  }

  /** The bookkeeping after the first records of a run without failures. */
  ghost predicate OnTrack(before: Db, records: seq<Access>, moves: map<Location, Location>, now: Db, done: set<string>,
                          source: string, target: string) {
    && ValidMoves(before, moves, source, target)
    && moves.Keys == Movable(before, records)
    && Migrated(before, moves, now)
    && done == LocationIds(moves.Keys)
  }

  lemma MovableExtends(before: Db, records: seq<Access>, i: nat)
    requires i < |records|
    ensures Movable(before, records[..i + 1]) ==
      Movable(before, records[..i]) + if Stored(before, records[i].at, records[i].hash) then {records[i].at} else {}
  {
    assert records[..i + 1] == records[..i] + [records[i]];
  }

  lemma TrackStays(before: Db, records: seq<Access>, i: nat, moves: map<Location, Location>, now: Db,
                   done: set<string>, source: string, target: string)
    requires source != target && i < |records| && records[i].at.datastoreId == source
    requires OnTrack(before, records[..i], moves, now, done, source, target)
    ensures LocationId(records[i].at) in done <==> records[i].at in moves
    ensures records[i].at in moves || !Stored(now, records[i].at, records[i].hash) ==>
      OnTrack(before, records[..i + 1], moves, now, done, source, target)
  {
    var r := records[i];
    MovableExtends(before, records, i);
    DoneMeansMoved(moves.Keys, r.at, source);
    if r.at !in moves {
      UntouchedSource(before, moves, now, r.at, r.hash, source, target);
    }
  }

  lemma LocationIdsExtend(places: set<Location>, at: Location)
    ensures LocationIds(places + {at}) == LocationIds(places) + {LocationId(at)}
  {}

  lemma TrackMoves(before: Db, records: seq<Access>, i: nat, moves: map<Location, Location>, now: Db,
                   done: set<string>, to: Location, source: string, target: string)
    requires source != target && i < |records| && records[i].at.datastoreId == source
    requires OnTrack(before, records[..i], moves, now, done, source, target)
    requires records[i].at !in moves && Stored(now, records[i].at, records[i].hash) && Unused(now, to)
      && to.datastoreId == target
    ensures OnTrack(before, records[..i + 1], moves[records[i].at := to],
                    Moved(now, records[i].at, to, records[i].hash),
                    done + {LocationId(records[i].at)}, source, target)
  {
    var r := records[i];
    MovableExtends(before, records, i);
    UntouchedSource(before, moves, now, r.at, r.hash, source, target);
    assert moves[r.at := to].Keys == moves.Keys + {r.at};
    LocationIdsExtend(moves.Keys, r.at);
    MigratedExtends(before, moves, now, r.at, to, r.hash, source, target);
  }

  lemma TrackStarts(before: Db, source: string, target: string)
    ensures OnTrack(before, [], map[], before, {}, source, target)
  {
    var none: map<Location, Location> := map[];
    assert before.media == set m | m in before.media :: PlacedMedia(none, m);
    assert before.thumbs == set t | t in before.thumbs :: PlacedThumb(none, t);
  }

  /** Whatever fails, every single state passed through is harmless. Without failures
      exactly the locations with an object of the expected hash have moved. */
  method MoveObjects(repo: Repo, records: seq<Access>, source: string, target: string)
    returns (ghost moves: map<Location, Location>)
    requires source != target
    requires forall r | r in records :: r.at.datastoreId == source
    modifies repo
    ensures HarmlessSince(repo, |old(repo.history)|, old(repo.db)) && old(repo.history) <= repo.history
    ensures repo.faults >= old(repo.faults)
    ensures repo.faults == old(repo.faults) ==>
      && ValidMoves(old(repo.db), moves, source, target)
      && moves.Keys == Movable(old(repo.db), records)
      && Migrated(old(repo.db), moves, repo.db)
  {
    ghost var before, start := repo.db, |repo.history|;
    var done: set<string> := {};
    moves := map[];
    TrackStarts(before, source, target);
    for i := 0 to |records|
      invariant HarmlessSince(repo, start, before) && old(repo.history) <= repo.history
        && repo.faults >= old(repo.faults)
      invariant repo.faults == old(repo.faults) ==> OnTrack(before, records[..i], moves, repo.db, done, source, target)
    {
      var record := records[i];
      assert record in records;
      ghost var now := repo.db;
      if repo.faults == old(repo.faults) { TrackStays(before, records, i, moves, now, done, source, target); }
      if LocationId(record.at) in done { continue; }
      var moved, to := MoveOne(repo, record, target, before, start);
      if moved {
        if repo.faults == old(repo.faults) { TrackMoves(before, records, i, moves, now, done, to, source, target); }
        moves := moves[record.at := to];
        done := done + {LocationId(record.at)};
      }
    }
    assert records[..|records|] == records;
  }

  lemma DoneMeansMoved(moved: set<Location>, at: Location, source: string)
    requires at.datastoreId == source && forall p | p in moved :: p.datastoreId == source
    ensures LocationId(at) in LocationIds(moved) <==> at in moved
  {
    forall p | p in moved && LocationId(p) == LocationId(at) ensures p == at { SameDatastoreKeys(p, at); }
  }

  // ----- the task -----

  /** Hashes last accessed before the given time. */
  predicate Stale(lastAccess: map<Hash, int>, beforeTs: int, hash: Hash) {
    hash in lastAccess && lastAccess[hash] < beforeTs
  }

  function StaleMedia(db: Db, source: string, lastAccess: map<Hash, int>, beforeTs: int): set<Access> {
    set m | m in db.media && m.at.datastoreId == source && Stale(lastAccess, beforeTs, m.hash) :: Access(m.hash, m.at)
  }

  function StaleThumbs(db: Db, source: string, lastAccess: map<Hash, int>, beforeTs: int): set<Access> {
    set t | t in db.thumbs && t.at.datastoreId == source && Stale(lastAccess, beforeTs, t.hash) :: Access(t.hash, t.at)
  }

  method Query(repo: Repo, view: set<Access>) returns (ok: bool, records: seq<Access>)
    modifies repo
    ensures repo.Looked(ok)
    ensures ok ==> forall r :: r in records <==> r in view
  {
    records := ToList(view);
    ok := *;
    if !ok { repo.faults := repo.faults + 1; }
  }

  /** No media row the migration was asked to move still sits on its object there. */
  ghost predicate MediaLeft(db: Db, source: string, lastAccess: map<Hash, int>, beforeTs: int) {
    forall m | m in db.media && m.hash in lastAccess && lastAccess[m.hash] < beforeTs && Stored(db, m.at, m.hash) ::
      m.at.datastoreId != source
  }

  ghost predicate ThumbsLeft(db: Db, source: string, lastAccess: map<Hash, int>, beforeTs: int) {
    forall t | t in db.thumbs && t.hash in lastAccess && lastAccess[t.hash] < beforeTs && Stored(db, t.at, t.hash) ::
      t.at.datastoreId != source
  }

  /** The places in the source that hold the object of a media row whose bytes were last
      accessed before the given time. */
  ghost function OldMediaPlaces(db: Db, source: string, lastAccess: map<Hash, int>, beforeTs: int): set<Location> {
    set m | m in db.media && m.at.datastoreId == source && m.hash in lastAccess && lastAccess[m.hash] < beforeTs
            && m.at in db.objects && db.objects[m.at] == m.hash :: m.at
  }

  ghost function OldThumbPlaces(db: Db, source: string, lastAccess: map<Hash, int>, beforeTs: int): set<Location> {
    set t | t in db.thumbs && t.at.datastoreId == source && t.hash in lastAccess && lastAccess[t.hash] < beforeTs
            && t.at in db.objects && db.objects[t.at] == t.hash :: t.at
  }

  lemma OldMediaIsFound(db: Db, records: seq<Access>, source: string, lastAccess: map<Hash, int>, beforeTs: int)
    requires forall r :: r in records <==> r in StaleMedia(db, source, lastAccess, beforeTs)
    ensures Movable(db, records) == OldMediaPlaces(db, source, lastAccess, beforeTs)
  {
    forall at | at in OldMediaPlaces(db, source, lastAccess, beforeTs) ensures at in Movable(db, records) {
      var m :| m in db.media && m.at == at && m.at.datastoreId == source && m.hash in lastAccess
        && lastAccess[m.hash] < beforeTs && Stored(db, m.at, m.hash);
      assert Access(m.hash, m.at) in StaleMedia(db, source, lastAccess, beforeTs);
    }
  }

  lemma OldThumbsAreFound(db: Db, records: seq<Access>, source: string, lastAccess: map<Hash, int>, beforeTs: int)
    requires forall r :: r in records <==> r in StaleThumbs(db, source, lastAccess, beforeTs)
    ensures Movable(db, records) == OldThumbPlaces(db, source, lastAccess, beforeTs)
  {
    forall at | at in OldThumbPlaces(db, source, lastAccess, beforeTs) ensures at in Movable(db, records) {
      var t :| t in db.thumbs && t.at == at && t.at.datastoreId == source && t.hash in lastAccess
        && lastAccess[t.hash] < beforeTs && Stored(db, t.at, t.hash);
      assert Access(t.hash, t.at) in StaleThumbs(db, source, lastAccess, beforeTs);
    }
  }

  /** What still sits on its object in the source after a pass was not moved by it. */
  lemma PassMoves(before: Db, records: seq<Access>, moves: map<Location, Location>, now: Db, source: string,
                  target: string)
    requires source != target && ValidMoves(before, moves, source, target)
    requires moves.Keys == Movable(before, records) && Migrated(before, moves, now)
    ensures forall m | m in now.media && m.at.datastoreId == source && Stored(now, m.at, m.hash) ::
      m in before.media && Stored(before, m.at, m.hash) && Access(m.hash, m.at) !in records
    ensures forall t | t in now.thumbs && t.at.datastoreId == source && Stored(now, t.at, t.hash) ::
      t in before.thumbs && Stored(before, t.at, t.hash) && Access(t.hash, t.at) !in records
  {
    forall at: Location, h: Hash | at.datastoreId == source && Stored(now, at, h)
      ensures at !in moves && Stored(before, at, h) && Access(h, at) !in records
    {
      assert at !in moves.Values;
      assert Access(h, at) in records ==> at in Movable(before, records) || !Stored(before, at, h);
    }
    forall m | m in now.media && m.at.datastoreId == source
      ensures m in before.media
    {
      var n :| n in before.media && m == PlacedMedia(moves, n);
    }
    forall t | t in now.thumbs && t.at.datastoreId == source
      ensures t in before.thumbs
    {
      var u :| u in before.thumbs && t == PlacedThumb(moves, u);
    }
  }

  lemma MediaPassDone(before: Db, records: seq<Access>, moves: map<Location, Location>, now: Db, source: string,
                      target: string, lastAccess: map<Hash, int>, beforeTs: int)
    requires source != target && ValidMoves(before, moves, source, target)
    requires moves.Keys == Movable(before, records) && Migrated(before, moves, now)
    requires forall r | r in StaleMedia(before, source, lastAccess, beforeTs) :: r in records
    ensures MediaLeft(now, source, lastAccess, beforeTs)
  {
    PassMoves(before, records, moves, now, source, target);
    forall m | m in now.media && Stale(lastAccess, beforeTs, m.hash) && Stored(now, m.at, m.hash)
      ensures m.at.datastoreId != source
    {
      assert m in before.media && m.at.datastoreId == source ==>
        Access(m.hash, m.at) in StaleMedia(before, source, lastAccess, beforeTs);
    }
  }

  lemma ThumbPassDone(before: Db, records: seq<Access>, moves: map<Location, Location>, now: Db, source: string,
                      target: string, lastAccess: map<Hash, int>, beforeTs: int)
    requires source != target && ValidMoves(before, moves, source, target)
    requires moves.Keys == Movable(before, records) && Migrated(before, moves, now)
    requires forall r | r in StaleThumbs(before, source, lastAccess, beforeTs) :: r in records
    ensures ThumbsLeft(now, source, lastAccess, beforeTs)
    ensures MediaLeft(before, source, lastAccess, beforeTs) ==> MediaLeft(now, source, lastAccess, beforeTs)
  {
    PassMoves(before, records, moves, now, source, target);
    forall t | t in now.thumbs && Stale(lastAccess, beforeTs, t.hash) && Stored(now, t.at, t.hash)
      ensures t.at.datastoreId != source
    {
      assert t in before.thumbs && t.at.datastoreId == source ==>
        Access(t.hash, t.at) in StaleThumbs(before, source, lastAccess, beforeTs);
    }
  }

  /** Nothing but objects moving to new places in the target, their rows with them. */
  ghost predicate Relocated(before: Db, moves: map<Location, Location>, now: Db, source: string, target: string) {
    ValidMoves(before, moves, source, target) && Migrated(before, moves, now)
  }

  method MigrateMedia(repo: Repo, source: string, target: string, lastAccess: map<Hash, int>, beforeTs: int)
    returns (ok: bool, ghost moves: map<Location, Location>)
    requires source != target
    modifies repo
    ensures HarmlessSince(repo, |old(repo.history)|, old(repo.db)) && old(repo.history) <= repo.history
    ensures repo.faults >= old(repo.faults) && (!ok ==> repo.faults > old(repo.faults))
    ensures repo.faults == old(repo.faults) ==>
      && Relocated(old(repo.db), moves, repo.db, source, target)
      && moves.Keys == OldMediaPlaces(old(repo.db), source, lastAccess, beforeTs)
      && MediaLeft(repo.db, source, lastAccess, beforeTs)
  {
    var records: seq<Access>;
    ghost var before := repo.db;
    moves := map[];
    ok, records := Query(repo, StaleMedia(repo.db, source, lastAccess, beforeTs));
    if !ok { return; }
    moves := MoveObjects(repo, records, source, target);
    if repo.faults == old(repo.faults) {
      OldMediaIsFound(before, records, source, lastAccess, beforeTs);
      MediaPassDone(before, records, moves, repo.db, source, target, lastAccess, beforeTs);
    }
  }

  method MigrateThumbs(repo: Repo, source: string, target: string, lastAccess: map<Hash, int>, beforeTs: int)
    returns (ok: bool, ghost moves: map<Location, Location>)
    requires source != target
    modifies repo
    ensures HarmlessSince(repo, |old(repo.history)|, old(repo.db)) && old(repo.history) <= repo.history
    ensures repo.faults >= old(repo.faults) && (!ok ==> repo.faults > old(repo.faults))
    ensures repo.faults == old(repo.faults) ==>
      && Relocated(old(repo.db), moves, repo.db, source, target)
      && moves.Keys == OldThumbPlaces(old(repo.db), source, lastAccess, beforeTs)
      && ThumbsLeft(repo.db, source, lastAccess, beforeTs)
      && (MediaLeft(old(repo.db), source, lastAccess, beforeTs) ==> MediaLeft(repo.db, source, lastAccess, beforeTs))
  {
    var records: seq<Access>;
    ghost var before := repo.db;
    moves := map[];
    ok, records := Query(repo, StaleThumbs(repo.db, source, lastAccess, beforeTs));
    if !ok { return; }
    moves := MoveObjects(repo, records, source, target);
    if repo.faults == old(repo.faults) {
      OldThumbsAreFound(before, records, source, lastAccess, beforeTs);
      ThumbPassDone(before, records, moves, repo.db, source, target, lastAccess, beforeTs);
    }
  }

  /** Refuses to start on bad parameters; otherwise moves the media and then the
      thumbnails. Harmless at every step whatever fails; complete if nothing does. */
  method DatastoreMigrate(repo: Repo, datastores: set<string>, source: string, target: string,
                          lastAccess: map<Hash, int>, beforeTs: int)
    returns (started: bool, ghost mid: Db, ghost first: map<Location, Location>, ghost second: map<Location, Location>)
    modifies repo
    ensures started == (source != target && source in datastores && target in datastores)
    ensures !started ==> repo.db == old(repo.db) && repo.history == old(repo.history)
    ensures HarmlessSince(repo, |old(repo.history)|, old(repo.db))
    ensures repo.faults >= old(repo.faults)
    ensures started && repo.faults == old(repo.faults) ==>
      && Relocated(old(repo.db), first, mid, source, target) && Relocated(mid, second, repo.db, source, target)
      && first.Keys == OldMediaPlaces(old(repo.db), source, lastAccess, beforeTs)
      && second.Keys == OldThumbPlaces(mid, source, lastAccess, beforeTs)
      && MediaLeft(repo.db, source, lastAccess, beforeTs) && ThumbsLeft(repo.db, source, lastAccess, beforeTs)
  {
    started := source != target && source in datastores && target in datastores;
    mid, first, second := repo.db, map[], map[];
    if !started { return; }
    var ok;
    ok, first := MigrateMedia(repo, source, target, lastAccess, beforeTs);
    if !ok { return; }
    mid := repo.db;
    ghost var h1 := repo.history;
    ok, second := MigrateThumbs(repo, source, target, lastAccess, beforeTs);
    forall k | |old(repo.history)| <= k < |repo.history| ensures Harmless(old(repo.db), repo.history[k]) {
      if k < |h1| { assert repo.history[k] == h1[k]; } else { HarmlessTrans(old(repo.db), mid, repo.history[k]); }
    }
    HarmlessTrans(old(repo.db), mid, repo.db);
  }
}
