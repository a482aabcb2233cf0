/** Whole lives of a repository: any sequence of uploads, thumbnail inserts, pins,
    quarantines, purges, thumbnail purges, migrations and preview cleanups, completed or
    broken off by a failed call. */
module Lifecycle {
  import opened Wrappers
  import opened Repository
  import Purge
  import ThumbnailPurge
  import Migration
  import Quarantine
  import Uploads

  datatype Op =
    | Upload(req: Uploads.Request, record: Media)
    | AddThumbnail(thumb: Thumbnail)
    | SetPin(x: Mxc, on: bool)
    | QuarantineHashes(hashes: set<Hash>, onlyHost: string)
    | PurgeRecords(records: seq<Media>, includeQuarantined: bool, ours: set<string>)
    | PurgeOldThumbnails(cutoff: int)
    | Migrate(moves: map<Location, Location>, source: string, target: string)
    | CleanUpPreview(image: Media)
    | RefuseUpload
    | MigrateWithFailures
    | BreakOffPurge(records: seq<Media>, includeQuarantined: bool)
    | BreakOffThumbnailPurge(cutoff: int)
    | BreakOffCleanup(image: Media)

  /** What each operation may do to the state. The relations are the postconditions of
      the methods that carry the operations out. An upload has passed the quarantine
      check at any time before; a thumbnail row and the record given to a cleanup may be
      as old as they like. */
  ghost predicate Step(s: Db, op: Op, t: Db) {
    match op
    case Upload(req, record) => Uploads.Answered(s, req, t, record)
    case AddThumbnail(thumb) => t == Uploads.ThumbInserted(s, thumb)
    case SetPin(x, on) => t == s.(pinned := if on then s.pinned + {x} else s.pinned - {x})
    case QuarantineHashes(hashes, onlyHost) => t == Quarantine.QuarantineResult(s, hashes, onlyHost)
    case PurgeRecords(records, iq, ours) =>
      Purge.Current(s, records) && t == Purge.PurgeResult(s, Purge.Listed(Purge.Kept(s, records, iq)), ours)
    case PurgeOldThumbnails(cutoff) => t == ThumbnailPurge.ThumbPurgeResult(s, cutoff)
    case Migrate(moves, source, target) =>
      source != target && Migration.ValidMoves(s, moves, source, target) && Migration.Migrated(s, moves, t)
    case CleanUpPreview(image) => t == Uploads.CleanupResult(s, image)
    case RefuseUpload => Uploads.OnlyStray(s, t)
    case MigrateWithFailures => Migration.Harmless(s, t)
    case BreakOffPurge(records, iq) =>
      Purge.Current(s, records) && Purge.PurgeSafe(s, Purge.Listed(Purge.Kept(s, records, iq)), t)
    case BreakOffThumbnailPurge(cutoff) => exists gone :: ThumbnailPurge.ThumbSafe(s, cutoff, t, gone)
    case BreakOffCleanup(image) => t == MediaDeleted(s, image.mxc)
  }

  /** The condition, before an operation, under which it keeps every row's object however
      it goes. It restricts only thumbnail inserts, preview cleanups and purges that
      break off. */
  ghost predicate IsSafe(s: Db, op: Op) {
    match op
    case AddThumbnail(thumb) => Stored(s, thumb.at, thumb.hash)
    case CleanUpPreview(image) => Uploads.SafeCleanup(s, image)
    case BreakOffPurge(records, iq) =>
      Purge.Current(s, records) ==> Purge.Robust(s, Purge.Listed(Purge.Kept(s, records, iq)))
    case BreakOffThumbnailPurge(cutoff) => ThumbnailPurge.NothingExpires(s, cutoff)
    case _ => true
  }

  /** The condition under which a step without failures leaves no object unused. It
      restricts only preview cleanups. */
  ghost predicate IsTidy(s: Db, op: Op) {
    op.CleanUpPreview? ==> Uploads.TidyCleanup(s, op.image)
  }

  ghost predicate Run(states: seq<Db>, ops: seq<Op>) {
    |states| == |ops| + 1 && forall i | 0 <= i < |ops| :: Step(states[i], ops[i], states[i + 1])
  }

  /** An operation in which no call failed. */
  predicate Faultless(op: Op) {
    !op.RefuseUpload? && !op.MigrateWithFailures? && !op.BreakOffPurge? && !op.BreakOffThumbnailPurge?
      && !op.BreakOffCleanup?
  }

  lemma SafeStepKeepsTheLaw(s: Db, op: Op, t: Db)
    requires Consistent(s) && Step(s, op, t) && IsSafe(s, op)
    ensures Consistent(t)
  {
    match op
    case Upload(req, record) => Uploads.UploadKeepsConsistency(s, req, t, record);
    case AddThumbnail(thumb) => Uploads.ThumbnailIsSoundIff(s, thumb);
    case SetPin(x, on) =>
    case QuarantineHashes(hashes, onlyHost) => Quarantine.QuarantineKeepsConsistency(s, hashes, onlyHost);
    case PurgeRecords(records, iq, ours) =>
      Purge.PurgeKeepsConsistency(s, Purge.Listed(Purge.Kept(s, records, iq)), ours);
    case PurgeOldThumbnails(cutoff) => ThumbnailPurge.ThumbPurgeKeepsConsistency(s, cutoff);
    case Migrate(moves, source, target) => Migration.MigratedKeepsConsistency(s, moves, t, source, target);
    case CleanUpPreview(image) => Uploads.CleanupIsSoundIff(s, image);
    case RefuseUpload => Uploads.StrayKeepsConsistency(s, t);
    case MigrateWithFailures =>
    case BreakOffPurge(records, iq) => Purge.RobustPurgesAreSound(s, Purge.Listed(Purge.Kept(s, records, iq)), t);
    case BreakOffThumbnailPurge(cutoff) => ThumbnailPurge.BrokenSweepsAreSoundIff(s, cutoff);
    case BreakOffCleanup(image) =>
  }

  /** Where the condition is not met, the operation can go wrong. */
  lemma UnsafeStepCanBreakTheLaw(s: Db, op: Op) returns (t: Db)
    requires Consistent(s) && !IsSafe(s, op)
    ensures Step(s, op, t) && !Consistent(t)
  {
    match op
    case AddThumbnail(thumb) =>
      t := Uploads.ThumbInserted(s, thumb);
      Uploads.ThumbnailIsSoundIff(s, thumb);
    case CleanUpPreview(image) =>
      t := Uploads.CleanupResult(s, image);
      Uploads.CleanupIsSoundIff(s, image);
    case BreakOffPurge(records, iq) =>
      var listed := Purge.Listed(Purge.Kept(s, records, iq));
      var at :| Purge.Removable(s, listed, at) && NeedsObject(s, at);
      t := ObjectRemoved(s, at);
      Purge.BrokenPurgeLosesAnObject(s, listed, at);
    case BreakOffThumbnailPurge(cutoff) =>
      var at :| ThumbnailPurge.Expired(s, cutoff, at);
      t := ObjectRemoved(s, at);
      ThumbnailPurge.BrokenSweepLosesAnObject(s, cutoff, at);
  }

  /** However an operation goes, it keeps the law, if and only if its condition is met. */
  lemma StepIsSoundIff(s: Db, op: Op)
    requires Consistent(s)
    ensures (forall t | Step(s, op, t) :: Consistent(t)) <==> IsSafe(s, op)
  {
    if IsSafe(s, op) {
      forall t | Step(s, op, t) ensures Consistent(t) { SafeStepKeepsTheLaw(s, op, t); }
    } else {
      var t := UnsafeStepCanBreakTheLaw(s, op);
    }
  }

  /** Without failures there is one way to go. */
  lemma FaultlessStepIsSoundIff(s: Db, op: Op, t: Db)
    requires Consistent(s) && Step(s, op, t) && Faultless(op)
    ensures Consistent(t) <==> IsSafe(s, op)
  {
    if IsSafe(s, op) {
      SafeStepKeepsTheLaw(s, op, t);
    } else {
      var u := UnsafeStepCanBreakTheLaw(s, op);
      assert t == u;
    }
  }

  lemma StepLeaksNothingIff(s: Db, op: Op, t: Db)
    requires Consistent(s) && NoOrphans(s) && Step(s, op, t) && Faultless(op)
    ensures NoOrphans(t) <==> IsTidy(s, op)
  {
    match op
    case Upload(req, record) => Uploads.UploadLeaksNothing(s, req, t, record);
    case QuarantineHashes(hashes, onlyHost) => Quarantine.QuarantineKeepsConsistency(s, hashes, onlyHost);
    case PurgeRecords(records, iq, ours) =>
      Purge.PurgeKeepsConsistency(s, Purge.Listed(Purge.Kept(s, records, iq)), ours);
    case PurgeOldThumbnails(cutoff) => ThumbnailPurge.ThumbPurgeKeepsConsistency(s, cutoff);
    case Migrate(moves, source, target) => Migration.MigratedKeepsConsistency(s, moves, t, source, target);
    case CleanUpPreview(image) => Uploads.CleanupLeaksNothingIff(s, image);
    case AddThumbnail(_) => UsersStay(s, t);
    case SetPin(_, _) => UsersStay(s, t);
  }

  lemma UsersStay(s: Db, t: Db)
    requires s.media <= t.media && s.thumbs <= t.thumbs && t.objects == s.objects && NoOrphans(s)
    ensures NoOrphans(t)
  {
    forall at | at in t.objects ensures UsersOf(t, at) != {} {
      assert UsersOf(s, at) <= UsersOf(t, at);
    }
  }

  lemma {:induction false} SafeStepsKeepTheLaw(states: seq<Db>, ops: seq<Op>, i: nat)
    requires Run(states, ops) && Consistent(states[0]) && i < |states|
    requires forall k | 0 <= k < i :: IsSafe(states[k], ops[k])
    ensures Consistent(states[i])
    decreases i
  {
    if i > 0 {
      SafeStepsKeepTheLaw(states, ops, i - 1);
      SafeStepKeepsTheLaw(states[i - 1], ops[i - 1], states[i]);
    }
  }

  /** A run of the first `n` operations. */
  ghost predicate RunFrom(s: Db, states: seq<Db>, ops: seq<Op>, n: nat)
    requires n <= |ops|
  {
    Run(states, ops[..n]) && states[0] == s
  }

  ghost predicate LawHolds(s: Db, ops: seq<Op>) {
    forall states, n: nat | n <= |ops| && RunFrom(s, states, ops, n) :: Consistent(states[n])
  }

  /** Wherever a run of the operations has got to, the next one meets its condition. */
  ghost predicate AllSafe(s: Db, ops: seq<Op>) {
    forall states, n: nat | n < |ops| && RunFrom(s, states, ops, n) :: IsSafe(states[n], ops[n])
  }

  lemma SafeRunsKeepTheLaw(s: Db, ops: seq<Op>, states: seq<Db>, n: nat)
    requires Consistent(s) && AllSafe(s, ops) && n <= |ops| && RunFrom(s, states, ops, n)
    ensures Consistent(states[n])
  {
    forall k | 0 <= k < n ensures IsSafe(states[k], ops[..n][k]) {
      assert ops[..n][..k] == ops[..k] && RunFrom(s, states[..k + 1], ops, k);
    }
    SafeStepsKeepTheLaw(states, ops[..n], n);
  }

  lemma UnsafeRunsBreakTheLaw(s: Db, ops: seq<Op>, states: seq<Db>, n: nat)
    requires n < |ops| && RunFrom(s, states, ops, n) && Consistent(states[n]) && !IsSafe(states[n], ops[n])
    ensures !LawHolds(s, ops)
  {
    var t := UnsafeStepCanBreakTheLaw(states[n], ops[n]);
    var more := states + [t];
    assert ops[..n + 1] == ops[..n] + [ops[n]];
    assert RunFrom(s, more, ops, n + 1) && more[n + 1] == t;
  }

  /** The central law. For any sequence of operations on a consistent repository, however
      they go and whatever fails: every thumbnail and every media row that is not
      quarantined always has a stored object with its hash, IDs stay unique and the rows
      of one hash share one location, if and only if each thumbnail is inserted while its
      object is there, each preview cleanup happens where another media row or no
      thumbnail shares the object, and nothing needs the objects that a purge which
      breaks off may remove. */
  lemma NoRowEverLosesItsObject(s: Db, ops: seq<Op>)
    requires Consistent(s)
    ensures LawHolds(s, ops) <==> AllSafe(s, ops)
  {
    if AllSafe(s, ops) {
      forall states, n: nat | n <= |ops| && RunFrom(s, states, ops, n) ensures Consistent(states[n]) {
        SafeRunsKeepTheLaw(s, ops, states, n);
      }
    }
    if LawHolds(s, ops) {
      forall states, n: nat | n < |ops| && RunFrom(s, states, ops, n) ensures IsSafe(states[n], ops[n]) {
        assert Consistent(states[n]);
        if !IsSafe(states[n], ops[n]) { UnsafeRunsBreakTheLaw(s, ops, states, n); }
      }
    }
  }

  ghost predicate Healthy(db: Db) {
    Consistent(db) && NoOrphans(db)
  }

  ghost predicate IsGood(s: Db, op: Op) {
    IsSafe(s, op) && IsTidy(s, op)
  }

  lemma StepIsHealthyIff(s: Db, op: Op, t: Db)
    requires Healthy(s) && Step(s, op, t) && Faultless(op)
    ensures Healthy(t) <==> IsGood(s, op)
  {
    FaultlessStepIsSoundIff(s, op, t);
    StepLeaksNothingIff(s, op, t);
  }

  lemma {:induction false} GoodStepsKeepHealth(states: seq<Db>, ops: seq<Op>, i: nat)
    requires Run(states, ops) && Healthy(states[0]) && i < |states|
    requires forall k | 0 <= k < i :: Faultless(ops[k]) && IsGood(states[k], ops[k])
    ensures Healthy(states[i])
    decreases i
  {
    if i > 0 {
      GoodStepsKeepHealth(states, ops, i - 1);
      StepIsHealthyIff(states[i - 1], ops[i - 1], states[i]);
    }
  }

  /** And in every run without failures no object is ever left unused either, if and only
      if moreover no cleanup is called with a record that has moved in the meantime. */
  lemma NoObjectEverLeaks(states: seq<Db>, ops: seq<Op>)
    requires Run(states, ops) && Healthy(states[0]) && forall i | 0 <= i < |ops| :: Faultless(ops[i])
    ensures (forall i | 0 <= i < |states| :: Healthy(states[i])) <==>
      forall i | 0 <= i < |ops| :: IsGood(states[i], ops[i])
  {
    if forall i | 0 <= i < |ops| :: IsGood(states[i], ops[i]) {
      forall i | 0 <= i < |states| ensures Healthy(states[i]) { GoodStepsKeepHealth(states, ops, i); }
    }
    if forall i | 0 <= i < |states| :: Healthy(states[i]) {
      forall i | 0 <= i < |ops| ensures IsGood(states[i], ops[i]) {
        StepIsHealthyIff(states[i], ops[i], states[i + 1]);
      }
    }
  }

  /** In particular an upload whose hash is not quarantined when it is looked up is never
      answered with a record whose object is gone, not even when a purge kept a
      quarantined row of that hash, as long as every step before it was safe. */
  lemma UploadsAreNeverAnsweredWithNothing(states: seq<Db>, ops: seq<Op>, i: nat)
    requires Run(states, ops) && Consistent(states[0]) && i < |ops| && ops[i].Upload?
    requires forall k | 0 <= k < i :: IsSafe(states[k], ops[k])
    ensures var record, s := ops[i].record, states[i + 1];
      && record in s.media && (record.quarantined || Stored(s, record.at, ops[i].req.hash))
      && (!HashQuarantined(states[i], ops[i].req.hash) ==>
            !record.quarantined && Stored(s, record.at, ops[i].req.hash))
  {
    SafeStepsKeepTheLaw(states, ops, i);
    Uploads.UploadedIsStored(states[i], ops[i].req, states[i + 1], ops[i].record);
  }

  // ----- the conditions are needed -----

  const EMPTY := Db({}, {}, {}, {}, map[])

  predicate Slashless(req: Uploads.Request) {
    '/' !in req.mxc.origin && '/' !in req.datastoreId
  }

  /** Two uploads of the same bytes: the object, its row, and then one more row. */
  lemma TwoUploads(p: Uploads.Request, q: Uploads.Request, at: Location)
    requires p.hash == q.hash && p.mxc != q.mxc && q.mustUseMediaId && at.datastoreId == p.datastoreId
    ensures var a, b := Uploads.NewRow(p, at), Uploads.NewRow(q, at);
      var one := Db({a}, {}, {}, {}, map[at := p.hash]);
      && Step(EMPTY, Upload(p, a), one)
      && Step(one, Upload(q, b), Db({a, b}, {}, {}, {}, map[at := p.hash]))
  {
    var a, b := Uploads.NewRow(p, at), Uploads.NewRow(q, at);
    var one := Db({a}, {}, {}, {}, map[at := p.hash]);
    assert one == Uploads.MediaInserted(ObjectWritten(EMPTY, at, p.hash), a);
    assert b == Uploads.RowLike(q, a);
    assert Uploads.MediaInserted(one, b) == Db({a, b}, {}, {}, {}, map[at := p.hash]) && a in one.media;
  }

  lemma KeptOne(db: Db, r: Media)
    requires r.mxc !in db.pinned && !r.quarantined
    ensures Purge.Listed(Purge.Kept(db, [r], false)) == {r.mxc}
  {
    Purge.KeptFilters(db, [r], false);
  }

  /** Purging the second of two rows leaves the first, the thumbnail and the object. */
  lemma PurgeSecond(db: Db, a: Media, b: Media, thumb: Thumbnail, at: Location, h: Hash)
    requires db == Db({a, b}, {thumb}, {}, {}, map[at := h]) && a.at == b.at == thumb.at == at
    requires a.mxc != b.mxc && thumb.of != b.mxc && !b.quarantined
    ensures Purge.PurgeResult(db, {b.mxc}, {}) == Db({a}, {thumb}, {}, {}, map[at := h])
  {
    assert a.mxc in UsersOf(db, at);
    var result := Purge.PurgeResult(db, {b.mxc}, {});
    assert result.objects == map[at := h] && result.media == {a} && result.thumbs == {thumb} && result.reserved == {};
  }

  lemma CleanupOfTheLastRow(a: Media, thumb: Thumbnail, h: Hash)
    requires thumb.at == a.at && thumb.hash == h
    ensures !Consistent(Uploads.CleanupResult(Db({a}, {thumb}, {}, {}, map[a.at := h]), a))
  {
    var db := Db({a}, {thumb}, {}, {}, map[a.at := h]);
    var now := Uploads.CleanupResult(db, a);
    assert MediaAt(MediaDeleted(db, a.mxc), a.at) == {};
    assert thumb in now.thumbs && a.at !in now.objects;
  }

  /** The states on the way: two rows of one object, a thumbnail, and one row purged. */
  lemma StepsToTheLastRow(p: Uploads.Request, q: Uploads.Request, at: Location, of: Mxc, thumb: Thumbnail)
    requires p.hash == q.hash && p.mxc != q.mxc && of != q.mxc && q.mustUseMediaId && at.datastoreId == p.datastoreId
    requires Slashless(p) && Slashless(q) && '/' !in of.origin
      && thumb == Uploads.ThumbOf(Uploads.NewRow(q, at), of, 0, 0, "", false)
    ensures var a, b := Uploads.NewRow(p, at), Uploads.NewRow(q, at);
      var two := Db({a, b}, {}, {}, {}, map[at := p.hash]);
      var three := Db({a, b}, {thumb}, {}, {}, map[at := p.hash]);
      && Step(two, AddThumbnail(thumb), three)
      && Step(three, PurgeRecords([b], false, {}), Db({a}, {thumb}, {}, {}, map[at := p.hash]))
  {
    var a, b := Uploads.NewRow(p, at), Uploads.NewRow(q, at);
    var three := Db({a, b}, {thumb}, {}, {}, map[at := p.hash]);
    KeptOne(three, b);
    PurgeSecond(three, a, b, thumb, at, p.hash);
  }

  /** A run the code can take, from an empty repository and without a failing call: a
      preview image is uploaded, a thumbnail turns out to have the same bytes, the media
      row behind the thumbnail is purged, and the preview is cleaned up. The thumbnail
      has lost its object. */
  lemma CleanupsCanBreakTheLaw(p: Uploads.Request, q: Uploads.Request, at: Location, of: Mxc)
    returns (states: seq<Db>, ops: seq<Op>)
    requires p.hash == q.hash && p.mxc != q.mxc && of != q.mxc && q.mustUseMediaId && at.datastoreId == p.datastoreId
    requires Slashless(p) && Slashless(q) && '/' !in of.origin
    ensures Run(states, ops) && states[0] == EMPTY && !Consistent(states[|ops|])
    ensures forall i | 0 <= i < |ops| :: Faultless(ops[i])
  {
    var a, b := Uploads.NewRow(p, at), Uploads.NewRow(q, at);
    var thumb := Uploads.ThumbOf(b, of, 0, 0, "", false);
    var objects := map[at := p.hash];
    var one, two := Db({a}, {}, {}, {}, objects), Db({a, b}, {}, {}, {}, objects);
    var three, four := Db({a, b}, {thumb}, {}, {}, objects), Db({a}, {thumb}, {}, {}, objects);
    TwoUploads(p, q, at);
    StepsToTheLastRow(p, q, at, of, thumb);
    CleanupOfTheLastRow(a, thumb, p.hash);
    states, ops := Five(EMPTY, Upload(p, a), one, Upload(q, b), two, AddThumbnail(thumb), three,
                        PurgeRecords([b], false, {}), four, CleanUpPreview(a), Uploads.CleanupResult(four, a));
  }

  lemma Five(a: Db, p: Op, b: Db, q: Op, c: Db, r: Op, d: Db, s: Op, e: Db, t: Op, f: Db)
    returns (states: seq<Db>, ops: seq<Op>)
    requires Step(a, p, b) && Step(b, q, c) && Step(c, r, d) && Step(d, s, e) && Step(e, t, f)
    ensures Run(states, ops) && states[0] == a && states[|ops|] == f && ops == [p, q, r, s, t]
  {
    states, ops := Go([a], [], p, b);
    states, ops := Go(states, ops, q, c);
    states, ops := Go(states, ops, r, d);
    states, ops := Go(states, ops, s, e);
    states, ops := Go(states, ops, t, f);
  }

  lemma Go(states: seq<Db>, ops: seq<Op>, op: Op, t: Db) returns (states': seq<Db>, ops': seq<Op>)
    requires Run(states, ops) && Step(states[|ops|], op, t)
    ensures Run(states', ops') && states'[0] == states[0] && states'[|ops'|] == t && ops' == ops + [op]
  {
    states', ops' := states + [t], ops + [op];
  }

  /** The other way: a purge stops between the removal of an object and the deletion of
      its row, and the next upload of the same bytes is answered with a record whose
      object is gone. */
  lemma BrokenPurgesAreHandedOut(p: Uploads.Request, q: Uploads.Request, at: Location)
    returns (states: seq<Db>, ops: seq<Op>)
    requires p.hash == q.hash && p.mxc != q.mxc && q.mustUseMediaId && at.datastoreId == p.datastoreId && Slashless(p)
    ensures Run(states, ops) && states[0] == EMPTY && |ops| == 3 && ops[2] == Upload(q, Uploads.NewRow(q, at))
    ensures !Stored(states[3], at, q.hash)
  {
    var a, b := Uploads.NewRow(p, at), Uploads.NewRow(q, at);
    var one := Db({a}, {}, {}, {}, map[at := p.hash]);
    var two := ObjectRemoved(one, at);
    TwoUploads(p, q, at);
    BrokenPurgeStep(one, a);
    assert a in two.media && Step(two, Upload(q, b), Uploads.MediaInserted(two, b));
    states, ops := [EMPTY], [];
    states, ops := Go(states, ops, Upload(p, a), one);
    states, ops := Go(states, ops, BreakOffPurge([a], false), two);
    states, ops := Go(states, ops, Upload(q, b), Uploads.MediaInserted(two, b));
  }

  lemma BrokenPurgeStep(db: Db, a: Media)
    requires !a.quarantined && '/' !in a.mxc.origin && '/' !in a.at.datastoreId
    requires db == Db({a}, {}, {}, {}, map[a.at := a.hash])
    ensures Step(db, BreakOffPurge([a], false), ObjectRemoved(db, a.at))
  {
    KeptOne(db, a);
    assert UsersOf(db, a.at) == {a.mxc};
    Purge.BrokenPurgeLosesAnObject(db, {a.mxc}, a.at);
  }

  /** Purging the only row, quarantined or not. */
  lemma PurgeOnly(a: Media)
    ensures var db := Db({a}, {}, {}, {}, map[a.at := a.hash]);
      Purge.PurgeResult(db, {a.mxc}, {}) == Db(if a.quarantined then {a} else {}, {}, {}, {}, map[])
  {
    var db := Db({a}, {}, {}, {}, map[a.at := a.hash]);
    assert UsersOf(db, a.at) == {a.mxc};
    var result := Purge.PurgeResult(db, {a.mxc}, {});
    assert result.objects == map[] && result.media == (if a.quarantined then {a} else {}) && result.reserved == {};
  }

  /** And without any failure or cleanup: the media row behind a thumbnail is purged
      before the thumbnail row is inserted. */
  lemma LateThumbnailsLoseTheirObjects(p: Uploads.Request, at: Location, of: Mxc)
    returns (states: seq<Db>, ops: seq<Op>)
    requires at.datastoreId == p.datastoreId && Slashless(p)
    ensures Run(states, ops) && states[0] == EMPTY && !Consistent(states[|ops|])
    ensures |ops| == 3 && ops[0].Upload? && ops[1].PurgeRecords? && ops[2].AddThumbnail?
  {
    var a := Uploads.NewRow(p, at);
    var thumb := Uploads.ThumbOf(a, of, 0, 0, "", false);
    var one := Db({a}, {}, {}, {}, map[at := p.hash]);
    assert one == Uploads.MediaInserted(ObjectWritten(EMPTY, at, p.hash), a);
    KeptOne(one, a);
    PurgeOnly(a);
    Uploads.ThumbnailIsSoundIff(EMPTY, thumb);
    states, ops := [EMPTY], [];
    states, ops := Go(states, ops, Upload(p, a), one);
    states, ops := Go(states, ops, PurgeRecords([a], false, {}), EMPTY);
    states, ops := Go(states, ops, AddThumbnail(thumb), Uploads.ThumbInserted(EMPTY, thumb));
  }

  lemma QuarantineOnly(a: Media)
    requires !a.quarantined
    ensures var db := Db({a}, {}, {}, {}, map[a.at := a.hash]);
      Quarantine.QuarantineResult(db, {a.hash}, "") == db.(media := {a.(quarantined := true)})
  {
    var db := Db({a}, {}, {}, {}, map[a.at := a.hash]);
    assert Quarantine.Flag(db, {a.hash}, "", a) == a.(quarantined := true);
  }

  /** A quarantine and a purge that keeps the flagged row, and then one more row like it. */
  lemma StepsToNothing(p: Uploads.Request, q: Uploads.Request, at: Location, flagged: Media, b: Media)
    requires p.hash == q.hash && p.mxc != q.mxc && q.mustUseMediaId && at.datastoreId == p.datastoreId && Slashless(p)
    requires flagged == Uploads.NewRow(p, at).(quarantined := true) && b == Uploads.RowLike(q, flagged)
    ensures var a := Uploads.NewRow(p, at);
      var one, two := Db({a}, {}, {}, {}, map[at := p.hash]), Db({flagged}, {}, {}, {}, map[at := p.hash]);
      var three := Db({flagged}, {}, {}, {}, map[]);
      && Step(EMPTY, Upload(p, a), one)
      && Step(one, QuarantineHashes({p.hash}, ""), two)
      && Step(two, PurgeRecords([flagged], true, {}), three)
      && Step(three, Upload(q, b), Db({flagged, b}, {}, {}, {}, map[]))
  {
    var a := Uploads.NewRow(p, at);
    var one, two := Db({a}, {}, {}, {}, map[at := p.hash]), Db({flagged}, {}, {}, {}, map[at := p.hash]);
    var three := Db({flagged}, {}, {}, {}, map[]);
    assert one == Uploads.MediaInserted(ObjectWritten(EMPTY, at, p.hash), a);
    QuarantineOnly(a);
    PurgeOnly(flagged);
    Purge.KeptFilters(two, [flagged], true);
    assert Purge.Listed(Purge.Kept(two, [flagged], true)) == {flagged.mxc};
    assert flagged in three.media && Uploads.MediaInserted(three, b) == Db({flagged, b}, {}, {}, {}, map[]);
  }

  lemma Four(a: Db, p: Op, b: Db, q: Op, c: Db, r: Op, d: Db, s: Op, e: Db) returns (states: seq<Db>, ops: seq<Op>)
    requires Step(a, p, b) && Step(b, q, c) && Step(c, r, d) && Step(d, s, e)
    ensures Run(states, ops) && |states| == 5 && states[0] == a && states[4] == e && ops == [p, q, r, s]
  {
    states, ops := Go([a], [], p, b);
    states, ops := Go(states, ops, q, c);
    states, ops := Go(states, ops, r, d);
    states, ops := Go(states, ops, s, e);
  }

  /** These operations have no condition. */
  predicate Unconditional(op: Op) {
    op.Upload? || op.QuarantineHashes? || op.PurgeRecords?
  }

  lemma UnconditionalIsSafe(states: seq<Db>, ops: seq<Op>)
    requires |states| > |ops| && forall i | 0 <= i < |ops| :: Unconditional(ops[i])
    ensures forall i | 0 <= i < |ops| :: IsSafe(states[i], ops[i]) && Faultless(ops[i])
  {}

  lemma NothingThere(flagged: Media, b: Media, h: Hash)
    ensures !Stored(Db({flagged, b}, {}, {}, {}, map[]), b.at, h)
  {}

  /** The quarantine has to be missing when the hash is looked up: an upload that passed
      the check before a quarantine and a purge is answered with a quarantined record
      whose object is gone, although no call fails and every operation meets its
      condition. */
  lemma LateUploadsGetNothing(p: Uploads.Request, q: Uploads.Request, at: Location)
    returns (states: seq<Db>, ops: seq<Op>)
    requires p.hash == q.hash && p.mxc != q.mxc && q.mustUseMediaId && at.datastoreId == p.datastoreId && Slashless(p)
    ensures Run(states, ops) && states[0] == EMPTY && |ops| == 4 && ops[3].Upload? && ops[3].req == q
    ensures ops[3].record.quarantined && !Stored(states[4], ops[3].record.at, q.hash)
    ensures forall i | 0 <= i < |ops| :: IsSafe(states[i], ops[i]) && Faultless(ops[i])
  {
    var a := Uploads.NewRow(p, at);
    var flagged := a.(quarantined := true);
    var b := Uploads.RowLike(q, flagged);
    var last := Db({flagged, b}, {}, {}, {}, map[]);
    StepsToNothing(p, q, at, flagged, b);
    NothingThere(flagged, b, q.hash);
    states, ops := Four(EMPTY, Upload(p, a), Db({a}, {}, {}, {}, map[at := p.hash]),
                        QuarantineHashes({p.hash}, ""), Db({flagged}, {}, {}, {}, map[at := p.hash]),
                        PurgeRecords([flagged], true, {}), Db({flagged}, {}, {}, {}, map[]), Upload(q, b), last);
    UnconditionalIsSafe(states, ops);
  }

  // ----- pins -----

  /** A pinned MXC keeps its row as it is, flag and all, and the object behind it, in any
      quarantine and any purge, completed or broken off. */
  lemma PinsProtect(s: Db, x: Mxc, mid: Db, op: Op, t: Db, m: Media)
    requires Step(s, SetPin(x, true), mid) && Step(mid, op, t)
    requires op.QuarantineHashes? || op.PurgeRecords? || op.BreakOffPurge?
    requires m in s.media && m.mxc == x
    ensures m in t.media && (forall h | Stored(s, m.at, h) :: Stored(t, m.at, h))
    ensures t.pinned == s.pinned + {x}
  {
    if op.QuarantineHashes? {
      assert Quarantine.Flag(mid, op.hashes, op.onlyHost, m) == m;
    } else {
      var kept := Purge.Kept(mid, op.records, op.includeQuarantined);
      Purge.KeptFilters(mid, op.records, op.includeQuarantined);
      assert x !in Purge.Listed(kept);
      if op.PurgeRecords? { Purge.PurgeResultIsSafe(mid, Purge.Listed(kept), op.ours); }
      Purge.OthersKeepTheirObjects(mid, Purge.Listed(kept), t);
    }
  }

  /** Taken off again, the pin protects no more: the row goes in a purge of its MXC. */
  lemma UnpinnedRowsGo(s: Db, x: Mxc, mid: Db, records: seq<Media>, ours: set<string>, t: Db, m: Media)
    requires Step(s, SetPin(x, false), mid) && Step(mid, PurgeRecords(records, true, ours), t)
    requires m in s.media && m.mxc == x && m in records && !m.quarantined
    ensures m !in t.media && t.pinned == s.pinned - {x}
  {
    Purge.KeptFilters(mid, records, true);
    assert m in Purge.Kept(mid, records, true);
  }
}
