/** Purging media (tasks/task_runner/purge.go): a three-stage reference count over
    string keys that must remove an object exactly when nothing outside the purge
    list uses it. */
module Purge {
  import opened Wrappers
  import opened Repository
  import opened Quarantine

  datatype Outcome = Purged(mxcs: seq<string>) | StoreError | LogicError | WrongUser | BadRequest

  datatype Status = Fine | Failed | Broken

  /** Outer key: location ID. Inner key: MXC URI of a user, value: in the list. */
  type Flags = map<string, map<string, bool>>

  // ----- what a purge means -----

  function Kept(db: Db, records: seq<Media>, includeQuarantined: bool): seq<Media> {
    if records == [] then []
    else
      var rest := Kept(db, records[..|records| - 1], includeQuarantined);
      var r := records[|records| - 1];
      if (r.quarantined && !includeQuarantined) || r.mxc in db.pinned then rest else rest + [r]
  }

  function Listed(records: seq<Media>): set<Mxc> {
    set r | r in records :: r.mxc
  }

  function Uris(records: seq<Media>): seq<string> {
    seq(|records|, i requires 0 <= i < |records| => MxcUri(records[i].mxc))
  }

  /** Somebody uses the location and everybody who does is being purged. */
  predicate Removable(db: Db, listed: set<Mxc>, at: Location) {
    UsersOf(db, at) != {} && UsersOf(db, at) <= listed
  }

  ghost function PurgeResult(db: Db, listed: set<Mxc>, ours: set<string>): Db {
    Db(
      (set m | m in db.media && (m.mxc !in listed || m.quarantined)),
      (set t | t in db.thumbs && t.of !in listed),
      db.pinned,
      db.reserved + (set x | x in listed && x.origin in ours),
      map at | at in db.objects && !Removable(db, listed, at) :: db.objects[at])
  }

  /** Everything a purge of `listed` that stops anywhere may have done. */
  ghost predicate PurgeSafe(before: Db, listed: set<Mxc>, now: Db) {
    && now.media <= before.media
    && (forall m | m in before.media && m !in now.media :: m.mxc in listed && !m.quarantined)
    && now.thumbs <= before.thumbs
    && (forall t | t in before.thumbs && t !in now.thumbs :: t.of in listed)
    && now.pinned == before.pinned
    && before.reserved <= now.reserved <= before.reserved + listed
    && (forall at | at in now.objects :: at in before.objects && now.objects[at] == before.objects[at])
    && (forall at | at in before.objects && at !in now.objects :: Removable(before, listed, at))
  }

  // ----- consequences -----

  lemma {:induction false} KeptFilters(db: Db, records: seq<Media>, iq: bool)
    ensures forall r :: r in Kept(db, records, iq) <==>
      r in records && r.mxc !in db.pinned && (iq || !r.quarantined)
  {
    if records != [] {
      var init := records[..|records| - 1];
      KeptFilters(db, init, iq);
      assert records == init + [records[|records| - 1]];
    }
  }

  lemma KeptIsCurrent(db: Db, records: seq<Media>, iq: bool)
    requires Current(db, records)
    ensures Current(db, Kept(db, records, iq))
  {
    KeptFilters(db, records, iq);
  }

  /** A purge that stopped anywhere has not touched a row of an MXC outside the
      list, nor the object behind it. */
  lemma OthersKeepTheirObjects(before: Db, listed: set<Mxc>, now: Db)
    requires PurgeSafe(before, listed, now)
    ensures forall m | m in before.media && m.mxc !in listed ::
      m in now.media && (forall h | Stored(before, m.at, h) :: Stored(now, m.at, h))
    ensures forall t | t in before.thumbs && t.of !in listed ::
      t in now.thumbs && (forall h | Stored(before, t.at, h) :: Stored(now, t.at, h))
  {
    forall m | m in before.media && m.mxc !in listed && m.at in before.objects
      ensures m.at in now.objects
    {
      assert m.mxc in UsersOf(before, m.at);
    }
    forall t | t in before.thumbs && t.of !in listed && t.at in before.objects
      ensures t.at in now.objects
    {
      assert t.of in UsersOf(before, t.at);
    }
  }

  lemma PurgeResultIsSafe(db: Db, listed: set<Mxc>, ours: set<string>)
    ensures PurgeSafe(db, listed, PurgeResult(db, listed, ours))
  {
    assert listed * listed == listed;
  }

  /** A completed purge loses no object a remaining row needs, and leaks none. */
  lemma PurgeKeepsConsistency(db: Db, listed: set<Mxc>, ours: set<string>)
    requires Consistent(db)
    ensures Consistent(PurgeResult(db, listed, ours))
    ensures NoOrphans(db) ==> NoOrphans(PurgeResult(db, listed, ours))
  {
    var now := PurgeResult(db, listed, ours);
    PurgeResultIsSafe(db, listed, ours);
    OthersKeepTheirObjects(db, listed, now);
    if NoOrphans(db) {
      forall at | at in now.objects
        ensures UsersOf(now, at) != {}
      {
        var x :| x in UsersOf(db, at) && x !in listed;
        assert x in UsersOf(now, at);
      }
    }
  }

  /** No place the purge has emptied still has a thumbnail or an unquarantined row. */
  ghost predicate CleanBreak(before: Db, now: Db) {
    forall at | at in before.objects && at !in now.objects ::
      ThumbsAt(now, at) == {} && forall m | m in now.media && m.at == at :: m.quarantined
  }

  /** A purge that breaks off, wherever it does, keeps every row's object exactly if it
      has got rid of the rows of each object it removed. */
  lemma BrokenPurgeIsSoundIff(before: Db, listed: set<Mxc>, now: Db)
    requires Consistent(before) && PurgeSafe(before, listed, now)
    ensures Consistent(now) <==> CleanBreak(before, now)
  {
    if CleanBreak(before, now) {
      forall t | t in now.thumbs ensures Stored(now, t.at, t.hash) { assert t in ThumbsAt(now, t.at); }
    }
    if Consistent(now) {
      forall at | at in before.objects && at !in now.objects
        ensures ThumbsAt(now, at) == {} && forall m | m in now.media && m.at == at :: m.quarantined
      {
        assert forall t | t in ThumbsAt(now, at) :: Stored(now, at, t.hash);
      }
    }
  }

  /** No object the purge may take is needed by a thumbnail or an unquarantined row: it
      reaches only objects of quarantined rows and objects of rows that are gone. */
  ghost predicate Robust(db: Db, listed: set<Mxc>) {
    forall at | Removable(db, listed, at) :: !NeedsObject(db, at)
  }

  /** A purge stopped between the removal of an object and the deletion of its rows. */
  lemma BrokenPurgeLosesAnObject(db: Db, listed: set<Mxc>, at: Location)
    requires Consistent(db) && Removable(db, listed, at) && NeedsObject(db, at)
    ensures PurgeSafe(db, listed, ObjectRemoved(db, at)) && !Consistent(ObjectRemoved(db, at))
  {
    var now := ObjectRemoved(db, at);
    assert NeedsObject(now, at);
    if Consistent(now) { NeedyPlacesAreStored(now, at); }
  }

  lemma RobustPurgesAreSound(db: Db, listed: set<Mxc>, now: Db)
    requires Consistent(db) && Robust(db, listed) && PurgeSafe(db, listed, now)
    ensures Consistent(now)
  {
    forall at | at in db.objects && at !in now.objects
      ensures ThumbsAt(now, at) == {} && forall m | m in now.media && m.at == at :: m.quarantined
    {
      assert !NeedsObject(db, at) && ThumbsAt(now, at) <= ThumbsAt(db, at);
    }
    BrokenPurgeIsSoundIff(db, listed, now);
  }

  /** Wherever a purge of the list may break off, the law is kept, if and only if nothing
      in the table before it needs an object it may remove. */
  lemma BrokenPurgesAreSoundIff(db: Db, listed: set<Mxc>)
    requires Consistent(db)
    ensures (forall now | PurgeSafe(db, listed, now) :: Consistent(now)) <==> Robust(db, listed)
  {
    if Robust(db, listed) {
      forall now | PurgeSafe(db, listed, now) ensures Consistent(now) { RobustPurgesAreSound(db, listed, now); }
    } else {
      var at :| Removable(db, listed, at) && NeedsObject(db, at);
      BrokenPurgeLosesAnObject(db, listed, at);
    }
  }

  /** An object that a row before the purge needed is gone. */
  ghost predicate Lost(before: Db, now: Db) {
    exists at :: at in before.objects && at !in now.objects && NeedsObject(before, at)
  }

  // ----- stage 1: find everybody who uses the affected locations -----

  function UserUris(db: Db, at: Location): set<string> {
    set x | x in UsersOf(db, at) :: MxcUri(x)
  }

  function WithLocation(db: Db, flags: Flags, at: Location): Flags {
    if LocationId(at) in flags then flags
    else flags[LocationId(at) := map u | u in UserUris(db, at) :: false]
  }

  method FlagLocation(repo: Repo, flags: Flags, at: Location) returns (ok: bool, out: Flags)
    modifies repo
    ensures repo.db == old(repo.db) && repo.history == old(repo.history)
    ensures if ok then repo.faults == old(repo.faults) else repo.faults > old(repo.faults)
    ensures ok ==> out == WithLocation(repo.db, flags, at)
  {
    out := flags;
    if LocationId(at) in flags {
      return true, flags;
    }
    var inner: map<string, bool> := map[];
    var media: seq<Media>, thumbs: seq<Thumbnail>;
    ok, media := repo.GetMediaByLocation(at);
    if !ok { return; }
    for i := 0 to |media|
      invariant forall u :: u in inner <==> exists k | 0 <= k < i :: u == MxcUri(media[k].mxc)
      invariant forall u | u in inner :: !inner[u]
    {
      inner := inner[MxcUri(media[i].mxc) := false];
    }
    ghost var first := inner;
    ok, thumbs := repo.GetThumbsByLocation(at);
    if !ok { return; }
    for i := 0 to |thumbs|
      invariant forall u :: u in inner <==> u in first || exists k | 0 <= k < i :: u == MxcUri(thumbs[k].of)
      invariant forall u | u in inner :: !inner[u]
    {
      inner := inner[MxcUri(thumbs[i].of) := false];
    }
    AllUsersFlagged(repo.db, at, media, thumbs, first.Keys, inner);
    out := flags[LocationId(at) := inner];
  }

  lemma AllUsersFlagged(db: Db, at: Location, media: seq<Media>, thumbs: seq<Thumbnail>,
                        first: set<string>, inner: map<string, bool>)
    requires forall m :: m in media <==> m in MediaAt(db, at)
    requires forall t :: t in thumbs <==> t in ThumbsAt(db, at)
    requires forall u :: u in first <==> exists k | 0 <= k < |media| :: u == MxcUri(media[k].mxc)
    requires forall u :: u in inner <==> u in first || exists k | 0 <= k < |thumbs| :: u == MxcUri(thumbs[k].of)
    requires forall u | u in inner :: !inner[u]
    ensures inner == map u | u in UserUris(db, at) :: false
  {
    var users := UserUris(db, at);
    forall u | u in users
      ensures u in inner
    {
      var x :| x in UsersOf(db, at) && u == MxcUri(x);
      if m :| m in db.media && m.at == at && m.mxc == x {
        assert m in media;
      } else {
        var t :| t in db.thumbs && t.at == at && t.of == x;
        assert t in thumbs;
      }
    }
    forall u | u in inner
      ensures u in users
    {
      if u in first {
        var k :| 0 <= k < |media| && u == MxcUri(media[k].mxc);
        assert media[k] in media;
        assert media[k].mxc in UsersOf(db, at);
      } else {
        var k :| 0 <= k < |thumbs| && u == MxcUri(thumbs[k].of);
        assert thumbs[k] in thumbs;
        assert thumbs[k].of in UsersOf(db, at);
      }
    }
    assert inner.Keys == users;
  }

  // ----- the flag map, read back through the string keys -----

  /** `flags` covers exactly the locations in `seen`, lists exactly their users, and
      the users marked so far are the pairs in `marked`. */
  ghost predicate Shows(db: Db, flags: Flags, seen: set<Location>, marked: set<(Location, Mxc)>) {
    && flags.Keys == LocationIds(seen)
    && (forall at | at in seen :: '/' !in at.datastoreId && UsersShown(flags[LocationId(at)], db, at, marked))
  }

  ghost predicate UsersShown(row: map<string, bool>, db: Db, at: Location, marked: set<(Location, Mxc)>) {
    && row.Keys == UserUris(db, at)
    && (forall x | x in UsersOf(db, at) :: row[MxcUri(x)] == ((at, x) in marked))
  }

  lemma UserOriginsHaveNoSlash(db: Db, at: Location)
    requires WellKeyed(db)
    ensures forall x | x in UsersOf(db, at) :: '/' !in x.origin
  {}

  lemma FlaggingShows(db: Db, flags: Flags, seen: set<Location>, at: Location)
    requires WellKeyed(db) && '/' !in at.datastoreId
    requires Shows(db, flags, seen, {})
    ensures Shows(db, WithLocation(db, flags, at), seen + {at}, {})
  {
    var next := WithLocation(db, flags, at);
    var someone := Mxc("", "");
    forall p | p in seen && LocationId(p) == LocationId(at)
      ensures p == at
    {
      KeysAreInjective(someone, someone, p, at);
    }
    if LocationId(at) in flags {
      assert seen + {at} == seen;
    }
  }

  // ----- stage 1 as a whole -----

  ghost predicate ThumbsFound(db: Db, records: seq<Media>, found: map<string, seq<Thumbnail>>) {
    forall r | r in records ::
      && MxcUri(r.mxc) in found
      && (forall t :: t in found[MxcUri(r.mxc)] <==> t in ThumbsOf(db, r.mxc))
  }

  ghost predicate InUse(db: Db, seen: set<Location>) {
    forall at | at in seen :: UsersOf(db, at) != {}
  }

  ghost predicate Covers(db: Db, records: seq<Media>, seen: set<Location>) {
    forall r | r in records :: r.at in seen && forall t | t in ThumbsOf(db, r.mxc) :: t.at in seen
  }

  /** The premise of the exactness claims: the unique index holds, the string keys
      are unambiguous, and the records to purge are rows of the table. */
  ghost predicate Current(db: Db, records: seq<Media>) {
    UniqueIds(db) && WellKeyed(db) && forall r | r in records :: r in db.media
  }

  function SpotsOf(thumbs: seq<Thumbnail>): (spots: seq<Location>)
    ensures |spots| == |thumbs| && forall i | 0 <= i < |thumbs| :: spots[i] == thumbs[i].at
  {
    if thumbs == [] then [] else SpotsOf(thumbs[..|thumbs| - 1]) + [thumbs[|thumbs| - 1].at]
  }

  /** The locations stage 1 comes by, in order: each record's, then those of the
      thumbnails the query returned for it. */
  function Places(records: seq<Media>, lists: seq<seq<Thumbnail>>): seq<Location>
    requires |lists| == |records|
  {
    if records == [] then []
    else
      var n := |records| - 1;
      Places(records[..n], lists[..n]) + [records[n].at] + SpotsOf(lists[n])
  }

  function SeenAt(places: seq<Location>): set<Location> {
    set p | p in places
  }

  function FlagPlaces(db: Db, places: seq<Location>): Flags {
    if places == [] then map[] else WithLocation(db, FlagPlaces(db, places[..|places| - 1]), places[|places| - 1])
  }

  function FoundOf(records: seq<Media>, lists: seq<seq<Thumbnail>>): map<string, seq<Thumbnail>>
    requires |lists| == |records|
  {
    if records == [] then map[]
    else
      var n := |records| - 1;
      FoundOf(records[..n], lists[..n])[MxcUri(records[n].mxc) := lists[n]]
  }

  /** What the thumbnail queries of stage 1 returned. */
  ghost predicate Listing(db: Db, records: seq<Media>, lists: seq<seq<Thumbnail>>) {
    && |lists| == |records|
    && forall i, t | 0 <= i < |records| :: t in lists[i] <==> t in ThumbsOf(db, records[i].mxc)
  }

  lemma PlacesSnoc(records: seq<Media>, lists: seq<seq<Thumbnail>>, i: nat, thumbs: seq<Thumbnail>)
    requires i < |records| && |lists| == i
    ensures Places(records[..i + 1], lists + [thumbs]) ==
      Places(records[..i], lists) + [records[i].at] + SpotsOf(thumbs)
    ensures FoundOf(records[..i + 1], lists + [thumbs]) ==
      FoundOf(records[..i], lists)[MxcUri(records[i].mxc) := thumbs]
  {
    assert records[..i + 1][..i] == records[..i] && (lists + [thumbs])[..i] == lists;
  }

  lemma FlagSnoc(db: Db, places: seq<Location>, at: Location)
    ensures FlagPlaces(db, places + [at]) == WithLocation(db, FlagPlaces(db, places), at)
  {
    assert (places + [at])[..|places|] == places;
  }

  lemma FlagNext(db: Db, places: seq<Location>, thumbs: seq<Thumbnail>, j: nat)
    requires j < |thumbs|
    ensures FlagPlaces(db, places + SpotsOf(thumbs[..j + 1])) == WithLocation(db,
      FlagPlaces(db, places + SpotsOf(thumbs[..j])), thumbs[j].at)
  {
    assert thumbs[..j + 1][..j] == thumbs[..j];
    assert places + SpotsOf(thumbs[..j + 1]) == places + SpotsOf(thumbs[..j]) + [thumbs[j].at];
    FlagSnoc(db, places + SpotsOf(thumbs[..j]), thumbs[j].at);
  }

  method FlagThumbs(repo: Repo, flags: Flags, thumbs: seq<Thumbnail>, ghost places: seq<Location>)
    returns (ok: bool, out: Flags)
    requires flags == FlagPlaces(repo.db, places)
    modifies repo
    ensures repo.db == old(repo.db) && repo.history == old(repo.history)
    ensures if ok then repo.faults == old(repo.faults) else repo.faults > old(repo.faults)
    ensures ok ==> out == FlagPlaces(repo.db, places + SpotsOf(thumbs))
  {
    ok, out := true, flags;
    assert places + SpotsOf(thumbs[..0]) == places;
    for j := 0 to |thumbs|
      invariant repo.db == old(repo.db) && repo.history == old(repo.history) && repo.faults == old(repo.faults)
      invariant ok && out == FlagPlaces(repo.db, places + SpotsOf(thumbs[..j]))
    {
      FlagNext(repo.db, places, thumbs, j);
      ok, out := FlagLocation(repo, out, thumbs[j].at);
      if !ok { return; }
    }
    assert thumbs[..|thumbs|] == thumbs;
  }

  /** Where stage 1 is after these records. */
  ghost predicate Visited(db: Db, records: seq<Media>, lists: seq<seq<Thumbnail>>, flags: Flags,
                          found: map<string, seq<Thumbnail>>) {
    Listing(db, records, lists) && flags == FlagPlaces(db, Places(records, lists)) && found == FoundOf(records, lists)
  }

  lemma VisitedGrows(db: Db, records: seq<Media>, i: nat, lists: seq<seq<Thumbnail>>, flags: Flags,
                     found: map<string, seq<Thumbnail>>,
                     thumbs: seq<Thumbnail>, out: Flags)
    requires i < |records| && Visited(db, records[..i], lists, flags, found)
    requires forall t :: t in thumbs <==> t in ThumbsOf(db, records[i].mxc)
    requires out == FlagPlaces(db, Places(records[..i], lists) + [records[i].at] + SpotsOf(thumbs))
    ensures Visited(db, records[..i + 1], lists + [thumbs], out, found[MxcUri(records[i].mxc) := thumbs])
  {
    PlacesSnoc(records, lists, i, thumbs);
    forall k, t | 0 <= k < i + 1 ensures t in (lists + [thumbs])[k] <==> t in ThumbsOf(db, records[..i + 1][k].mxc) {
      if k < i { assert records[..i + 1][k] == records[..i][k]; }
    }
  }

  /** Stage 1, for any table and any records: who claims which key is decided by the
      order in which the locations come by. */
  method FlagAll(repo: Repo, records: seq<Media>)
    returns (ok: bool, flags: Flags, found: map<string, seq<Thumbnail>>, ghost lists: seq<seq<Thumbnail>>)
    modifies repo
    ensures repo.db == old(repo.db) && repo.history == old(repo.history)
    ensures if ok then repo.faults == old(repo.faults) else repo.faults > old(repo.faults)
    ensures ok ==> Visited(repo.db, records, lists, flags, found)
  {
    flags, found, lists := map[], map[], [];
    for i := 0 to |records|
      invariant repo.db == old(repo.db) && repo.history == old(repo.history) && repo.faults == old(repo.faults)
      invariant Visited(repo.db, records[..i], lists, flags, found)
    {
      ghost var before := flags;
      var thumbs;
      ok, flags, thumbs := FlagRecord(repo, flags, records[i], Places(records[..i], lists));
      if !ok { return; }
      VisitedGrows(repo.db, records, i, lists, before, found, thumbs, flags);
      found := found[MxcUri(records[i].mxc) := thumbs];
      lists := lists + [thumbs];
    }
    assert records[..|records|] == records;
    ok := true;
  }

  method FlagRecord(repo: Repo, flags: Flags, r: Media, ghost places: seq<Location>)
    returns (ok: bool, out: Flags, thumbs: seq<Thumbnail>)
    requires flags == FlagPlaces(repo.db, places)
    modifies repo
    ensures repo.db == old(repo.db) && repo.history == old(repo.history)
    ensures if ok then repo.faults == old(repo.faults) else repo.faults > old(repo.faults)
    ensures ok ==> forall t :: t in thumbs <==> t in ThumbsOf(repo.db, r.mxc)
    ensures ok ==> out == FlagPlaces(repo.db, places + [r.at] + SpotsOf(thumbs))
  {
    thumbs := [];
    FlagSnoc(repo.db, places, r.at);
    ok, out := FlagLocation(repo, flags, r.at);
    if !ok { return; }
    ok, thumbs := repo.GetThumbsForMedia(r.mxc);
    if !ok { return; }
    ok, out := FlagThumbs(repo, out, thumbs, places + [r.at]);
  }

  lemma SpotsAre(thumbs: seq<Thumbnail>, p: Location)
    ensures p in SpotsOf(thumbs) <==> exists t :: t in thumbs && p == t.at
  {
    if t :| t in thumbs && p == t.at {
      var k :| 0 <= k < |thumbs| && thumbs[k] == t;
      assert SpotsOf(thumbs)[k] == p;
    }
  }

  ghost predicate StopsAt(r: Media, thumbs: seq<Thumbnail>, p: Location) {
    p == r.at || exists t :: t in thumbs && p == t.at
  }

  lemma {:induction false} PlacesAre(records: seq<Media>, lists: seq<seq<Thumbnail>>, p: Location)
    requires |lists| == |records|
    ensures p in Places(records, lists) <==> exists i | 0 <= i < |records| :: StopsAt(records[i], lists[i], p)
  {
    if records != [] {
      var n := |records| - 1;
      var init, last := Places(records[..n], lists[..n]), SpotsOf(lists[n]);
      PlacesAre(records[..n], lists[..n], p);
      SpotsAre(lists[n], p);
      assert p in Places(records, lists) <==> p in init || StopsAt(records[n], lists[n], p);
      assert forall i | 0 <= i < n :: records[..n][i] == records[i] && lists[..n][i] == lists[i];
    }
  }

  lemma {:induction false} PlacesShow(db: Db, places: seq<Location>)
    requires WellKeyed(db) && forall p | p in places :: '/' !in p.datastoreId
    ensures Shows(db, FlagPlaces(db, places), SeenAt(places), {})
  {
    if places != [] {
      var n := |places| - 1;
      PlacesShow(db, places[..n]);
      SeenSnoc(places[..n], places[n]);
      assert places == places[..n] + [places[n]];
      FlaggingShows(db, FlagPlaces(db, places[..n]), SeenAt(places[..n]), places[n]);
    }
  }

  lemma SeenSnoc(places: seq<Location>, at: Location)
    ensures SeenAt(places + [at]) == SeenAt(places) + {at}
  {}

  lemma {:induction false} FoundIsRight(db: Db, records: seq<Media>, lists: seq<seq<Thumbnail>>)
    requires Current(db, records) && Listing(db, records, lists)
    ensures ThumbsFound(db, records, FoundOf(records, lists))
  {
    if records != [] {
      var n := |records| - 1;
      FoundIsRight(db, records[..n], lists[..n]);
      FoundExtends(db, records, n, FoundOf(records[..n], lists[..n]), lists[n]);
      assert records[..n + 1] == records;
    }
  }

  /** For current records the flag map shows exactly the users of every location of a
      record or of one of its thumbnails. */
  lemma FlagsShowTheUsers(db: Db, records: seq<Media>, lists: seq<seq<Thumbnail>>)
    requires Current(db, records) && Listing(db, records, lists)
    ensures Flagged(db, records, FlagPlaces(db, Places(records, lists)), SeenAt(Places(records, lists)),
                    FoundOf(records, lists))
  {
    var places := Places(records, lists);
    forall p | p in places ensures '/' !in p.datastoreId && UsersOf(db, p) != {} {
      PlacesAre(records, lists, p);
      var i :| 0 <= i < |records| && StopsAt(records[i], lists[i], p);
      assert records[i] in records;
      if p == records[i].at {
        assert records[i].mxc in UsersOf(db, p);
      } else {
        var t :| t in lists[i] && p == t.at;
        assert t.of in UsersOf(db, p);
      }
    }
    PlacesShow(db, places);
    FoundIsRight(db, records, lists);
    forall r | r in records ensures r.at in places && forall t | t in ThumbsOf(db, r.mxc) :: t.at in places {
      var i :| 0 <= i < |records| && records[i] == r;
      PlacesAre(records, lists, r.at);
      assert StopsAt(records[i], lists[i], r.at);
      forall t | t in ThumbsOf(db, r.mxc) ensures t.at in places {
        PlacesAre(records, lists, t.at);
        assert StopsAt(records[i], lists[i], t.at);
      }
    }
  }

  lemma FoundExtends(db: Db, records: seq<Media>, i: nat, found: map<string, seq<Thumbnail>>, thumbs: seq<Thumbnail>)
    requires i < |records| && Current(db, records)
    requires ThumbsFound(db, records[..i], found)
    requires forall t :: t in thumbs <==> t in ThumbsOf(db, records[i].mxc)
    ensures ThumbsFound(db, records[..i + 1], found[MxcUri(records[i].mxc) := thumbs])
  {
    var r := records[i];
    forall q | q in records[..i + 1] && MxcUri(q.mxc) == MxcUri(r.mxc)
      ensures q.mxc == r.mxc
    {
      KeysAreInjective(q.mxc, r.mxc, q.at, r.at);
    }
    forall q | q in records[..i + 1]
      ensures q in records[..i] || q == r
    {}
  }

  // ----- stage 2: mark the users that are in the list -----

  function Mark(flags: Flags, locationId: string, mxc: string): (r: (Status, Flags)) {
    if locationId !in flags then (Broken, flags)
    else if mxc !in flags[locationId] then (Broken, flags)
    else (Fine, flags[locationId := flags[locationId][mxc := true]])
  }

  /** The flag map has a place for this use of this location. */
  predicate HasSlot(flags: Flags, at: Location, x: Mxc) {
    LocationId(at) in flags && MxcUri(x) in flags[LocationId(at)]
  }

  ghost predicate SameSlots(flags: Flags, out: Flags) {
    flags.Keys == out.Keys && forall id | id in flags :: flags[id].Keys == out[id].Keys
  }

  lemma MarkingKeepsSlots(flags: Flags, at: Location, x: Mxc)
    ensures var r := Mark(flags, LocationId(at), MxcUri(x));
      (r.0 == Fine <==> HasSlot(flags, at, x)) && r.0 != Failed && SameSlots(flags, r.1)
  {}

  /** Stage 2 can mark the record and the thumbnails found for it. */
  ghost predicate HasSlots(flags: Flags, found: map<string, seq<Thumbnail>>, r: Media) {
    && HasSlot(flags, r.at, r.mxc) && MxcUri(r.mxc) in found
    && ThumbsHaveSlots(flags, found[MxcUri(r.mxc)])
  }

  lemma MarkingShows(db: Db, flags: Flags, seen: set<Location>, marked: set<(Location, Mxc)>, at: Location, x: Mxc,
                     after: set<(Location, Mxc)>)
    requires WellKeyed(db) && Shows(db, flags, seen, marked)
    requires at in seen && x in UsersOf(db, at) && after == marked + {(at, x)}
    ensures Mark(flags, LocationId(at), MxcUri(x)).0 == Fine
    ensures Shows(db, Mark(flags, LocationId(at), MxcUri(x)).1, seen, after)
  {
    var row := flags[LocationId(at)];
    assert UsersShown(row, db, at, marked);
    MarkingShowsUser(db, row, at, marked, x);
    forall p | p in seen && p != at
      ensures LocationId(p) != LocationId(at)
      ensures UsersShown(flags[LocationId(p)], db, p, after)
    {
      KeysAreInjective(x, x, p, at);
    }
  }

  lemma MarkingShowsUser(db: Db, row: map<string, bool>, at: Location, marked: set<(Location, Mxc)>, x: Mxc)
    requires WellKeyed(db) && UsersShown(row, db, at, marked) && x in UsersOf(db, at)
    ensures UsersShown(row[MxcUri(x) := true], db, at, marked + {(at, x)})
  {
    UserOriginsHaveNoSlash(db, at);
    var here := Location("", "");
    forall y | y in UsersOf(db, at) && y != x
      ensures MxcUri(y) != MxcUri(x)
    {
      KeysAreInjective(x, y, here, here);
    }
  }

  ghost predicate MarkedBy(db: Db, records: seq<Media>, marked: set<(Location, Mxc)>) {
    && (forall r | r in records ::
          (r.at, r.mxc) in marked && forall t | t in ThumbsOf(db, r.mxc) :: (t.at, r.mxc) in marked)
    && (forall p | p in marked :: p.1 in Listed(records))
  }

  /** What stage 1 hands to the later stages. */
  ghost predicate Flagged(db: Db, records: seq<Media>, flags: Flags, seen: set<Location>,
                          found: map<string, seq<Thumbnail>>) {
    && Current(db, records)
    && Shows(db, flags, seen, {})
    && Covers(db, records, seen)
    && InUse(db, seen)
    && ThumbsFound(db, records, found)
  }

  ghost predicate Markable(db: Db, x: Mxc, thumbs: seq<Thumbnail>, seen: set<Location>) {
    WellKeyed(db) && forall t | t in thumbs :: t in ThumbsOf(db, x) && t.at in seen
  }

  function Pairs(thumbs: seq<Thumbnail>, x: Mxc): set<(Location, Mxc)> {
    set t | t in thumbs :: (t.at, x)
  }

  ghost predicate ThumbsHaveSlots(flags: Flags, thumbs: seq<Thumbnail>) {
    forall t | t in thumbs :: HasSlot(flags, t.at, t.of)
  }

  lemma ThumbSlotsExtend(flags: Flags, thumbs: seq<Thumbnail>, j: nat)
    requires j < |thumbs| && ThumbsHaveSlots(flags, thumbs[..j])
    ensures HasSlot(flags, thumbs[j].at, thumbs[j].of) ==> ThumbsHaveSlots(flags, thumbs[..j + 1])
    ensures !HasSlot(flags, thumbs[j].at, thumbs[j].of) ==> !ThumbsHaveSlots(flags, thumbs)
  {
    assert thumbs[..j + 1] == thumbs[..j] + [thumbs[j]];
  }

  /** Stage 2 has marked the first `j` thumbnails of a listed MXC. */
  ghost predicate MarkingThumbs(db: Db, x: Mxc, thumbs: seq<Thumbnail>, j: nat, flags: Flags, seen: set<Location>,
                                before: set<(Location, Mxc)>)
    requires j <= |thumbs|
  {
    Markable(db, x, thumbs, seen) && Shows(db, flags, seen, before + Pairs(thumbs[..j], x))
  }

  lemma MarkingThumbsStarts(db: Db, x: Mxc, thumbs: seq<Thumbnail>, flags: Flags, seen: set<Location>,
                            before: set<(Location, Mxc)>)
    requires Markable(db, x, thumbs, seen) && Shows(db, flags, seen, before)
    ensures MarkingThumbs(db, x, thumbs, 0, flags, seen, before)
  {
    assert before + Pairs([], x) == before;
  }

  /** Marks the thumbnails of one listed MXC; fails exactly if one of them has no slot. */
  method MarkThumbs(ghost db: Db, x: Mxc, thumbs: seq<Thumbnail>, flags: Flags, ghost seen: set<Location>,
                    ghost before: set<(Location, Mxc)>)
    returns (status: Status, out: Flags)
    ensures status == (if ThumbsHaveSlots(flags, thumbs) then Fine else Broken) && SameSlots(flags, out)
    ensures Markable(db, x, thumbs, seen) && Shows(db, flags, seen, before) ==>
      status == Fine && Shows(db, out, seen, before + Pairs(thumbs, x))
  {
    out, status := flags, Fine;
    ghost var good := Markable(db, x, thumbs, seen) && Shows(db, flags, seen, before);
    if good { MarkingThumbsStarts(db, x, thumbs, flags, seen, before); }
    for j := 0 to |thumbs|
      invariant good ==> MarkingThumbs(db, x, thumbs, j, out, seen, before)
      invariant status == Fine && SameSlots(flags, out) && ThumbsHaveSlots(flags, thumbs[..j])
    {
      var t := thumbs[j];
      var step := Mark(out, LocationId(t.at), MxcUri(t.of));
      if good { MarkThumbShows(db, x, thumbs, j, out, seen, before); }
      MarkingKeepsSlots(out, t.at, t.of);
      SlotAgrees(flags, out, t.at, t.of);
      SlotsTrans(flags, out, step.1);
      ThumbSlotsExtend(flags, thumbs, j);
      if step.0 != Fine { return Broken, out; }
      out := step.1;
    }
    assert thumbs[..|thumbs|] == thumbs;
  }

  lemma MarkThumbShows(db: Db, x: Mxc, thumbs: seq<Thumbnail>, j: nat, flags: Flags, seen: set<Location>,
                       before: set<(Location, Mxc)>)
    requires j < |thumbs| && MarkingThumbs(db, x, thumbs, j, flags, seen, before)
    ensures var step := Mark(flags, LocationId(thumbs[j].at), MxcUri(thumbs[j].of));
      step.0 == Fine && MarkingThumbs(db, x, thumbs, j + 1, step.1, seen, before)
  {
    var t := thumbs[j];
    PairsExtend(thumbs, j, x);
    assert t in thumbs && t.of in UsersOf(db, t.at);
    MarkingShows(db, flags, seen, before + Pairs(thumbs[..j], x), t.at, t.of, before + Pairs(thumbs[..j + 1], x));
  }

  lemma PairsExtend(thumbs: seq<Thumbnail>, j: nat, x: Mxc)
    requires j < |thumbs|
    ensures Pairs(thumbs[..j + 1], x) == Pairs(thumbs[..j], x) + {(thumbs[j].at, x)}
  {
    assert thumbs[..j + 1] == thumbs[..j] + [thumbs[j]];
  }

  /** Stage 2 has marked exactly the first `i` records and their thumbnails. */
  ghost predicate Marking(db: Db, records: seq<Media>, i: nat, found: map<string, seq<Thumbnail>>, seen: set<Location>,
                          flags: Flags, marked: set<(Location, Mxc)>)
    requires i <= |records|
  {
    && Current(db, records) && Covers(db, records, seen) && ThumbsFound(db, records, found)
    && Shows(db, flags, seen, marked) && MarkedBy(db, records[..i], marked)
  }

  lemma MarkingStarts(db: Db, records: seq<Media>, flags: Flags, seen: set<Location>,
                      found: map<string, seq<Thumbnail>>)
    requires Flagged(db, records, flags, seen, found)
    ensures Marking(db, records, 0, found, seen, flags, {})
  {}

  lemma MarkingEnds(db: Db, records: seq<Media>, found: map<string, seq<Thumbnail>>, seen: set<Location>, flags: Flags,
                    marked: set<(Location, Mxc)>)
    requires Marking(db, records, |records|, found, seen, flags, marked)
    ensures Shows(db, flags, seen, marked) && MarkedBy(db, records, marked)
  {
    assert records[..|records|] == records;
  }

  ghost predicate AllHaveSlots(flags: Flags, found: map<string, seq<Thumbnail>>, records: seq<Media>) {
    forall r | r in records :: HasSlots(flags, found, r)
  }

  lemma SlotsExtend(flags: Flags, found: map<string, seq<Thumbnail>>, records: seq<Media>, i: nat)
    requires i < |records| && AllHaveSlots(flags, found, records[..i])
    ensures HasSlots(flags, found, records[i]) ==> AllHaveSlots(flags, found, records[..i + 1])
    ensures !HasSlots(flags, found, records[i]) ==> !AllHaveSlots(flags, found, records)
  {
    assert records[..i + 1] == records[..i] + [records[i]];
  }

  /** Stage 2. It ends in a "logic error" exactly if a record, or a thumbnail found for
      it, has no slot. */
  method MarkAll(ghost db: Db, records: seq<Media>, flags: Flags, found: map<string, seq<Thumbnail>>,
                 ghost seen: set<Location>)
    returns (status: Status, out: Flags, ghost marked: set<(Location, Mxc)>)
    ensures status == (if AllHaveSlots(flags, found, records) then Fine else Broken) && SameSlots(flags, out)
    ensures Flagged(db, records, flags, seen, found) ==>
      status == Fine && Shows(db, out, seen, marked) && MarkedBy(db, records, marked)
  {
    out, marked, status := flags, {}, Fine;
    ghost var good := Flagged(db, records, flags, seen, found);
    if good { MarkingStarts(db, records, flags, seen, found); }
    for i := 0 to |records|
      invariant good ==> Marking(db, records, i, found, seen, out, marked)
      invariant status == Fine && SameSlots(flags, out) && AllHaveSlots(flags, found, records[..i])
    {
      SlotsAgree(flags, out, found, records[i]);
      SlotsExtend(flags, found, records, i);
      ghost var before := out;
      status, out, marked := MarkRecord(db, records, i, out, found, seen, marked, good);
      SlotsTrans(flags, before, out);
      if status != Fine { return; }
    }
    assert records[..|records|] == records;
    if good { MarkingEnds(db, records, found, seen, out, marked); }
  }

  lemma SlotAgrees(flags: Flags, out: Flags, at: Location, x: Mxc)
    requires SameSlots(flags, out)
    ensures HasSlot(flags, at, x) <==> HasSlot(out, at, x)
  {}

  lemma SlotsAgree(flags: Flags, out: Flags, found: map<string, seq<Thumbnail>>, r: Media)
    requires SameSlots(flags, out)
    ensures HasSlots(flags, found, r) <==> HasSlots(out, found, r)
  {
    assert forall at, x :: HasSlot(flags, at, x) <==> HasSlot(out, at, x);
  }

  lemma SlotsTrans(a: Flags, b: Flags, c: Flags)
    requires SameSlots(a, b) && SameSlots(b, c)
    ensures SameSlots(a, c)
  {}

  method MarkRecord(ghost db: Db, records: seq<Media>, i: nat, flags: Flags, found: map<string, seq<Thumbnail>>,
                    ghost seen: set<Location>, ghost before: set<(Location, Mxc)>, ghost good: bool)
    returns (status: Status, out: Flags, ghost marked: set<(Location, Mxc)>)
    requires i < |records|
    requires good ==> Marking(db, records, i, found, seen, flags, before)
    ensures status == (if HasSlots(flags, found, records[i]) then Fine else Broken) && SameSlots(flags, out)
    ensures good ==> status == Fine && Marking(db, records, i + 1, found, seen, out, marked)
  {
    var r := records[i];
    out, marked := flags, before;
    if good {
      assert r in records && r.mxc in UsersOf(db, r.at);
      MarkingShows(db, flags, seen, before, r.at, r.mxc, before + {(r.at, r.mxc)});
    }
    MarkingKeepsSlots(flags, r.at, r.mxc);
    var step := Mark(flags, LocationId(r.at), MxcUri(r.mxc));
    if step.0 != Fine { return Broken, out, marked; }
    if MxcUri(r.mxc) !in found { return Broken, out, marked; }
    var thumbs := found[MxcUri(r.mxc)];
    marked := before + {(r.at, r.mxc)};
    status, out := MarkThumbs(db, r.mxc, thumbs, step.1, seen, marked);
    marked := marked + Pairs(thumbs, r.mxc);
    if good { MarkedByExtends(db, records, i, thumbs, before, marked); }
  }

  lemma MarkedByExtends(db: Db, records: seq<Media>, i: nat, thumbs: seq<Thumbnail>, before: set<(Location, Mxc)>,
                        after: set<(Location, Mxc)>)
    requires i < |records| && MarkedBy(db, records[..i], before)
    requires forall t :: t in thumbs <==> t in ThumbsOf(db, records[i].mxc)
    requires after == before + {(records[i].at, records[i].mxc)} + Pairs(thumbs, records[i].mxc)
    ensures MarkedBy(db, records[..i + 1], after)
  {
    assert records[..i + 1] == records[..i] + [records[i]];
    assert records[i] in records[..i + 1];
  }

  predicate AllTrue(row: map<string, bool>) {
    forall u | u in row :: row[u]
  }

  /** What the flag map is worth after stage 2: it answers, for every affected
      location, whether the object there may go. */
  ghost predicate Decides(before: Db, listed: set<Mxc>, flags: Flags, seen: set<Location>) {
    && (forall at, q | at in seen && q in seen && LocationId(at) == LocationId(q) :: at == q)
    && (forall at | at in seen :: LocationId(at) in flags
          && (AllTrue(flags[LocationId(at)]) <==> Removable(before, listed, at)))
  }

  lemma FlagsDecide(db: Db, records: seq<Media>, flags: Flags, seen: set<Location>, marked: set<(Location, Mxc)>)
    requires Current(db, records) && Shows(db, flags, seen, marked) && MarkedBy(db, records, marked)
    requires forall at | at in seen :: UsersOf(db, at) != {}
    ensures Decides(db, Listed(records), flags, seen)
  {
    forall at, q | at in seen && q in seen && LocationId(at) == LocationId(q)
      ensures at == q
    {
      var x := Mxc("", "");
      KeysAreInjective(x, x, at, q);
    }
    forall at | at in seen
      ensures LocationId(at) in flags
      ensures AllTrue(flags[LocationId(at)]) <==> Removable(db, Listed(records), at)
    {
      RowDecides(db, records, flags[LocationId(at)], marked, at);
    }
  }

  lemma RowDecides(db: Db, records: seq<Media>, row: map<string, bool>, marked: set<(Location, Mxc)>, at: Location)
    requires Current(db, records) && MarkedBy(db, records, marked)
    requires UsersShown(row, db, at, marked) && UsersOf(db, at) != {}
    ensures AllTrue(row) <==> Removable(db, Listed(records), at)
  {
    forall x | x in UsersOf(db, at)
      ensures row[MxcUri(x)] <==> x in Listed(records)
    {
      MarkedIffListed(db, records, marked, at, x);
    }
    if AllTrue(row) {
      assert forall x | x in UsersOf(db, at) :: row[MxcUri(x)];
    }
  }

  lemma MarkedIffListed(db: Db, records: seq<Media>, marked: set<(Location, Mxc)>, at: Location, x: Mxc)
    requires Current(db, records) && MarkedBy(db, records, marked) && x in UsersOf(db, at)
    ensures (at, x) in marked <==> x in Listed(records)
  {
    if r :| r in records && r.mxc == x {
      if m :| m in db.media && m.at == at && m.mxc == x {
        assert m == r;
      } else {
        var t :| t in db.thumbs && t.at == at && t.of == x;
        assert t in ThumbsOf(db, r.mxc);
      }
    }
  }

  // ----- stage 3: remove files and rows -----

  /** What has been removed so far, and the IDs reserved so far. */
  datatype Ledger = Ledger(rows: set<Media>, thumbs: set<Thumbnail>, gone: set<Location>, held: set<Mxc>)

  ghost function Applied(before: Db, l: Ledger): Db {
    Db(before.media - l.rows, before.thumbs - l.thumbs, before.pinned, before.reserved + l.held,
       before.objects - l.gone)
  }

  ghost predicate Justified(before: Db, listed: set<Mxc>, l: Ledger) {
    && (forall m | m in l.rows :: m.mxc in listed && !m.quarantined)
    && (forall t | t in l.thumbs :: t.of in listed)
    && (forall at | at in l.gone :: Removable(before, listed, at))
    && l.held <= listed
  }

  lemma JustifiedIsSafe(before: Db, listed: set<Mxc>, l: Ledger)
    requires Justified(before, listed, l)
    ensures PurgeSafe(before, listed, Applied(before, l))
  {}

  /** The repository before stage 3 and the decisions of the earlier stages. */
  datatype Plan = Plan(before: Db, listed: set<Mxc>, flags: Flags, seen: set<Location>) {
    ghost predicate Ready() {
      Decides(before, listed, flags, seen)
    }

    function Gone(l: Ledger, at: Location): Ledger {
      if Removable(before, listed, at) then l.(gone := l.gone + {at}) else l
    }

    /** The repository is where the ledger says, and `gone` is exactly the removable
        part of the locations handled so far. */
    ghost predicate Tracks(db: Db, deleted: set<string>, handled: set<Location>, l: Ledger) {
      && db == Applied(before, l)
      && Justified(before, listed, l)
      && handled <= seen
      && (forall m | m in l.rows :: m.at in handled) && (forall t | t in l.thumbs :: t.at in handled)
      && l.gone == (set at | at in handled && Removable(before, listed, at))
      && deleted == LocationIds(l.gone)
    }
  }

  function AfterRemove(flags: Flags, deleted: set<string>, at: Location): Status {
    if LocationId(at) in deleted then Fine
    else if LocationId(at) !in flags then Broken
    else Fine
  }

  predicate MustRemove(flags: Flags, deleted: set<string>, at: Location) {
    LocationId(at) !in deleted && LocationId(at) in flags && AllTrue(flags[LocationId(at)])
  }

  lemma RemovalTracks(p: Plan, db: Db, deleted: set<string>, handled: set<Location>, l: Ledger, at: Location)
    requires p.Ready() && p.Tracks(db, deleted, handled, l) && at in p.seen
    ensures AfterRemove(p.flags, deleted, at) == Fine
    ensures if MustRemove(p.flags, deleted, at)
            then p.Tracks(ObjectRemoved(db, at), deleted + {LocationId(at)}, handled + {at}, p.Gone(l, at))
            else p.Tracks(db, deleted, handled + {at}, p.Gone(l, at))
  {
    assert LocationId(at) in LocationIds(l.gone) <==> at in l.gone;
    if at in l.gone {
      assert p.Gone(l, at) == l;
    }
  }

  /** Now, and in every state since `start`, only what a purge of `listed` may take away
      is gone; no object has come back; and an object that a row needed has not gone
      without the law being violated on the way. */
  ghost predicate SafeFrom(repo: Repo, start: nat, before: Db, listed: set<Mxc>)
    reads repo
  {
    && start <= |repo.history|
    && PurgeSafe(before, listed, repo.db)
    && (forall k | start <= k < |repo.history| ::
          PurgeSafe(before, listed, repo.history[k]) && repo.db.objects.Keys <= repo.history[k].objects.Keys)
    && (Lost(before, repo.db) ==> Exposed(repo.history, start))
  }

  /** In some state of a purge the law is violated if and only if an object that a row
      needed has gone. */
  lemma ExposedIffLost(repo: Repo, start: nat, before: Db, listed: set<Mxc>)
    requires Consistent(before) && SafeFrom(repo, start, before, listed)
    ensures Exposed(repo.history, start) <==> Lost(before, repo.db)
  {
    if k :| start <= k < |repo.history| && !Consistent(repo.history[k]) {
      var now := repo.history[k];
      BrokenPurgeIsSoundIff(before, listed, now);
      var at :| at in before.objects && at !in now.objects
        && !(ThumbsAt(now, at) == {} && forall m | m in now.media && m.at == at :: m.quarantined);
      assert ThumbsAt(now, at) <= ThumbsAt(before, at);
      assert NeedsObject(before, at) && at !in repo.db.objects;
    }
  }

  lemma PurgedLosesIff(db: Db, listed: set<Mxc>, ours: set<string>)
    requires Consistent(db)
    ensures Lost(db, PurgeResult(db, listed, ours)) <==> !Robust(db, listed)
  {
    var now := PurgeResult(db, listed, ours);
    if at :| Removable(db, listed, at) && NeedsObject(db, at) {
      NeedyPlacesAreStored(db, at);
      assert at !in now.objects;
    }
  }

  /** What one more state needs. */
  lemma SafeGrows(before: Db, history: seq<Db>, db: Db, next: Db, start: nat)
    requires start <= |history| && (Lost(before, db) ==> Exposed(history, start))
    requires Lost(before, next) ==> Lost(before, db) || !Consistent(next)
    ensures Lost(before, next) ==> Exposed(history + [next], start)
  {
    ExposedGrows(history, next, start);
  }

  /** When the object of an untouched place goes, the rows that need it are still there. */
  lemma RemovalExposes(p: Plan, db: Db, deleted: set<string>, handled: set<Location>, l: Ledger, at: Location)
    requires p.Tracks(db, deleted, handled, l) && MustRemove(p.flags, deleted, at) && p.Ready() && at in p.seen
    requires NeedsObject(p.before, at)
    ensures !Consistent(ObjectRemoved(db, at))
  {
    var next := ObjectRemoved(db, at);
    assert at !in handled by {
      assert at in handled ==> at in l.gone && LocationId(at) in LocationIds(l.gone);
    }
    if t :| t in ThumbsAt(p.before, at) {
      assert t in ThumbsAt(next, at);
    } else {
      var m :| m in p.before.media && m.at == at && !m.quarantined;
      assert m in next.media;
    }
    if Consistent(next) { NeedyPlacesAreStored(next, at); }
  }

  ghost predicate SafeSince(repo: Repo, start: nat, p: Plan)
    reads repo
  {
    SafeFrom(repo, start, p.before, p.listed)
  }

  method TryRemoveFile(repo: Repo, flags: Flags, deleted: set<string>, at: Location)
    returns (status: Status, out: set<string>)
    modifies repo
    ensures MustRemove(flags, deleted, at) ==>
      status != Broken && repo.Wrote(status == Fine, ObjectRemoved(old(repo.db), at))
        && out == deleted + {LocationId(at)}
    ensures !MustRemove(flags, deleted, at) ==>
      status == AfterRemove(flags, deleted, at) && repo.Looked(true) && out == deleted
  {
    var id := LocationId(at);
    out := deleted;
    if id in deleted { return Fine, out; }
    if id !in flags { return Broken, out; }
    if !AllTrue(flags[id]) { return Fine, out; }
    var ok := repo.RemoveObject(at);
    out := deleted + {id};
    status := if ok then Fine else Failed;
  }

  lemma TrackedIsSafe(p: Plan, db: Db, deleted: set<string>, handled: set<Location>, l: Ledger)
    requires p.Tracks(db, deleted, handled, l)
    ensures PurgeSafe(p.before, p.listed, db)
  {
    JustifiedIsSafe(p.before, p.listed, l);
  }

  /** A purge under way: every state so far was safe and the ledger is accurate. */
  ghost predicate Going(repo: Repo, start: nat, p: Plan, deleted: set<string>, handled: set<Location>, l: Ledger)
    reads repo
  {
    SafeSince(repo, start, p) && p.Ready() && p.Tracks(repo.db, deleted, handled, l)
  }

  method RemoveFile(repo: Repo, flags: Flags, deleted: set<string>, at: Location,
                    ghost start: nat, ghost p: Plan, ghost handled: set<Location>, ghost l: Ledger)
    returns (status: Status, out: set<string>)
    requires p.flags == flags
    modifies repo
    ensures repo.faults >= old(repo.faults) && (status == Failed ==> repo.faults > old(repo.faults))
    ensures LocationId(at) in flags ==> status != Broken
    ensures old(Going(repo, start, p, deleted, handled, l)) && at in p.seen ==>
      && status != Broken
      && SafeSince(repo, start, p)
      && (status == Fine ==> Going(repo, start, p, out, handled + {at}, p.Gone(l, at)))
  {
    ghost var good := Going(repo, start, p, deleted, handled, l) && at in p.seen;
    if good {
      TrackedIsSafe(p, repo.db, deleted, handled, l);
      RemovalTracks(p, repo.db, deleted, handled, l, at);
    }
    ghost var was, past := repo.db, repo.history;
    if good && MustRemove(flags, deleted, at) && NeedsObject(p.before, at) {
      RemovalExposes(p, was, deleted, handled, l, at);
    }
    status, out := TryRemoveFile(repo, flags, deleted, at);
    if good && MustRemove(flags, deleted, at) { SafeGrows(p.before, past, was, repo.db, start); }
    if good && status == Fine { TrackedIsSafe(p, repo.db, out, handled + {at}, p.Gone(l, at)); }
  }

  /** Removes the file and the row of one thumbnail. */
  method RemoveThumb(repo: Repo, t: Thumbnail, flags: Flags, deleted: set<string>,
                     ghost start: nat, ghost p: Plan, ghost handled: set<Location>, ghost l: Ledger)
    returns (status: Status, out: set<string>, ghost next: Ledger)
    requires p.flags == flags
    modifies repo
    ensures repo.faults >= old(repo.faults) && (status == Failed ==> repo.faults > old(repo.faults))
    ensures LocationId(t.at) in flags ==> status != Broken
    ensures next == p.Gone(l, t.at).(thumbs := l.thumbs + {t})
    ensures old(Going(repo, start, p, deleted, handled, l)) && t.at in p.seen && t.of in p.listed ==>
      && status != Broken
      && SafeSince(repo, start, p)
      && (status == Fine ==> Going(repo, start, p, out, handled + {t.at}, next))
  {
    ghost var good := Going(repo, start, p, deleted, handled, l) && t.at in p.seen && t.of in p.listed;
    next := p.Gone(l, t.at).(thumbs := l.thumbs + {t});
    status, out := RemoveFile(repo, flags, deleted, t.at, start, p, handled, l);
    if status != Fine { return; }
    if good { TrackedIsSafe(p, repo.db, out, handled + {t.at}, p.Gone(l, t.at)); }
    ghost var was, past := repo.db, repo.history;
    var ok := repo.DeleteThumb(t);
    if good { SafeGrows(p.before, past, was, repo.db, start); }
    if !ok { status := Failed; return; }
    if good {
      assert Applied(p.before, next) == repo.db;
      TrackedIsSafe(p, repo.db, out, handled + {t.at}, next);
    }
  }

  function ThumbPlaces(thumbs: seq<Thumbnail>): set<Location> {
    set t | t in thumbs :: t.at
  }

  ghost predicate ThumbsReady(p: Plan, thumbs: seq<Thumbnail>) {
    forall t | t in thumbs :: t.at in p.seen && t.of in p.listed
  }

  lemma ThumbPlacesExtend(thumbs: seq<Thumbnail>, j: nat, handled: set<Location>)
    requires j < |thumbs|
    ensures thumbs[j] in thumbs && thumbs[..j + 1] == thumbs[..j] + [thumbs[j]]
    ensures handled + ThumbPlaces(thumbs[..j + 1]) == handled + ThumbPlaces(thumbs[..j]) + {thumbs[j].at}
  {
    assert thumbs[..j + 1] == thumbs[..j] + [thumbs[j]];
  }

  method RemoveThumbs(repo: Repo, thumbs: seq<Thumbnail>, flags: Flags, deleted: set<string>,
                      ghost start: nat, ghost p: Plan, ghost handled: set<Location>, ghost l: Ledger)
    returns (status: Status, out: set<string>, ghost next: Ledger)
    requires p.flags == flags
    modifies repo
    ensures repo.faults >= old(repo.faults) && (status == Failed ==> repo.faults > old(repo.faults))
    ensures old(Going(repo, start, p, deleted, handled, l)) && ThumbsReady(p, thumbs) ==>
      && status != Broken
      && SafeSince(repo, start, p)
      && (status == Fine ==> Going(repo, start, p, out, handled + ThumbPlaces(thumbs), next))
    ensures (forall t | t in thumbs :: LocationId(t.at) in flags) ==> status != Broken
    ensures next.rows == l.rows && next.held == l.held
    ensures status == Fine ==> next.thumbs == l.thumbs + set t | t in thumbs
  {
    ghost var good := Going(repo, start, p, deleted, handled, l) && ThumbsReady(p, thumbs);
    out, status, next := deleted, Fine, l;
    assert handled + ThumbPlaces([]) == handled;
    for j := 0 to |thumbs|
      invariant status == Fine && repo.faults >= old(repo.faults)
      invariant good ==> Going(repo, start, p, out, handled + ThumbPlaces(thumbs[..j]), next)
      invariant next.rows == l.rows && next.held == l.held
      invariant next.thumbs == l.thumbs + set t | t in thumbs[..j]
    {
      var t := thumbs[j];
      ThumbPlacesExtend(thumbs, j, handled);
      status, out, next := RemoveThumb(repo, t, flags, out, start, p, handled + ThumbPlaces(thumbs[..j]), next);
      if status != Fine { return; }
    }
    assert thumbs[..|thumbs|] == thumbs;
  }

  ghost predicate RecordReady(p: Plan, r: Media, found: map<string, seq<Thumbnail>>) {
    && UniqueIds(p.before) && r in p.before.media && r.mxc in p.listed && r.at in p.seen
    && MxcUri(r.mxc) in found
    && (forall t :: t in found[MxcUri(r.mxc)] <==> t in ThumbsOf(p.before, r.mxc))
    && (forall t | t in ThumbsOf(p.before, r.mxc) :: t.at in p.seen)
  }

  ghost predicate RowReady(p: Plan, r: Media, handled: set<Location>) {
    UniqueIds(p.before) && r in p.before.media && r.mxc in p.listed && r.at in handled
  }

  method HoldId(repo: Repo, x: Mxc, ghost deleted: set<string>, ghost start: nat, ghost p: Plan,
                ghost handled: set<Location>, ghost l: Ledger)
    returns (ok: bool)
    modifies repo
    ensures repo.faults >= old(repo.faults) && (!ok ==> repo.faults > old(repo.faults))
    ensures old(Going(repo, start, p, deleted, handled, l)) && x in p.listed ==>
      && SafeSince(repo, start, p)
      && (ok ==> Going(repo, start, p, deleted, handled, l.(held := l.held + {x})))
  {
    ghost var good := Going(repo, start, p, deleted, handled, l) && x in p.listed;
    ghost var was, past := repo.db, repo.history;
    if good { TrackedIsSafe(p, was, deleted, handled, l); }
    ok := repo.ReserveId(x);
    if good {
      SafeGrows(p.before, past, was, repo.db, start);
      if ok {
        assert Applied(p.before, l.(held := l.held + {x})) == repo.db;
        TrackedIsSafe(p, repo.db, deleted, handled, l.(held := l.held + {x}));
      }
    }
  }

  method DropMedia(repo: Repo, r: Media, ghost deleted: set<string>, ghost start: nat, ghost p: Plan,
                   ghost handled: set<Location>, ghost l: Ledger)
    returns (ok: bool)
    modifies repo
    ensures repo.faults >= old(repo.faults) && (!ok ==> repo.faults > old(repo.faults))
    ensures old(Going(repo, start, p, deleted, handled, l)) && RowReady(p, r, handled) && !r.quarantined ==>
      && SafeSince(repo, start, p)
      && (ok ==> Going(repo, start, p, deleted, handled, l.(rows := l.rows + {r})))
  {
    ghost var good := Going(repo, start, p, deleted, handled, l) && RowReady(p, r, handled) && !r.quarantined;
    ghost var was, past := repo.db, repo.history;
    if good { TrackedIsSafe(p, was, deleted, handled, l); }
    ok := repo.DeleteMedia(r.mxc);
    if good {
      SafeGrows(p.before, past, was, repo.db, start);
      if ok {
        assert Applied(p.before, l.(rows := l.rows + {r})).media == MediaDeleted(was, r.mxc).media;
        TrackedIsSafe(p, repo.db, deleted, handled, l.(rows := l.rows + {r}));
      }
    }
  }

  /** The row and reservation writes for one record, between its two file removals. */
  method DropRow(repo: Repo, r: Media, ours: set<string>, ghost deleted: set<string>,
                 ghost start: nat, ghost p: Plan, ghost handled: set<Location>, ghost l: Ledger)
    returns (ok: bool, ghost next: Ledger)
    modifies repo
    ensures repo.faults >= old(repo.faults) && (!ok ==> repo.faults > old(repo.faults))
    ensures next == l.(rows := if r.quarantined then l.rows else l.rows + {r},
                       held := if r.mxc.origin in ours then l.held + {r.mxc} else l.held)
    ensures old(Going(repo, start, p, deleted, handled, l)) && RowReady(p, r, handled) ==>
      && SafeSince(repo, start, p)
      && (ok ==> Going(repo, start, p, deleted, handled, next))
  {
    ghost var mid := l.(held := if r.mxc.origin in ours then l.held + {r.mxc} else l.held);
    next := mid.(rows := if r.quarantined then l.rows else l.rows + {r});
    ok := true;
    if r.mxc.origin in ours {
      ok := HoldId(repo, r.mxc, deleted, start, p, handled, l);
      if !ok { return; }
    }
    if !r.quarantined { ok := DropMedia(repo, r, deleted, start, p, handled, mid); }
  }

  /** The first half: file, reservation and row. */
  method RemoveHead(repo: Repo, r: Media, flags: Flags, ours: set<string>, deleted: set<string>,
                    ghost start: nat, ghost p: Plan, ghost handled: set<Location>, ghost l: Ledger)
    returns (status: Status, out: set<string>, ghost next: Ledger)
    requires p.flags == flags
    modifies repo
    ensures repo.faults >= old(repo.faults) && (status == Failed ==> repo.faults > old(repo.faults))
    ensures LocationId(r.at) in flags ==> status != Broken
    ensures status == Fine ==> next == p.Gone(l, r.at).(
      rows := if r.quarantined then l.rows else l.rows + {r},
      held := if r.mxc.origin in ours then l.held + {r.mxc} else l.held)
    ensures old(Going(repo, start, p, deleted, handled, l)) && r.at in p.seen && RowReady(p, r, handled + {r.at}) ==>
      && status != Broken
      && SafeSince(repo, start, p)
      && (status == Fine ==> Going(repo, start, p, out, handled + {r.at}, next))
  {
    status, out := RemoveFile(repo, flags, deleted, r.at, start, p, handled, l);
    next := p.Gone(l, r.at);
    if status != Fine { return; }
    var ok: bool;
    ok, next := DropRow(repo, r, ours, out, start, p, handled + {r.at}, next);
    if !ok { status := Failed; }
  }

  lemma ReadyParts(p: Plan, r: Media, found: map<string, seq<Thumbnail>>, handled: set<Location>)
    requires RecordReady(p, r, found)
    ensures r.at in p.seen && RowReady(p, r, handled + {r.at}) && ThumbsReady(p, found[MxcUri(r.mxc)])
    ensures (set t | t in found[MxcUri(r.mxc)]) == ThumbsOf(p.before, r.mxc)
  {}

  method RemoveRecord(repo: Repo, r: Media, flags: Flags, found: map<string, seq<Thumbnail>>, ours: set<string>,
                      deleted: set<string>,
                      ghost start: nat, ghost p: Plan, ghost handled: set<Location>, ghost l: Ledger)
    returns (status: Status, out: set<string>, ghost handled': set<Location>, ghost next: Ledger)
    requires p.flags == flags
    modifies repo
    ensures repo.faults >= old(repo.faults) && (status == Failed ==> repo.faults > old(repo.faults))
    ensures HasSlots(flags, found, r) ==> status != Broken
    ensures old(Going(repo, start, p, deleted, handled, l)) && RecordReady(p, r, found) ==>
      && status != Broken
      && SafeSince(repo, start, p)
      && (status == Fine ==>
            && Going(repo, start, p, out, handled', next)
            && handled' == handled + {r.at} + ThumbPlaces(found[MxcUri(r.mxc)])
            && next.rows == (if r.quarantined then l.rows else l.rows + {r})
            && next.held == (if r.mxc.origin in ours then l.held + {r.mxc} else l.held)
            && next.thumbs == l.thumbs + ThumbsOf(p.before, r.mxc))
  {
    if RecordReady(p, r, found) { ReadyParts(p, r, found, handled); }
    status, out, next := RemoveHead(repo, r, flags, ours, deleted, start, p, handled, l);
    handled' := handled + {r.at};
    if status != Fine { return; }
    if MxcUri(r.mxc) !in found { status := Broken; return; }
    var thumbs := found[MxcUri(r.mxc)];
    status, out, next := RemoveThumbs(repo, thumbs, flags, out, start, p, handled', next);
    handled' := handled' + ThumbPlaces(thumbs);
  }

  /** The ledger after the first records of the list. */
  ghost predicate Done(before: Db, records: seq<Media>, ours: set<string>, handled: set<Location>, l: Ledger) {
    && l.rows == (set r | r in records && !r.quarantined)
    && l.thumbs == (set t | t in before.thumbs && t.of in Listed(records))
    && l.held == (set x | x in Listed(records) && x.origin in ours)
    && (forall r | r in records :: r.at in handled)
    && (forall t | t in l.thumbs :: t.at in handled)
  }

  lemma DoneExtends(before: Db, records: seq<Media>, i: nat, ours: set<string>, thumbs: seq<Thumbnail>,
                    handled: set<Location>, l: Ledger, handled': set<Location>, next: Ledger)
    requires i < |records| && Done(before, records[..i], ours, handled, l)
    requires forall t :: t in thumbs <==> t in ThumbsOf(before, records[i].mxc)
    requires next.rows == (if records[i].quarantined then l.rows else l.rows + {records[i]})
    requires next.held == (if records[i].mxc.origin in ours then l.held + {records[i].mxc} else l.held)
    requires next.thumbs == l.thumbs + ThumbsOf(before, records[i].mxc)
    requires handled' == handled + {records[i].at} + ThumbPlaces(thumbs)
    ensures Done(before, records[..i + 1], ours, handled', next)
  {
    var r := records[i];
    assert records[..i + 1] == records[..i] + [r];
    assert Listed(records[..i + 1]) == Listed(records[..i]) + {r.mxc};
  }

  lemma DoneIsResult(p: Plan, records: seq<Media>, ours: set<string>, db: Db, deleted: set<string>,
                     handled: set<Location>, l: Ledger)
    requires Current(p.before, records) && p.listed == Listed(records)
    requires Done(p.before, records, ours, handled, l) && p.Tracks(db, deleted, handled, l)
    ensures db == PurgeResult(p.before, p.listed, ours)
  {
    var result := PurgeResult(p.before, p.listed, ours);
    forall at | at in p.before.objects && Removable(p.before, p.listed, at)
      ensures at in l.gone
    {
      var x :| x in UsersOf(p.before, at);
      var r :| r in records && r.mxc == x;
      if m :| m in p.before.media && m.at == at && m.mxc == x {
        assert m == r;
      } else {
        var t :| t in p.before.thumbs && t.at == at && t.of == x;
        assert t in l.thumbs;
      }
    }
    assert db.objects == result.objects;
    assert db.media == result.media;
    assert db.thumbs == result.thumbs;
    assert db.reserved == result.reserved;
  }

  ghost predicate Planned(p: Plan, records: seq<Media>, found: map<string, seq<Thumbnail>>) {
    Current(p.before, records) && p.Ready() && forall r | r in records :: RecordReady(p, r, found)
  }

  lemma NothingDone(p: Plan)
    ensures p.Tracks(p.before, {}, {}, Ledger({}, {}, {}, {}))
    ensures PurgeSafe(p.before, p.listed, p.before)
  {
    assert Applied(p.before, Ledger({}, {}, {}, {})) == p.before;
  }

  method RemoveAll(repo: Repo, records: seq<Media>, flags: Flags, found: map<string, seq<Thumbnail>>,
                   ours: set<string>, ghost p: Plan)
    returns (status: Status)
    requires p.flags == flags && p.listed == Listed(records)
    modifies repo
    ensures repo.faults >= old(repo.faults) && (status == Failed ==> repo.faults > old(repo.faults))
    ensures AllHaveSlots(flags, found, records) ==> status != Broken
    ensures Planned(p, records, found) && p.before == old(repo.db) ==>
      && status != Broken
      && SafeSince(repo, |old(repo.history)|, p)
      && (status == Fine ==> repo.db == PurgeResult(p.before, p.listed, ours))
  {
    ghost var good := Planned(p, records, found) && p.before == repo.db;
    ghost var start := |repo.history|;
    var deleted: set<string> := {};
    ghost var handled, l := {}, Ledger({}, {}, {}, {});
    NothingDone(p);
    status := Fine;
    for i := 0 to |records|
      invariant status == Fine && repo.faults >= old(repo.faults)
      invariant good ==> Going(repo, start, p, deleted, handled, l)
      invariant good ==> Done(p.before, records[..i], ours, handled, l)
    {
      status, deleted, handled, l := RemoveNext(repo, records, i, flags, found, ours, deleted, start, p, handled, l);
      if status != Fine { return; }
    }
    assert records[..|records|] == records;
    if good { DoneIsResult(p, records, ours, repo.db, deleted, handled, l); }
  }

  method RemoveNext(repo: Repo, records: seq<Media>, i: nat, flags: Flags, found: map<string, seq<Thumbnail>>,
                    ours: set<string>,
                    deleted: set<string>, ghost start: nat, ghost p: Plan, ghost handled: set<Location>,
                      ghost l: Ledger)
    returns (status: Status, out: set<string>, ghost handled': set<Location>, ghost next: Ledger)
    requires i < |records| && p.flags == flags
    modifies repo
    ensures repo.faults >= old(repo.faults) && (status == Failed ==> repo.faults > old(repo.faults))
    ensures AllHaveSlots(flags, found, records) ==> status != Broken
    ensures (old(Going(repo, start, p, deleted, handled, l)) && Planned(p, records, found)
             && Done(p.before, records[..i], ours, handled, l)) ==>
      && status != Broken
      && SafeSince(repo, start, p)
      && (status == Fine ==>
            Going(repo, start, p, out, handled', next) && Done(p.before, records[..i + 1], ours, handled', next))
  {
    ghost var good := Going(repo, start, p, deleted, handled, l) && Planned(p, records, found)
      && Done(p.before, records[..i], ours, handled, l);
    var r := records[i];
    assert r in records;
    assert good ==> RecordReady(p, r, found);
    assert AllHaveSlots(flags, found, records) ==> HasSlots(flags, found, r);
    status, out, handled', next := RemoveRecord(repo, r, flags, found, ours, deleted, start, p, handled, l);
    if good && status == Fine {
      DoneExtends(p.before, records, i, ours, found[MxcUri(r.mxc)], handled, l, handled', next);
    }
  }

  // ----- the whole purge -----

  method PreFilter(repo: Repo, records: seq<Media>, includeQuarantined: bool) returns (ok: bool, kept: seq<Media>)
    modifies repo
    ensures repo.db == old(repo.db) && repo.history == old(repo.history)
    ensures if ok then repo.faults == old(repo.faults) else repo.faults > old(repo.faults)
    ensures ok ==> kept == Kept(repo.db, records, includeQuarantined)
  {
    kept := [];
    for i := 0 to |records|
      invariant repo.db == old(repo.db) && repo.history == old(repo.history) && repo.faults == old(repo.faults)
      invariant kept == Kept(repo.db, records[..i], includeQuarantined)
    {
      var r := records[i];
      assert records[..i + 1][..i] == records[..i];
      if r.quarantined && !includeQuarantined { continue; }
      var pinned: bool;
      ok, pinned := repo.IsPinned(r.mxc);
      if !ok { return; }
      if pinned { continue; }
      kept := kept + [r];
    }
    assert records[..|records|] == records;
    ok := true;
  }

  /** The first location that prints this key. */
  function FirstWith(places: seq<Location>, id: string): Location
    requires exists p :: p in places && LocationId(p) == id
  {
    if LocationId(places[0]) == id then places[0] else FirstWith(places[1..], id)
  }

  /** The location whose key this is does not have the MXC among its users. */
  ghost predicate Clashes(db: Db, places: seq<Location>, at: Location, x: Mxc) {
    at in places && MxcUri(x) !in UserUris(db, FirstWith(places, LocationId(at)))
  }

  /** Stage 2 has nothing to mark for the record, or for a thumbnail found under its URI. */
  ghost predicate RecordClashes(db: Db, places: seq<Location>, found: map<string, seq<Thumbnail>>, r: Media) {
    || Clashes(db, places, r.at, r.mxc)
    || (MxcUri(r.mxc) in found && exists t :: t in found[MxcUri(r.mxc)] && Clashes(db, places, t.at, t.of))
  }

  ghost predicate Stuck(db: Db, records: seq<Media>, lists: seq<seq<Thumbnail>>)
    requires |lists| == |records|
  {
    exists i :: 0 <= i < |records| && RecordClashes(db, Places(records, lists), FoundOf(records, lists), records[i])
  }

  /** Stage 2 is to mark this use of this location. */
  ghost predicate ToMark(records: seq<Media>, lists: seq<seq<Thumbnail>>, at: Location, x: Mxc)
    requires |lists| == |records|
  {
    exists i :: 0 <= i < |records| && ToMarkFor(records[i], FoundOf(records, lists), at, x)
  }

  ghost predicate ToMarkFor(r: Media, found: map<string, seq<Thumbnail>>, at: Location, x: Mxc) {
    || (at == r.at && x == r.mxc)
    || (MxcUri(r.mxc) in found && exists t :: t in found[MxcUri(r.mxc)] && at == t.at && x == t.of)
  }

  /** The location was the first to print its key, but the MXC is not, or no longer, one
      of its users: the record was moved or deleted after it had been read. */
  ghost predicate StaleUse(db: Db, places: seq<Location>, at: Location, x: Mxc) {
    at in places && FirstWith(places, LocationId(at)) == at && MxcUri(x) !in UserUris(db, at)
  }

  /** A different location has printed the same key before, and the MXC is no user of it. */
  ghost predicate Collision(db: Db, places: seq<Location>, at: Location, x: Mxc) {
    && at in places && FirstWith(places, LocationId(at)) != at
    && MxcUri(x) !in UserUris(db, FirstWith(places, LocationId(at)))
  }

  ghost predicate HasStale(db: Db, records: seq<Media>, lists: seq<seq<Thumbnail>>)
    requires |lists| == |records|
  {
    exists at, x :: ToMark(records, lists, at, x) && StaleUse(db, Places(records, lists), at, x)
  }

  ghost predicate HasCollision(db: Db, records: seq<Media>, lists: seq<seq<Thumbnail>>)
    requires |lists| == |records|
  {
    exists at, x :: ToMark(records, lists, at, x) && Collision(db, Places(records, lists), at, x)
  }

  lemma StuckOnUse(db: Db, records: seq<Media>, lists: seq<seq<Thumbnail>>, at: Location, x: Mxc)
    requires |lists| == |records| && ToMark(records, lists, at, x) && Clashes(db, Places(records, lists), at, x)
    ensures Stuck(db, records, lists)
  {
    var i :| 0 <= i < |records| && ToMarkFor(records[i], FoundOf(records, lists), at, x);
    assert RecordClashes(db, Places(records, lists), FoundOf(records, lists), records[i]);
  }

  lemma UseOfStuck(db: Db, records: seq<Media>, lists: seq<seq<Thumbnail>>) returns (at: Location, x: Mxc)
    requires |lists| == |records| && Stuck(db, records, lists)
    ensures ToMark(records, lists, at, x) && Clashes(db, Places(records, lists), at, x)
  {
    var places, found := Places(records, lists), FoundOf(records, lists);
    var i :| 0 <= i < |records| && RecordClashes(db, places, found, records[i]);
    var r := records[i];
    at, x := r.at, r.mxc;
    if !Clashes(db, places, at, x) {
      var t: Thumbnail :| t in found[MxcUri(r.mxc)] && Clashes(db, places, t.at, t.of);
      at, x := t.at, t.of;
    }
    assert ToMarkFor(r, found, at, x);
  }

  /** The two ways to get stuck. */
  lemma StuckMeans(db: Db, records: seq<Media>, lists: seq<seq<Thumbnail>>)
    requires |lists| == |records|
    ensures Stuck(db, records, lists) <==> HasStale(db, records, lists) || HasCollision(db, records, lists)
  {
    var places := Places(records, lists);
    if Stuck(db, records, lists) {
      var at, x := UseOfStuck(db, records, lists);
      assert StaleUse(db, places, at, x) || Collision(db, places, at, x);
    }
    if at, x :| ToMark(records, lists, at, x) && StaleUse(db, places, at, x) { StuckOnUse(db, records, lists, at, x); }
    if at, x :| ToMark(records, lists, at, x) && Collision(db, places, at, x) { StuckOnUse(db, records, lists, at, x); }
  }

  lemma {:induction false} FoundIsListed(records: seq<Media>, lists: seq<seq<Thumbnail>>, u: string, t: Thumbnail)
    requires |lists| == |records| && u in FoundOf(records, lists) && t in FoundOf(records, lists)[u]
    ensures exists i :: 0 <= i < |records| && t in lists[i]
  {
    var n := |records| - 1;
    if u != MxcUri(records[n].mxc) {
      FoundIsListed(records[..n], lists[..n], u, t);
      var i :| 0 <= i < n && t in lists[..n][i];
      assert t in lists[i];
    } else {
      assert t in lists[n];
    }
  }

  /** Rows of the table are users of their locations. */
  lemma TableRowsAreNotStale(db: Db, records: seq<Media>, lists: seq<seq<Thumbnail>>)
    requires Listing(db, records, lists) && forall r | r in records :: r in db.media
    ensures !HasStale(db, records, lists)
  {
    forall at, x | ToMark(records, lists, at, x)
      ensures MxcUri(x) in UserUris(db, at)
    {
      var i :| 0 <= i < |records| && ToMarkFor(records[i], FoundOf(records, lists), at, x);
      var r := records[i];
      assert r in records;
      if !(at == r.at && x == r.mxc) {
        var t: Thumbnail :| t in FoundOf(records, lists)[MxcUri(r.mxc)] && at == t.at && x == t.of;
        FoundIsListed(records, lists, MxcUri(r.mxc), t);
        var k :| 0 <= k < |records| && t in lists[k];
        assert t in ThumbsOf(db, records[k].mxc);
      }
      assert x in UsersOf(db, at);
    }
  }

  lemma {:induction false} FirstClaims(db: Db, places: seq<Location>, p: Location)
    requires p in places
    ensures LocationId(p) in FlagPlaces(db, places)
    ensures FlagPlaces(db, places)[LocationId(p)].Keys == UserUris(db, FirstWith(places, LocationId(p)))
    decreases |places|
  {
    var n, id := |places| - 1, LocationId(p);
    var init := places[..n];
    assert places == init + [places[n]];
    if q :| q in init && LocationId(q) == id {
      FirstClaims(db, init, q);
      FirstOfPrefix(init, places[n], id);
    } else {
      NoClaimYet(db, init, id);
      FirstIsLast(init, places[n], id);
    }
  }

  lemma {:induction false} FirstOfPrefix(places: seq<Location>, last: Location, id: string)
    requires exists p :: p in places && LocationId(p) == id
    ensures FirstWith(places + [last], id) == FirstWith(places, id)
  {
    if LocationId(places[0]) != id {
      assert (places + [last])[1..] == places[1..] + [last];
      FirstOfPrefix(places[1..], last, id);
    }
  }

  lemma {:induction false} FirstIsLast(places: seq<Location>, last: Location, id: string)
    requires LocationId(last) == id && forall p | p in places :: LocationId(p) != id
    ensures FirstWith(places + [last], id) == last
  {
    if places != [] {
      assert (places + [last])[1..] == places[1..] + [last];
      FirstIsLast(places[1..], last, id);
    }
  }

  lemma {:induction false} NoClaimYet(db: Db, places: seq<Location>, id: string)
    requires forall p | p in places :: LocationId(p) != id
    ensures id !in FlagPlaces(db, places)
  {
    if places != [] { NoClaimYet(db, places[..|places| - 1], id); }
  }

  lemma {:induction false} FoundComesBy(records: seq<Media>, lists: seq<seq<Thumbnail>>, r: Media)
    requires |lists| == |records| && r in records
    ensures MxcUri(r.mxc) in FoundOf(records, lists)
    ensures forall t | t in FoundOf(records, lists)[MxcUri(r.mxc)] :: t.at in Places(records, lists)
  {
    var n := |records| - 1;
    assert records == records[..n] + [records[n]];
    if MxcUri(r.mxc) != MxcUri(records[n].mxc) {
      FoundComesBy(records[..n], lists[..n], r);
      forall t | t in FoundOf(records, lists)[MxcUri(r.mxc)] ensures t.at in Places(records, lists) {
        assert t.at in Places(records[..n], lists[..n]);
      }
    } else {
      forall t | t in lists[n] ensures t.at in Places(records, lists) {
        PlacesAre(records, lists, t.at);
        assert StopsAt(records[n], lists[n], t.at);
      }
    }
  }

  /** Stage 2 gets through exactly if every use to mark is one of the location that owns
      the key. */
  lemma StuckIff(db: Db, records: seq<Media>, lists: seq<seq<Thumbnail>>)
    requires |lists| == |records|
    ensures AllHaveSlots(FlagPlaces(db, Places(records, lists)), FoundOf(records, lists), records) <==>
      !Stuck(db, records, lists)
  {
    var places := Places(records, lists);
    var flags, found := FlagPlaces(db, places), FoundOf(records, lists);
    forall at, x | at in places ensures HasSlot(flags, at, x) <==> !Clashes(db, places, at, x) {
      FirstClaims(db, places, at);
    }
    forall r | r in records
      ensures r.at in places && MxcUri(r.mxc) in found
        && forall t: Thumbnail | t in found[MxcUri(r.mxc)] :: t.at in places
    {
      var i :| 0 <= i < |records| && records[i] == r;
      PlacesAre(records, lists, r.at);
      assert StopsAt(records[i], lists[i], r.at);
      FoundComesBy(records, lists, r);
    }
  }

  /** For any table and any records, a purge in which no call fails ends in a "logic
      error" exactly if a record is stale or two locations print the same key with
      different users, for table rows exactly in the second case, and then nothing has
      been changed. With unambiguous keys and the records current, in any order and with
      any repetitions, it never does; whatever calls fail, every state passed through has
      only lost rows of listed MXCs and objects nobody else uses; a completed purge has
      done exactly `PurgeResult`; and on the way to it the law is violated exactly if a
      row or thumbnail needed an object that it removes. */
  method DoPurge(repo: Repo, records: seq<Media>, includeQuarantined: bool, ours: set<string>)
    returns (result: Outcome, ghost lists: seq<seq<Thumbnail>>)
    modifies repo
    ensures repo.faults >= old(repo.faults)
    ensures result == StoreError ==> repo.faults > old(repo.faults)
    ensures result != WrongUser && result != BadRequest
    ensures result == LogicError ==> repo.faults == old(repo.faults) && repo.db == old(repo.db)
    ensures repo.faults == old(repo.faults) ==>
      var kept := Kept(old(repo.db), records, includeQuarantined);
      && Listing(old(repo.db), kept, lists)
      && (result == LogicError <==> HasStale(old(repo.db), kept, lists) || HasCollision(old(repo.db), kept, lists))
      && ((forall r | r in records :: r in old(repo.db.media)) ==>
            (result == LogicError <==> HasCollision(old(repo.db), kept, lists)))
    ensures Current(old(repo.db), records) ==>
      var listed := Listed(Kept(old(repo.db), records, includeQuarantined));
      && result != LogicError
      && SafeFrom(repo, |old(repo.history)|, old(repo.db), listed)
      && (result.Purged? ==> repo.db == PurgeResult(old(repo.db), listed, ours))
    ensures result.Purged? ==> result.mxcs == Uris(Kept(old(repo.db), records, includeQuarantined))
    ensures Current(old(repo.db), records) && Consistent(old(repo.db)) ==>
      var listed := Listed(Kept(old(repo.db), records, includeQuarantined));
      && (Exposed(repo.history, |old(repo.history)|) <==> Lost(old(repo.db), repo.db))
      && (Robust(old(repo.db), listed) ==> !Exposed(repo.history, |old(repo.history)|))
      && (result.Purged? ==> (Exposed(repo.history, |old(repo.history)|) <==> !Robust(old(repo.db), listed)))
  {
    lists := [];
    ghost var before, start := repo.db, |repo.history|;
    if Current(repo.db, records) { KeptIsCurrent(repo.db, records, includeQuarantined); }
    NothingDone(Plan(repo.db, Listed(Kept(repo.db, records, includeQuarantined)), map[], {}));
    var ok, kept := PreFilter(repo, records, includeQuarantined);
    if !ok { return StoreError, lists; }
    result, lists := PurgeKept(repo, kept, ours);
    if repo.faults == old(repo.faults) { StuckFor(before, records, includeQuarantined, kept, lists); }
    if Current(before, records) && Consistent(before) {
      ExposedIffLost(repo, start, before, Listed(kept));
      if result.Purged? { PurgedLosesIff(before, Listed(kept), ours); }
    }
  }

  lemma StuckFor(db: Db, records: seq<Media>, iq: bool, kept: seq<Media>, lists: seq<seq<Thumbnail>>)
    requires kept == Kept(db, records, iq) && Listing(db, kept, lists)
    ensures Stuck(db, kept, lists) <==> HasStale(db, kept, lists) || HasCollision(db, kept, lists)
    ensures (forall r | r in records :: r in db.media) ==> !HasStale(db, kept, lists)
  {
    StuckMeans(db, kept, lists);
    if forall r | r in records :: r in db.media {
      KeptFilters(db, records, iq);
      TableRowsAreNotStale(db, kept, lists);
    }
  }

  /** All three stages, on the filtered records. */
  method PurgeKept(repo: Repo, kept: seq<Media>, ours: set<string>)
    returns (result: Outcome, ghost lists: seq<seq<Thumbnail>>)
    modifies repo
    ensures repo.faults >= old(repo.faults)
    ensures result.Purged? || result == StoreError || result == LogicError
    ensures result == StoreError ==> repo.faults > old(repo.faults)
    ensures result == LogicError ==> repo.faults == old(repo.faults) && repo.db == old(repo.db)
    ensures repo.faults == old(repo.faults) ==>
      Listing(old(repo.db), kept, lists) && (result == LogicError <==> Stuck(old(repo.db), kept, lists))
    ensures Current(old(repo.db), kept) ==>
      && result != LogicError
      && SafeFrom(repo, |old(repo.history)|, old(repo.db), Listed(kept))
      && (result.Purged? ==> repo.db == PurgeResult(old(repo.db), Listed(kept), ours))
    ensures result.Purged? ==> result.mxcs == Uris(kept)
  {
    ghost var before := repo.db;
    NothingDone(Plan(before, Listed(kept), map[], {}));
    var ok, flags, found;
    ok, flags, found, lists := FlagAll(repo, kept);
    if !ok { return StoreError, lists; }
    StuckIff(before, kept, lists);
    ghost var seen := SeenAt(Places(kept, lists));
    if Current(before, kept) { FlagsShowTheUsers(before, kept, lists); }
    result := MarkAndRemove(repo, kept, flags, found, ours, seen);
  }

  /** Stages 2 and 3. */
  method MarkAndRemove(repo: Repo, kept: seq<Media>, flags0: Flags, found: map<string, seq<Thumbnail>>,
                       ours: set<string>, ghost seen: set<Location>)
    returns (result: Outcome)
    modifies repo
    ensures repo.faults >= old(repo.faults)
    ensures result.Purged? || result == StoreError || result == LogicError
    ensures result == StoreError ==> repo.faults > old(repo.faults)
    ensures result == LogicError ==>
      repo.faults == old(repo.faults) && repo.db == old(repo.db) && repo.history == old(repo.history)
    ensures result == LogicError <==> !AllHaveSlots(flags0, found, kept)
    ensures Flagged(old(repo.db), kept, flags0, seen, found) ==>
      && result != LogicError
      && SafeFrom(repo, |old(repo.history)|, old(repo.db), Listed(kept))
      && (result.Purged? ==> repo.db == PurgeResult(old(repo.db), Listed(kept), ours))
    ensures result.Purged? ==> result.mxcs == Uris(kept)
  {
    ghost var before := repo.db;
    ghost var good := Flagged(before, kept, flags0, seen, found);
    var status, flags; ghost var marked;
    status, flags, marked := MarkAll(before, kept, flags0, found, seen);
    if status != Fine { return LogicError; }
    SlotsStay(flags0, flags, found, kept);
    ghost var p := Plan(before, Listed(kept), flags, seen);
    if good {
      FlagsDecide(before, kept, flags, seen, marked);
      RecordsReady(p, kept, found);
    }
    status := RemoveAll(repo, kept, flags, found, ours, p);
    if status == Failed { return StoreError; }
    result := Purged(Uris(kept));
  }

  lemma SlotsStay(flags: Flags, out: Flags, found: map<string, seq<Thumbnail>>, records: seq<Media>)
    requires SameSlots(flags, out) && AllHaveSlots(flags, found, records)
    ensures AllHaveSlots(out, found, records)
  {
    forall r | r in records ensures HasSlots(out, found, r) { SlotsAgree(flags, out, found, r); }
  }

  lemma RecordsReady(p: Plan, records: seq<Media>, found: map<string, seq<Thumbnail>>)
    requires Current(p.before, records) && Covers(p.before, records, p.seen) && ThumbsFound(p.before, records, found)
    requires p.listed == Listed(records)
    ensures forall r | r in records :: RecordReady(p, r, found)
  {}

  /** Such tables exist: slashes in datastore IDs are enough. Two rows whose locations
      print the same key, purged together, end in the "logic error". */
  lemma SlashesBreakThePurge(m: Media, n: Media, lists: seq<seq<Thumbnail>>)
    requires m.at == Location("a/b", "c") && n.at == Location("a", "b/c") && MxcUri(m.mxc) != MxcUri(n.mxc)
    requires Listing(Db({m, n}, {}, {}, {}, map[m.at := m.hash, n.at := n.hash]), [m, n], lists)
    ensures HasCollision(Db({m, n}, {}, {}, {}, map[m.at := m.hash, n.at := n.hash]), [m, n], lists)
    ensures Kept(Db({m, n}, {}, {}, {}, map[m.at := m.hash, n.at := n.hash]), [m, n], true) == [m, n]
  {
    var db := Db({m, n}, {}, {}, {}, map[m.at := m.hash, n.at := n.hash]);
    KeptBoth(db, m, n);
    assert LocationId(m.at) == "a/b/c" && LocationId(n.at) == "a/b/c";
    NoThumbsNoPlaces(m, n, lists);
    assert UsersOf(db, m.at) == {m.mxc};
    assert Collision(db, [m.at, n.at], n.at, n.mxc);
    assert ToMarkFor([m, n][1], FoundOf([m, n], lists), n.at, n.mxc);
  }

  /** The other way, with any keys: a record that is no user of its location any more. */
  lemma StaleRecordsStopThePurge(db: Db, m: Media, lists: seq<seq<Thumbnail>>)
    requires Listing(db, [m], lists) && MxcUri(m.mxc) !in UserUris(db, m.at)
    ensures HasStale(db, [m], lists)
  {
    var places := Places([m], lists);
    assert [m][..0] == [] && lists[..0] == [];
    assert Places([m][..0], lists[..0]) == [];
    assert places == [] + [m.at] + SpotsOf(lists[0]) && places[0] == m.at;
    assert StaleUse(db, places, m.at, m.mxc);
    assert ToMarkFor([m][0], FoundOf([m], lists), m.at, m.mxc);
  }

  lemma KeptBoth(db: Db, m: Media, n: Media)
    requires db.pinned == {}
    ensures Kept(db, [m, n], true) == [m, n]
  {
    assert [m, n][..1] == [m] && [m][..0] == [];
    assert Kept(db, [m][..0], true) == [] && Kept(db, [m], true) == [m];
  }

  lemma NoThumbsNoPlaces(m: Media, n: Media, lists: seq<seq<Thumbnail>>)
    requires |lists| == 2 && (forall t :: t !in lists[0]) && forall t :: t !in lists[1]
    ensures Places([m, n], lists) == [m.at, n.at]
  {
    NoMembers(lists[0]);
    NoMembers(lists[1]);
    var one := lists[..1];
    assert [m, n][..1] == [m] && [m][..0] == [] && one[..0] == [];
    assert Places([], one[..0]) == [];
    assert Places([m], one) == [m.at];
  }

  lemma NoMembers(s: seq<Thumbnail>)
    ensures s == [] || exists t :: t in s
  {
    if s != [] { assert s[0] in s; }
  }

  // ----- the request -----

  datatype Auth = Auth(uploader: string, origin: string)

  predicate CanAffect(auth: Auth, m: Media) {
    && (auth.uploader == "" || auth.uploader == m.userId)
    && (auth.origin == "" || auth.origin == m.mxc.origin)
  }

  method Authorised(auth: Auth, records: seq<Media>) returns (ok: bool)
    ensures ok <==> forall m | m in records :: CanAffect(auth, m)
  {
    for i := 0 to |records|
      invariant forall k | 0 <= k < i :: CanAffect(auth, records[k])
    {
      if !CanAffect(auth, records[i]) {
        assert records[i] in records;
        return false;
      }
    }
    return true;
  }

  lemma KeptOne(db: Db, r: Media, iq: bool)
    ensures Kept(db, [r], iq) == if (r.quarantined && !iq) || r.mxc in db.pinned then [] else [r]
  {
    assert [r][..0] == [];
    assert Kept(db, [r][..0], iq) == [];
  }

  /** Filtering works record by record: order and repetitions stay. */
  lemma {:induction false} KeptInOrder(db: Db, front: seq<Media>, back: seq<Media>, iq: bool)
    ensures Kept(db, front + back, iq) == Kept(db, front, iq) + Kept(db, back, iq)
  {
    if back == [] {
      assert front + back == front;
    } else {
      var all, n := front + back, |back| - 1;
      KeptInOrder(db, front, back[..n], iq);
      assert all[..|all| - 1] == front + back[..n] && all[|all| - 1] == back[n];
    }
  }

  lemma UrisAreThoseOf(records: seq<Media>, s: string)
    ensures s in Uris(records) <==> exists m :: m in records && s == MxcUri(m.mxc)
  {
    if m :| m in records && s == MxcUri(m.mxc) {
      var i :| 0 <= i < |records| && records[i] == m;
      assert Uris(records)[i] == s;
    }
  }

  /** What a purge that keeps nothing back for quarantine reports. */
  lemma ReportsTheUnpinned(db: Db, records: seq<Media>)
    ensures forall s :: s in Uris(Kept(db, records, true)) <==>
      exists m :: m in records && m.mxc !in db.pinned && s == MxcUri(m.mxc)
  {
    var kept := Kept(db, records, true);
    KeptFilters(db, records, true);
    forall s ensures s in Uris(kept) <==> exists m :: m in records && m.mxc !in db.pinned && s == MxcUri(m.mxc) {
      UrisAreThoseOf(kept, s);
      if m :| m in records && m.mxc !in db.pinned && s == MxcUri(m.mxc) { assert m in kept; }
    }
  }

  /** All or nothing: the authorisation of every record is checked before anything is
      removed. If no call fails the answer is decided: a bad request if some URI does not
      parse, else a refusal if a record belongs to another uploader or origin than the
      caller speaks for, else, for current records, a purge that reports the unpinned
      records' URIs, in order. */
  method PurgeMedia(repo: Repo, auth: Auth, target: Target, ours: set<string>)
    returns (result: Outcome, ghost records: seq<Media>)
    modifies repo
    ensures repo.faults >= old(repo.faults)
    ensures result.Purged? || result == WrongUser ==> RecordsOf(old(repo.db), records, "", target)
    ensures Sourced(old(repo.db), records, "", target)
    ensures result == StoreError ==> repo.faults > old(repo.faults)
    ensures result == BadRequest ==> exists u :: u in target.uris && SplitMxc(u) == None
    ensures result == WrongUser ==> exists m :: (m in records
      && ((auth.uploader != "" && m.userId != auth.uploader) || (auth.origin != "" && m.mxc.origin != auth.origin)))
    ensures result != WrongUser ==> forall m | m in records ::
      (auth.uploader == "" || m.userId == auth.uploader) && (auth.origin == "" || m.mxc.origin == auth.origin)
    ensures result == WrongUser || result == BadRequest ==>
      repo.db == old(repo.db) && repo.history == old(repo.history)
    ensures repo.faults == old(repo.faults) && (exists u :: u in target.uris && SplitMxc(u) == None) ==>
      result == BadRequest
    ensures repo.faults == old(repo.faults) && (forall u | u in target.uris :: SplitMxc(u).Some?) ==>
      && RecordsOf(old(repo.db), records, "", target)
      && (Current(old(repo.db), records) ==> result.Purged? || result == WrongUser)
    ensures Current(old(repo.db), records) ==>
      var listed := Listed(Kept(old(repo.db), records, true));
      && result != LogicError
      && PurgeSafe(old(repo.db), listed, repo.db)
      && (result.Purged? ==> repo.db == PurgeResult(old(repo.db), listed, ours))
    ensures result.Purged? ==>
      && |result.mxcs| == |Kept(old(repo.db), records, true)|
      && (forall i | 0 <= i < |result.mxcs| :: result.mxcs[i] == MxcUri(Kept(old(repo.db), records, true)[i].mxc))
      && (forall s :: s in result.mxcs <==>
            exists m :: m in records && m.mxc !in old(repo.db).pinned && s == MxcUri(m.mxc))
  {
    records := [];
    NothingDone(Plan(repo.db, {}, map[], {}));
    var r := ResolveMedia(repo, "", target);
    if r == BadUri { return BadRequest, []; }
    if r == LookupFailed { return StoreError, []; }
    records := r.records;
    SourcedPrefix(repo.db, records, "", target, |records|);
    assert records[..|records|] == records;
    NothingDone(Plan(repo.db, Listed(Kept(repo.db, records, true)), map[], {}));
    ReportsTheUnpinned(repo.db, records);
    var ok := Authorised(auth, r.records);
    if !ok { return WrongUser, records; }
    ghost var lists;
    result, lists := DoPurge(repo, r.records, true, ours);
  }
}
