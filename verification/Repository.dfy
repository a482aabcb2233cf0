/** The media repository's durable state: the media and thumbnail tables, the pin
    and reserved-ID tables, and the object stores. Tables are sets of rows and the
    SQL statements are set operations. A stored object is represented by the
    SHA-256 of its bytes. */
module Repository {
  import opened Wrappers

  type Hash = string

  datatype Mxc = Mxc(origin: string, mediaId: string)

  datatype Location = Location(datastoreId: string, name: string)

  datatype Media = Media(
    mxc: Mxc,
    uploadName: string,
    contentType: string,
    userId: string,
    hash: Hash,
    sizeBytes: int,
    creationTs: int,
    quarantined: bool,
    at: Location)

  datatype Thumbnail = Thumbnail(
    of: Mxc,
    contentType: string,
    width: int,
    height: int,
    method_: string,
    animated: bool,
    hash: Hash,
    sizeBytes: int,
    creationTs: int,
    at: Location)

  datatype Db = Db(
    media: set<Media>,
    thumbs: set<Thumbnail>,
    pinned: set<Mxc>,
    reserved: set<Mxc>,
    objects: map<Location, Hash>)

  // ----- string keys -----

  function MxcUri(x: Mxc): string {
    "mxc://" + x.origin + "/" + x.mediaId
  }

  function LocationId(at: Location): string {
    at.datastoreId + "/" + at.name
  }

  function LocationIds(locations: set<Location>): set<string> {
    set at | at in locations :: LocationId(at)
  }

  lemma SlashSplitsOnce(a: string, b: string, c: string, d: string)
    requires '/' !in a && '/' !in c
    requires a + "/" + b == c + "/" + d
    ensures a == c && b == d
  {
    var s := a + "/" + b;
    assert s[|a|] == '/' && s[|c|] == '/';
    assert a == s[..|a|] && c == s[..|c|];
    assert b == s[|a| + 1..] && d == s[|c| + 1..];
  }

  /** The string keys of the purge code are injective once origins and datastore
      IDs contain no '/'. */
  lemma KeysAreInjective(x: Mxc, y: Mxc, p: Location, q: Location)
    requires '/' !in x.origin && '/' !in y.origin
    requires '/' !in p.datastoreId && '/' !in q.datastoreId
    ensures MxcUri(x) == MxcUri(y) ==> x == y
    ensures LocationId(p) == LocationId(q) ==> p == q
  {
    if MxcUri(x) == MxcUri(y) {
      assert MxcUri(x)[6..] == x.origin + "/" + x.mediaId;
      assert MxcUri(y)[6..] == y.origin + "/" + y.mediaId;
      SlashSplitsOnce(x.origin, x.mediaId, y.origin, y.mediaId);
    }
    if LocationId(p) == LocationId(q) {
      SlashSplitsOnce(p.datastoreId, p.name, q.datastoreId, q.name);
    }
  }

  ghost predicate WellKeyed(db: Db) {
    && (forall m | m in db.media :: '/' !in m.mxc.origin && '/' !in m.at.datastoreId)
    && (forall t | t in db.thumbs :: '/' !in t.of.origin && '/' !in t.at.datastoreId)
  }

  // ----- queries and statements -----

  function MediaAt(db: Db, at: Location): set<Media> {
    set m | m in db.media && m.at == at
  }

  function ThumbsAt(db: Db, at: Location): set<Thumbnail> {
    set t | t in db.thumbs && t.at == at
  }

  function ThumbsOf(db: Db, x: Mxc): set<Thumbnail> {
    set t | t in db.thumbs && t.of == x
  }

  /** The MXCs whose media row or whose thumbnails live at a location. */
  function UsersOf(db: Db, at: Location): set<Mxc> {
    (set m | m in db.media && m.at == at :: m.mxc) + (set t | t in db.thumbs && t.at == at :: t.of)
  }

  predicate HashQuarantined(db: Db, hash: Hash) {
    exists m | m in db.media :: m.quarantined && m.hash == hash
  }

  function MediaDeleted(db: Db, x: Mxc): Db {
    db.(media := set m | m in db.media && m.mxc != x)
  }

  function ThumbDeleted(db: Db, t: Thumbnail): Db {
    db.(thumbs := db.thumbs - {t})
  }

  function ObjectRemoved(db: Db, at: Location): Db {
    db.(objects := db.objects - {at})
  }

  function ObjectWritten(db: Db, at: Location, content: Hash): Db {
    db.(objects := db.objects[at := content])
  }

  function Reserved(db: Db, x: Mxc): Db {
    db.(reserved := db.reserved + {x})
  }

  function RowMoved(m: Media, from: Location, to: Location): Media {
    if m.at == from then m.(at := to) else m
  }

  function ThumbMoved(t: Thumbnail, from: Location, to: Location): Thumbnail {
    if t.at == from then t.(at := to) else t
  }

  function MediaMoved(db: Db, from: Location, to: Location): Db {
    db.(media := set m | m in db.media :: RowMoved(m, from, to))
  }

  function ThumbsMoved(db: Db, from: Location, to: Location): Db {
    db.(thumbs := set t | t in db.thumbs :: ThumbMoved(t, from, to))
  }

  // ----- the consistency notions -----

  /** The unique index of the media table. */
  ghost predicate UniqueIds(db: Db) {
    forall m, n | m in db.media && n in db.media && m.mxc == n.mxc :: m == n
  }

  ghost predicate Stored(db: Db, at: Location, hash: Hash) {
    at in db.objects && db.objects[at] == hash
  }

  /** No row has lost its object: every thumbnail and every media row that is not
      quarantined points at a stored object with the row's hash, and a quarantined
      row never points at an object with different bytes. */
  ghost predicate Sound(db: Db) {
    && (forall m | m in db.media :: !m.quarantined || m.at in db.objects ==> Stored(db, m.at, m.hash))
    && (forall t | t in db.thumbs :: Stored(db, t.at, t.hash))
  }

  /** A row at this location is bound to lose its object when there is none. */
  ghost predicate NeedsObject(db: Db, at: Location) {
    ThumbsAt(db, at) != {} || exists m :: m in db.media && m.at == at && !m.quarantined
  }

  lemma NeedyPlacesAreStored(db: Db, at: Location)
    requires Sound(db) && NeedsObject(db, at)
    ensures at in db.objects
  {
    if t :| t in ThumbsAt(db, at) { assert Stored(db, t.at, t.hash); }
  }

  /** Some state since `start` violates the law. */
  ghost predicate Exposed(history: seq<Db>, start: nat) {
    exists k :: start <= k < |history| && !Consistent(history[k])
  }

  lemma ExposedGrows(history: seq<Db>, db: Db, start: nat)
    requires start <= |history|
    ensures Exposed(history + [db], start) <==> Exposed(history, start) || !Consistent(db)
  {
    var more := history + [db];
    if !Consistent(db) { assert !Consistent(more[|history|]); }
    if k :| start <= k < |history| && !Consistent(history[k]) { assert !Consistent(more[k]); }
  }

  /** No object is leaked: every object is still used by some row. */
  ghost predicate NoOrphans(db: Db) {
    forall at | at in db.objects :: UsersOf(db, at) != {}
  }

  /** Deduplication holds: all media rows of one hash share one location. */
  ghost predicate OneHome(db: Db) {
    forall m, n | m in db.media && n in db.media && m.hash == n.hash :: m.at == n.at
  }

  ghost predicate Consistent(db: Db) {
    UniqueIds(db) && Sound(db) && OneHome(db)
  }

  /** Nothing is stored at or points to this location. */
  ghost predicate Unused(db: Db, at: Location) {
    at !in db.objects && UsersOf(db, at) == {}
  }

  /** `now` differs from `before` at most in the object stored at `at`. */
  ghost predicate SameBut(before: Db, now: Db, at: Location) {
    now.(objects := now.objects - {at}) == before.(objects := before.objects - {at})
  }

  // ----- the live repository -----

  /** Turns a query result into the list the driver hands back, in some order. */
  method ToList<T(==)>(s: set<T>) returns (q: seq<T>)
    ensures forall x :: x in q <==> x in s
    ensures |q| == |s|
    ensures forall i, j | 0 <= i < j < |q| :: q[i] != q[j]
  {
    q := [];
    var rest := s;
    while rest != {}
      invariant rest <= s
      invariant forall x :: x in q <==> x in s && x !in rest
      invariant |q| + |rest| == |s|
      invariant forall i, j | 0 <= i < j < |q| :: q[i] != q[j]
      decreases rest
    {
      var x :| x in rest;
      q, rest := q + [x], rest - {x};
    }
  }

  /** The names in use at any datastore, by an object or by a row. */
  function NamesInUse(db: Db): set<string> {
    (set at | at in db.objects :: at.name)
    + (set m | m in db.media :: m.at.name)
    + (set t | t in db.thumbs :: t.at.name)
  }

  /** Stands in for the unique ID generator. */
  method NewName(used: set<string>) returns (name: string)
    ensures name !in used
  {
    name := "";
    var rest := used;
    while rest != {}
      invariant rest <= used
      invariant forall s | s in used && s !in rest :: |s| < |name|
      decreases rest
    {
      var s :| s in rest;
      rest := rest - {s};
      name := name + s + "x";
    }
  }

  /** The database and the datastores behind fallible calls. A failed call changes
      no table and no object. `history` records the state after every call that may
      write, `faults` counts the calls that failed. */
  class Repo {
    var db: Db
    ghost var history: seq<Db>
    ghost var faults: nat

    twostate predicate Wrote(ok: bool, next: Db)
      reads this
    {
      && db == (if ok then next else old(db))
      && history == old(history) + [db]
      && faults == old(faults) + (if ok then 0 else 1)
    }

    twostate predicate Looked(ok: bool)
      reads this
    {
      && db == old(db)
      && history == old(history)
      && faults == old(faults) + (if ok then 0 else 1)
    }

    method IsPinned(x: Mxc) returns (ok: bool, pinned: bool)
      modifies this
      ensures Looked(ok)
      ensures ok ==> pinned == (x in db.pinned)
    {
      ok, pinned := *, x in db.pinned;
      if !ok { faults := faults + 1; }
    }

    method GetMediaById(x: Mxc) returns (ok: bool, row: Option<Media>)
      modifies this
      ensures Looked(ok)
      ensures ok ==> match row
        case Some(m) => m in db.media && m.mxc == x
        case None => forall m | m in db.media :: m.mxc != x
    {
      ok, row := *, None;
      if m :| m in db.media && m.mxc == x {
        row := Some(m);
      }
      if !ok { faults := faults + 1; }
    }

    method GetMediaByLocation(at: Location) returns (ok: bool, rows: seq<Media>)
      modifies this
      ensures Looked(ok)
      ensures ok ==> forall m :: m in rows <==> m in MediaAt(db, at)
    {
      ok := *;
      rows := ToList(MediaAt(db, at));
      if !ok { faults := faults + 1; }
    }

    method GetThumbsByLocation(at: Location) returns (ok: bool, rows: seq<Thumbnail>)
      modifies this
      ensures Looked(ok)
      ensures ok ==> forall t :: t in rows <==> t in ThumbsAt(db, at)
      ensures ok ==> forall i, j | 0 <= i < j < |rows| :: rows[i] != rows[j]
    {
      ok := *;
      rows := ToList(ThumbsAt(db, at));
      if !ok { faults := faults + 1; }
    }

    method GetThumbsForMedia(x: Mxc) returns (ok: bool, rows: seq<Thumbnail>)
      modifies this
      ensures Looked(ok)
      ensures ok ==> forall t :: t in rows <==> t in ThumbsOf(db, x)
    {
      ok := *;
      rows := ToList(ThumbsOf(db, x));
      if !ok { faults := faults + 1; }
    }

    method MediaLocationExists(at: Location) returns (ok: bool, exists_: bool)
      modifies this
      ensures Looked(ok)
      ensures ok ==> exists_ == (MediaAt(db, at) != {})
    {
      ok, exists_ := *, MediaAt(db, at) != {};
      if !ok { faults := faults + 1; }
    }

    method DeleteMedia(x: Mxc) returns (ok: bool)
      modifies this
      ensures Wrote(ok, MediaDeleted(old(db), x))
    {
      ok := *;
      if ok { db := MediaDeleted(db, x); } else { faults := faults + 1; }
      history := history + [db];
    }

    method DeleteThumb(t: Thumbnail) returns (ok: bool)
      modifies this
      ensures Wrote(ok, ThumbDeleted(old(db), t))
    {
      ok := *;
      if ok { db := ThumbDeleted(db, t); } else { faults := faults + 1; }
      history := history + [db];
    }

    method ReserveId(x: Mxc) returns (ok: bool)
      modifies this
      ensures Wrote(ok, Reserved(old(db), x))
    {
      ok := *;
      if ok { db := Reserved(db, x); } else { faults := faults + 1; }
      history := history + [db];
    }

    method RemoveObject(at: Location) returns (ok: bool)
      modifies this
      ensures Wrote(ok, ObjectRemoved(old(db), at))
    {
      ok := *;
      if ok { db := ObjectRemoved(db, at); } else { faults := faults + 1; }
      history := history + [db];
    }

    method UpdateMediaLocation(from: Location, to: Location) returns (ok: bool)
      modifies this
      ensures Wrote(ok, MediaMoved(old(db), from, to))
    {
      ok := *;
      if ok { db := MediaMoved(db, from, to); } else { faults := faults + 1; }
      history := history + [db];
    }

    method UpdateThumbLocation(from: Location, to: Location) returns (ok: bool)
      modifies this
      ensures Wrote(ok, ThumbsMoved(old(db), from, to))
    {
      ok := *;
      if ok { db := ThumbsMoved(db, from, to); } else { faults := faults + 1; }
      history := history + [db];
    }

    /** Opening an object that is not there fails without a fault. */
    method Download(at: Location) returns (ok: bool, content: Hash)
      modifies this
      ensures db == old(db) && history == old(history) && faults >= old(faults)
      ensures ok ==> Stored(db, at, content)
      ensures !ok && faults == old(faults) ==> at !in db.objects
    {
      if at !in db.objects {
        return false, "";
      }
      ok, content := *, db.objects[at];
      if !ok { faults := faults + 1; }
    }

    /** Writing the bytes of a new object; an interrupted write may leave a fragment. */
    method WriteObject(at: Location, content: Hash) returns (ok: bool)
      modifies this
      ensures ok ==> Wrote(true, ObjectWritten(old(db), at, content))
      ensures !ok ==> history == old(history) + [db] && faults > old(faults)
      ensures !ok ==> db == old(db) || exists h :: db == ObjectWritten(old(db), at, h)
    {
      ok := *;
      if ok {
        db := ObjectWritten(db, at, content);
      } else {
        faults := faults + 1;
        if * {
          var fragment: string := *;
          db := ObjectWritten(db, at, fragment);
        }
      }
      history := history + [db];
    }

    /** Stores a stream under a new name, checks what arrived against the expected
        hash, and takes the object away again on a mismatch. */
    method Upload(datastoreId: string, content: Hash, expected: Hash) returns (ok: bool, at: Location)
      modifies this
      ensures old(history) <= history && faults >= old(faults)
      ensures at.datastoreId == datastoreId && Unused(old(db), at)
      ensures forall k | |old(history)| <= k < |history| :: SameBut(old(db), history[k], at)
      ensures SameBut(old(db), db, at)
      ensures ok ==> content == expected && faults == old(faults) && db == ObjectWritten(old(db), at, content)
      ensures !ok && faults == old(faults) ==> content != expected && db == old(db)
    {
      var name := NewName(NamesInUse(db));
      at := Location(datastoreId, name);
      assert Unused(db, at);
      ok := WriteObject(at, content);
      if ok && content != expected {
        var removed := RemoveObject(at);
        ok := false;
        assert ObjectRemoved(ObjectWritten(old(db), at, content), at).objects == old(db).objects;
      }
    }
  }
}
