/** The order in which the thumbnails table is paged: lexicographic over all twelve
    columns, so that a keyset cursor can never skip a row that ties with it. */
module ThumbnailOrder {
  import opened Wrappers
  import opened Repository

  datatype Cell = Num(n: int) | Text(s: string) | Flag(b: bool)

  /** The database's text order, whatever its collation. */
  type TextOrder = (string, string) -> bool

  ghost predicate TotalOrder(lt: TextOrder) {
    && (forall a :: !lt(a, a))
    && (forall a, b, c | lt(a, b) && lt(b, c) :: lt(a, c))
    && (forall a, b | a != b :: lt(a, b) || lt(b, a))
  }

  predicate CellLess(lt: TextOrder, a: Cell, b: Cell) {
    match (a, b)
    case (Num(m), Num(n)) => m < n
    case (Text(s), Text(t)) => lt(s, t)
    case (Flag(p), Flag(q)) => !p && q
    case _ => false
  }

  predicate RowLess(lt: TextOrder, a: seq<Cell>, b: seq<Cell>) {
    a != [] && b != [] && (CellLess(lt, a[0], b[0]) || (a[0] == b[0] && RowLess(lt, a[1..], b[1..])))
  }

  predicate SameShape(a: seq<Cell>, b: seq<Cell>) {
    |a| == |b| && forall i | 0 <= i < |a| :: a[i].Num? == b[i].Num? && a[i].Text? == b[i].Text?
  }

  function Columns(t: Thumbnail): seq<Cell> {
    [Num(t.creationTs), Text(t.of.origin), Text(t.of.mediaId), Num(t.width), Num(t.height), Text(t.method_),
     Flag(t.animated), Text(t.contentType), Text(t.hash), Num(t.sizeBytes), Text(t.at.datastoreId), Text(t.at.name)]
  }

  predicate Before(lt: TextOrder, t: Thumbnail, u: Thumbnail) {
    RowLess(lt, Columns(t), Columns(u))
  }

  lemma {:induction false} RowLessTransitive(lt: TextOrder, a: seq<Cell>, b: seq<Cell>, c: seq<Cell>)
    requires TotalOrder(lt) && RowLess(lt, a, b) && RowLess(lt, b, c)
    ensures RowLess(lt, a, c)
    decreases |a|
  {
    if a[0] == b[0] && b[0] == c[0] && RowLess(lt, a[1..], b[1..]) && RowLess(lt, b[1..], c[1..]) {
      RowLessTransitive(lt, a[1..], b[1..], c[1..]);
    }
  }

  lemma {:induction false} RowLessIrreflexive(lt: TextOrder, a: seq<Cell>)
    requires TotalOrder(lt)
    ensures !RowLess(lt, a, a)
    decreases |a|
  {
    if a != [] { RowLessIrreflexive(lt, a[1..]); }
  }

  lemma {:induction false} RowLessTotal(lt: TextOrder, a: seq<Cell>, b: seq<Cell>)
    requires TotalOrder(lt) && SameShape(a, b) && a != b
    ensures RowLess(lt, a, b) || RowLess(lt, b, a)
    decreases |a|
  {
    if a[0] == b[0] {
      assert a == [a[0]] + a[1..] && b == [b[0]] + b[1..];
      RowLessTotal(lt, a[1..], b[1..]);
    }
  }

  lemma ColumnsIdentify(t: Thumbnail, u: Thumbnail)
    requires Columns(t) == Columns(u)
    ensures t == u
  {
    var a, b := Columns(t), Columns(u);
    assert a[0] == b[0] && a[1] == b[1] && a[2] == b[2] && a[3] == b[3] && a[4] == b[4] && a[5] == b[5];
    assert a[6] == b[6] && a[7] == b[7] && a[8] == b[8] && a[9] == b[9] && a[10] == b[10] && a[11] == b[11];
  }

  /** Over rows, `Before` is a strict total order: two different rows never tie. */
  lemma BeforeIsTotal(lt: TextOrder)
    requires TotalOrder(lt)
    ensures forall t :: !Before(lt, t, t)
    ensures forall t, u, v | Before(lt, t, u) && Before(lt, u, v) :: Before(lt, t, v)
    ensures forall t, u | t != u :: Before(lt, t, u) || Before(lt, u, t)
    ensures forall t: Thumbnail, u: Thumbnail | t.creationTs < u.creationTs :: Before(lt, t, u)
  {
    forall t ensures !Before(lt, t, t) { RowLessIrreflexive(lt, Columns(t)); }
    forall t, u, v | Before(lt, t, u) && Before(lt, u, v)
      ensures Before(lt, t, v)
    {
      RowLessTransitive(lt, Columns(t), Columns(u), Columns(v));
    }
    forall t, u | t != u
      ensures Before(lt, t, u) || Before(lt, u, t)
    {
      if Columns(t) == Columns(u) { ColumnsIdentify(t, u); }
      RowLessTotal(lt, Columns(t), Columns(u));
    }
  }
}

/** The periodic thumbnail purge (tasks/task_runner/purge_thumbnails.go): an unbounded
    sweep in batches that must make progress past rows it cannot delete. */
module ThumbnailPurge {
  import opened Wrappers
  import opened Repository
  import opened ThumbnailOrder

  const BATCH_SIZE: nat := 1000

  // ----- what the purge means -----

  function Old(db: Db, cutoff: int): set<Thumbnail> {
    set t | t in db.thumbs && t.creationTs < cutoff
  }

  /** Nothing but expired thumbnails uses the location. */
  predicate Expired(db: Db, cutoff: int, at: Location) {
    MediaAt(db, at) == {} && ThumbsAt(db, at) != {} && ThumbsAt(db, at) <= Old(db, cutoff)
  }

  ghost function ThumbPurgeResult(db: Db, cutoff: int): Db {
    db.(thumbs := db.thumbs - Old(db, cutoff),
        objects := map at | at in db.objects && !Expired(db, cutoff, at) :: db.objects[at])
  }

  /** Everything a purge may have done so far, with `gone` the locations whose object
      it removed. */
  ghost predicate ThumbSafe(before: Db, cutoff: int, now: Db, gone: set<Location>) {
    && now.media == before.media && now.pinned == before.pinned && now.reserved == before.reserved
    && before.thumbs - Old(before, cutoff) <= now.thumbs <= before.thumbs
    && now.objects == before.objects - gone
    && (forall at | at in gone :: Expired(before, cutoff, at))
  }

  /** Safe whatever has failed: only expired thumbnails can be left without their
      object, and only at locations the purge emptied itself. */
  lemma OnlyExpiredThumbsLoseObjects(before: Db, cutoff: int, now: Db, gone: set<Location>)
    requires Sound(before) && ThumbSafe(before, cutoff, now, gone)
    ensures forall m | m in now.media && !m.quarantined :: Stored(now, m.at, m.hash)
    ensures forall t | t in now.thumbs && !Stored(now, t.at, t.hash) :: t.creationTs < cutoff && t.at in gone
  {
    forall at | at in gone
      ensures forall m | m in now.media :: m.at != at
    {
      assert forall m | m in now.media && m.at == at :: m in MediaAt(before, at);
    }
    forall t | t in now.thumbs && t.at in gone
      ensures t.creationTs < cutoff
    {
      assert t in ThumbsAt(before, t.at);
    }
  }

  /** A purge without failures loses nothing a remaining row needs, and leaks nothing. */
  lemma ThumbPurgeKeepsConsistency(db: Db, cutoff: int)
    requires Consistent(db)
    ensures Consistent(ThumbPurgeResult(db, cutoff))
    ensures NoOrphans(db) ==> NoOrphans(ThumbPurgeResult(db, cutoff))
  {
    var now := ThumbPurgeResult(db, cutoff);
    forall m | m in now.media && m.at in db.objects
      ensures m.at in now.objects
    {
      assert m in MediaAt(db, m.at);
    }
    forall t | t in now.thumbs
      ensures Stored(now, t.at, t.hash)
    {
      assert t in ThumbsAt(db, t.at);
    }
    if NoOrphans(db) {
      forall at | at in now.objects
        ensures UsersOf(now, at) != {}
      {
        SomebodyStays(db, cutoff, at);
      }
    }
  }

  lemma SomebodyStays(db: Db, cutoff: int, at: Location)
    requires UsersOf(db, at) != {} && !Expired(db, cutoff, at)
    ensures UsersOf(ThumbPurgeResult(db, cutoff), at) != {}
  {
    var now := ThumbPurgeResult(db, cutoff);
    if m :| m in MediaAt(db, at) {
      assert m.mxc in UsersOf(now, at);
    } else {
      var x :| x in UsersOf(db, at);
      assert forall m | m in db.media && m.at == at :: m in MediaAt(db, at);
      var t :| t in db.thumbs && t.at == at && t.of == x;
      assert t in ThumbsAt(db, at);
      var u :| u in ThumbsAt(db, at) && u !in Old(db, cutoff);
      assert u.of in UsersOf(now, at);
    }
  }

  /** A sweep with failures keeps every row's object exactly if no thumbnail is left at a
      place it has emptied. */
  lemma BrokenSweepIsSoundIff(before: Db, cutoff: int, now: Db, gone: set<Location>)
    requires Consistent(before) && ThumbSafe(before, cutoff, now, gone)
    ensures Consistent(now) <==> forall t | t in now.thumbs :: t.at !in gone
  {
    OnlyExpiredThumbsLoseObjects(before, cutoff, now, gone);
    forall m | m in now.media ensures m.at !in gone {
      assert m.at in gone ==> m in MediaAt(before, m.at);
    }
  }

  /** No object is used by expired thumbnails alone: a sweep has nothing to remove. */
  ghost predicate NothingExpires(db: Db, cutoff: int) {
    forall at :: !Expired(db, cutoff, at)
  }

  /** A sweep stopped between the removal of an object and the deletion of its rows. */
  lemma BrokenSweepLosesAnObject(db: Db, cutoff: int, at: Location)
    requires Expired(db, cutoff, at)
    ensures ThumbSafe(db, cutoff, ObjectRemoved(db, at), {at}) && !Consistent(ObjectRemoved(db, at))
  {
    var now := ObjectRemoved(db, at);
    var t :| t in ThumbsAt(db, at);
    assert t in now.thumbs;
  }

  /** Wherever a sweep may break off, the law is kept, if and only if no object is used by
      expired thumbnails alone in the table before it. */
  lemma BrokenSweepsAreSoundIff(db: Db, cutoff: int)
    requires Consistent(db)
    ensures (forall now, gone | ThumbSafe(db, cutoff, now, gone) :: Consistent(now)) <==> NothingExpires(db, cutoff)
  {
    if NothingExpires(db, cutoff) {
      forall now, gone | ThumbSafe(db, cutoff, now, gone) ensures Consistent(now) {
        BrokenSweepIsSoundIff(db, cutoff, now, gone);
      }
    } else {
      var at :| Expired(db, cutoff, at);
      BrokenSweepLosesAnObject(db, cutoff, at);
    }
  }

  // ----- the batch query -----

  type RowOrder = (Thumbnail, Thumbnail) -> bool

  ghost predicate IsRowOrder(less: RowOrder) {
    && (forall t :: !less(t, t))
    && (forall t, u, v | less(t, u) && less(u, v) :: less(t, v))
    && (forall t, u | t != u :: less(t, u) || less(u, t))
  }

  function OldAfter(db: Db, cutoff: int, less: RowOrder, after: Option<Thumbnail>): set<Thumbnail> {
    if after.None? then Old(db, cutoff) else set t | t in Old(db, cutoff) && less(after.value, t)
  }

  /** The first rows of `all`, in order, at most `limit` of them. */
  ghost predicate IsBatch(less: RowOrder, all: set<Thumbnail>, limit: nat, rows: seq<Thumbnail>) {
    && |rows| <= limit
    && (forall t | t in rows :: t in all)
    && (forall i, j | 0 <= i < j < |rows| :: less(rows[i], rows[j]))
    && (forall t | t in all && t !in rows :: |rows| == limit && forall u | u in rows :: less(u, t))
  }

  method First(less: RowOrder, rows: set<Thumbnail>) returns (least: Thumbnail)
    requires IsRowOrder(less) && rows != {}
    ensures least in rows && forall t | t in rows && t != least :: less(least, t)
  {
    least :| least in rows;
    var rest := rows - {least};
    while rest != {}
      invariant rest <= rows && least in rows
      invariant forall t | t in rows && t !in rest && t != least :: less(least, t)
      decreases rest
    {
      var t :| t in rest;
      rest := rest - {t};
      if t != least && less(t, least) { least := t; }
    }
  }

  method FirstRows(less: RowOrder, all: set<Thumbnail>, limit: nat) returns (rows: seq<Thumbnail>)
    requires IsRowOrder(less)
    ensures IsBatch(less, all, limit, rows)
    ensures limit > 0 && all != {} ==> rows != []
  {
    var rest := all;
    rows := [];
    while rest != {} && |rows| < limit
      invariant rest <= all && |rows| <= limit
      invariant forall t :: t in rows <==> t in all && t !in rest
      invariant forall i, j | 0 <= i < j < |rows| :: less(rows[i], rows[j])
      invariant forall t, u | t in rest && u in rows :: less(u, t)
      decreases rest
    {
      var t := First(less, rest);
      rows, rest := rows + [t], rest - {t};
    }
  }

  method GetOlderThanBatchAfter(repo: Repo, cutoff: int, limit: nat, less: RowOrder, after: Option<Thumbnail>)
    returns (ok: bool, rows: seq<Thumbnail>)
    requires IsRowOrder(less)
    modifies repo
    ensures repo.Looked(ok)
    ensures ok ==> IsBatch(less, OldAfter(repo.db, cutoff, less, after), limit, rows)
  {
    rows := FirstRows(less, OldAfter(repo.db, cutoff, less, after), limit);
    ok := *;
    if !ok { repo.faults := repo.faults + 1; }
  }

  // ----- one location -----

  function Missing(before: Db, now: Db): set<Location> {
    before.objects.Keys - now.objects.Keys
  }

  lemma SafeByMissing(before: Db, cutoff: int, now: Db, gone: set<Location>)
    requires ThumbSafe(before, cutoff, now, gone)
    ensures ThumbSafe(before, cutoff, now, Missing(before, now))
  {
    assert now.objects == before.objects - Missing(before, now);
  }

  /** The law has been violated on the way exactly if an object has been removed. */
  ghost predicate Told(history: seq<Db>, start: nat, before: Db, gone: set<Location>) {
    Consistent(before) ==> (Exposed(history, start) <==> gone != {})
  }

  lemma ToldGrows(before: Db, cutoff: int, history: seq<Db>, db: Db, prior: set<Location>, gone: set<Location>,
                  start: nat)
    requires start <= |history| && Told(history, start, before, prior) && prior <= gone
    requires ThumbSafe(before, cutoff, db, gone) && (gone != prior ==> !Consistent(db))
    ensures Told(history + [db], start, before, gone)
  {
    ExposedGrows(history, db, start);
    if Consistent(before) && gone == {} { BrokenSweepIsSoundIff(before, cutoff, db, gone); }
  }

  ghost predicate SafeSince(repo: Repo, start: nat, before: Db, cutoff: int, gone: set<Location>)
    reads repo
  {
    && start <= |repo.history|
    && Told(repo.history, start, before, gone)
    && ThumbSafe(before, cutoff, repo.db, gone)
    && forall k | start <= k < |repo.history| ::
       ThumbSafe(before, cutoff, repo.history[k], Missing(before, repo.history[k]))
  }

  /** Bookkeeping that holds as long as nothing has failed: a location is emptied
      completely, and every location that lost a row was emptied if it could be. */
  ghost predicate Clean(before: Db, cutoff: int, now: Db, gone: set<Location>) {
    && (forall t | t in now.thumbs :: t.at !in gone)
    && (forall t | t in before.thumbs && t !in now.thumbs && Expired(before, cutoff, t.at) :: t.at in gone)
  }

  lemma ExpiredNow(before: Db, cutoff: int, now: Db, gone: set<Location>, at: Location)
    requires ThumbSafe(before, cutoff, now, gone) && ThumbsAt(now, at) != {}
    ensures Expired(now, cutoff, at) <==> Expired(before, cutoff, at)
  {
    assert MediaAt(now, at) == MediaAt(before, at);
    assert ThumbsAt(now, at) <= ThumbsAt(before, at);
    if Expired(now, cutoff, at) {
      forall t | t in ThumbsAt(before, at)
        ensures t in Old(before, cutoff)
      {
        if t in now.thumbs { assert t in ThumbsAt(now, at); }
      }
    }
    if Expired(before, cutoff, at) {
      forall t | t in ThumbsAt(now, at)
        ensures t in Old(now, cutoff)
      {
        assert t in ThumbsAt(before, at);
      }
    }
  }

  /** Deletes the given rows one by one, going on past failures. */
  method DeleteRows(repo: Repo, rows: seq<Thumbnail>, ghost start: nat, ghost before: Db, cutoff: int,
                    ghost gone: set<Location>)
    returns (count: nat)
    requires SafeSince(repo, start, before, cutoff, gone)
    requires forall t | t in rows :: t in repo.db.thumbs && t.creationTs < cutoff
    requires forall i, j | 0 <= i < j < |rows| :: rows[i] != rows[j]
    modifies repo
    ensures SafeSince(repo, start, before, cutoff, gone)
    ensures repo.faults >= old(repo.faults)
    ensures repo.db.thumbs <= old(repo.db.thumbs) && count == |old(repo.db.thumbs)| - |repo.db.thumbs|
    ensures forall t | t in old(repo.db.thumbs) && t !in rows :: t in repo.db.thumbs
    ensures repo.faults == old(repo.faults) ==> forall t | t in rows :: t !in repo.db.thumbs
  {
    count := 0;
    for i := 0 to |rows|
      invariant SafeSince(repo, start, before, cutoff, gone)
      invariant repo.faults >= old(repo.faults)
      invariant repo.db.thumbs <= old(repo.db.thumbs) && count == |old(repo.db.thumbs)| - |repo.db.thumbs|
      invariant forall k | i <= k < |rows| :: rows[k] in repo.db.thumbs
      invariant forall t | t in old(repo.db.thumbs) && t !in rows :: t in repo.db.thumbs
      invariant repo.faults == old(repo.faults) ==> forall k | 0 <= k < i :: rows[k] !in repo.db.thumbs
    {
      var t := rows[i];
      assert t in rows;
      ghost var past := repo.history;
      var ok := repo.DeleteThumb(t);
      ToldGrows(before, cutoff, past, repo.db, gone, gone, start);
      SafeByMissing(before, cutoff, repo.db, gone);
      if ok { count := count + 1; }
    }
  }

  /** The old rows of one location, and whether a newer one shares it. */
  method Split(thumbs: seq<Thumbnail>, cutoff: int) returns (oldThumbs: seq<Thumbnail>, newer: bool)
    requires forall i, j | 0 <= i < j < |thumbs| :: thumbs[i] != thumbs[j]
    ensures forall t :: t in oldThumbs <==> t in thumbs && t.creationTs < cutoff
    ensures newer <==> exists t :: t in thumbs && t.creationTs >= cutoff
    ensures forall i, j | 0 <= i < j < |oldThumbs| :: oldThumbs[i] != oldThumbs[j]
  {
    oldThumbs, newer := [], false;
    for i := 0 to |thumbs|
      invariant forall t :: t in oldThumbs <==> t in thumbs[..i] && t.creationTs < cutoff
      invariant newer <==> exists t :: t in thumbs[..i] && t.creationTs >= cutoff
      invariant forall j, k | 0 <= j < k < |oldThumbs| :: oldThumbs[j] != oldThumbs[k]
    {
      assert thumbs[..i + 1] == thumbs[..i] + [thumbs[i]];
      if thumbs[i].creationTs < cutoff {
        assert thumbs[i] !in thumbs[..i];
        oldThumbs := oldThumbs + [thumbs[i]];
      } else {
        assert thumbs[i] in thumbs[..i + 1];
        newer := true;
      }
    }
    assert thumbs[..|thumbs|] == thumbs;
  }

  /** Removes the object of a location that only expired thumbnails use. */
  method EmptyLocation(repo: Repo, at: Location, gone: set<Location>, cutoff: int, ghost start: nat, ghost before: Db)
    returns (ok: bool, out: set<Location>)
    requires SafeSince(repo, start, before, cutoff, gone) && Expired(before, cutoff, at) && Expired(repo.db, cutoff, at)
    requires at !in gone
    modifies repo
    ensures SafeSince(repo, start, before, cutoff, out)
    ensures out == if ok then gone + {at} else gone
    ensures repo.db == if ok then ObjectRemoved(old(repo.db), at) else old(repo.db)
    ensures if ok then repo.faults == old(repo.faults) else repo.faults > old(repo.faults)
  {
    ghost var was, past := repo.db, repo.history;
    assert ThumbSafe(before, cutoff, ObjectRemoved(was, at), gone + {at});
    ok := repo.RemoveObject(at);
    out := if ok then gone + {at} else gone;
    if ok { BrokenSweepLosesAnObject(was, cutoff, at); }
    ToldGrows(before, cutoff, past, repo.db, gone, out, start);
    SafeByMissing(before, cutoff, repo.db, out);
  }

  method PurgeLocation(repo: Repo, at: Location, gone: set<Location>, cutoff: int, ghost start: nat, ghost before: Db)
    returns (count: nat, out: set<Location>)
    requires SafeSince(repo, start, before, cutoff, gone)
    modifies repo
    ensures SafeSince(repo, start, before, cutoff, out)
    ensures gone <= out <= gone + {at}
    ensures repo.faults >= old(repo.faults)
    ensures repo.db.thumbs <= old(repo.db.thumbs) && count == |old(repo.db.thumbs)| - |repo.db.thumbs|
    ensures forall t | t in old(repo.db.thumbs) && t.at != at :: t in repo.db.thumbs
    ensures repo.faults == old(repo.faults) && Clean(before, cutoff, old(repo.db), gone) ==>
      && Clean(before, cutoff, repo.db, out)
      && ThumbsAt(repo.db, at) !! Old(repo.db, cutoff)
  {
    count, out := 0, gone;
    if at in gone { return; }
    var ok, used := repo.MediaLocationExists(at);
    if !ok { return; }
    var thumbs: seq<Thumbnail>;
    ok, thumbs := repo.GetThumbsByLocation(at);
    if !ok { return; }
    var oldThumbs, newer := Split(thumbs, cutoff);
    if |oldThumbs| == 0 { return; }
    assert oldThumbs[0] in ThumbsAt(repo.db, at);
    ExpiredNow(before, cutoff, repo.db, gone, at);
    if !used && !newer {
      assert Expired(repo.db, cutoff, at);
      ok, out := EmptyLocation(repo, at, gone, cutoff, start, before);
      if !ok { return; }
    }
    count := DeleteRows(repo, oldThumbs, start, before, cutoff, out);
  }

  /** `out` is `gone` with the freshly removed locations, each removed once. */
  ghost predicate RemovedOnce(gone: set<Location>, removed: seq<Location>, out: set<Location>) {
    NoRepeats(removed) && (forall at | at in removed :: at !in gone) && out == gone + set at | at in removed
  }

  lemma RemovedOnceChains(a: set<Location>, r: seq<Location>, b: set<Location>, q: seq<Location>, c: set<Location>)
    requires RemovedOnce(a, r, b) && RemovedOnce(b, q, c)
    ensures RemovedOnce(a, r + q, c)
  {
    forall i, j | 0 <= i < j < |r + q|
      ensures (r + q)[i] != (r + q)[j]
    {
      if i < |r| <= j { assert r[i] in b && q[j - |r|] in q; }
    }
    assert c == a + set at | at in r + q;
  }

  method Touched(thumbs: seq<Thumbnail>) returns (touched: set<Location>)
    ensures touched == set t | t in thumbs :: t.at
  {
    touched := {};
    for i := 0 to |thumbs|
      invariant touched == set t | t in thumbs[..i] :: t.at
    {
      assert thumbs[..i + 1] == thumbs[..i] + [thumbs[i]];
      touched := touched + {thumbs[i].at};
    }
    assert thumbs[..|thumbs|] == thumbs;
  }

  method PurgeBatch(repo: Repo, thumbs: seq<Thumbnail>, gone: set<Location>, cutoff: int, ghost start: nat,
                    ghost before: Db)
    returns (count: nat, out: set<Location>, ghost removed: seq<Location>)
    requires SafeSince(repo, start, before, cutoff, gone)
    modifies repo
    ensures SafeSince(repo, start, before, cutoff, out)
    ensures RemovedOnce(gone, removed, out)
    ensures repo.faults >= old(repo.faults)
    ensures repo.db.thumbs <= old(repo.db.thumbs) && count == |old(repo.db.thumbs)| - |repo.db.thumbs|
    ensures repo.faults == old(repo.faults) && Clean(before, cutoff, old(repo.db), gone) ==>
      && Clean(before, cutoff, repo.db, out)
      && forall t | t in thumbs :: t !in Old(repo.db, cutoff)
  {
    var touched := Touched(thumbs);
    var locations := ToList(touched);
    count, out, removed := 0, gone, [];
    for i := 0 to |locations|
      invariant SafeSince(repo, start, before, cutoff, out)
      invariant RemovedOnce(gone, removed, out)
      invariant repo.faults >= old(repo.faults)
      invariant repo.db.thumbs <= old(repo.db.thumbs) && count == |old(repo.db.thumbs)| - |repo.db.thumbs|
      invariant repo.faults == old(repo.faults) && Clean(before, cutoff, old(repo.db), gone) ==>
        && Clean(before, cutoff, repo.db, out)
        && forall k | 0 <= k < i :: ThumbsAt(repo.db, locations[k]) !! Old(repo.db, cutoff)
    {
      ghost var prior, priorDb := out, repo.db;
      var n;
      n, out := PurgeLocation(repo, locations[i], out, cutoff, start, before);
      count := count + n;
      ghost var fresh_ := if out == prior then [] else [locations[i]];
      assert RemovedOnce(prior, fresh_, out);
      RemovedOnceChains(gone, removed, prior, fresh_, out);
      removed := removed + fresh_;
      StaysCleared(priorDb, repo.db, cutoff, locations[..i]);
    }
    forall t | t in thumbs && repo.faults == old(repo.faults) && Clean(before, cutoff, old(repo.db), gone)
      ensures t !in Old(repo.db, cutoff)
    {
      assert t.at in locations;
      assert t in repo.db.thumbs ==> t in ThumbsAt(repo.db, t.at);
    }
  }

  lemma StaysCleared(prior: Db, now: Db, cutoff: int, locations: seq<Location>)
    requires now.thumbs <= prior.thumbs
    ensures forall at | at in locations && ThumbsAt(prior, at) !! Old(prior, cutoff) ::
      ThumbsAt(now, at) !! Old(now, cutoff)
  {
    assert Old(now, cutoff) <= Old(prior, cutoff);
    assert forall at | at in locations :: ThumbsAt(now, at) <= ThumbsAt(prior, at);
  }

  // ----- the sweep -----

  lemma SmallerSet<T>(a: set<T>, b: set<T>)
    requires a <= b
    ensures |a| <= |b| && (|a| == |b| ==> a == b)
  {
    assert b == a + (b - a);
  }

  lemma CursorAdvances(db: Db, cutoff: int, less: RowOrder, after: Option<Thumbnail>, rows: seq<Thumbnail>)
    requires IsRowOrder(less) && rows != []
    requires IsBatch(less, OldAfter(db, cutoff, less, after), BATCH_SIZE, rows)
    ensures |OldAfter(db, cutoff, less, Some(rows[|rows| - 1]))| < |OldAfter(db, cutoff, less, after)|
    ensures forall t | t in OldAfter(db, cutoff, less, after) && !less(rows[|rows| - 1], t) :: t in rows
  {
    var last := rows[|rows| - 1];
    assert last in rows && last in OldAfter(db, cutoff, less, after);
    assert last !in OldAfter(db, cutoff, less, Some(last));
    SmallerSet(OldAfter(db, cutoff, less, Some(last)), OldAfter(db, cutoff, less, after));
  }

  lemma OldShrinks(before: Db, cutoff: int, prior: Db, now: Db, g: set<Location>, h: set<Location>)
    requires ThumbSafe(before, cutoff, prior, g) && ThumbSafe(before, cutoff, now, h)
    requires now.thumbs <= prior.thumbs && |now.thumbs| < |prior.thumbs|
    ensures |Old(now, cutoff)| < |Old(prior, cutoff)|
  {
    SmallerSet(prior.thumbs, now.thumbs + (prior.thumbs - now.thumbs));
    var t :| t in prior.thumbs && t !in now.thumbs;
    assert t in Old(prior, cutoff) && t !in Old(now, cutoff);
    SmallerSet(Old(now, cutoff), Old(prior, cutoff));
  }

  lemma SweptExpires(before: Db, cutoff: int, now: Db, gone: set<Location>)
    requires Consistent(before) && ThumbSafe(before, cutoff, now, gone)
    ensures NothingExpires(before, cutoff) ==> gone == {}
    ensures now == ThumbPurgeResult(before, cutoff) && gone == {} ==> NothingExpires(before, cutoff)
  {
    if at :| Expired(before, cutoff, at) {
      var t :| t in ThumbsAt(before, at);
      assert Stored(before, t.at, t.hash);
      assert now == ThumbPurgeResult(before, cutoff) ==> at !in now.objects;
    }
  }

  /** What the sweep says in the end about the law on the way. */
  lemma SweepTold(history: seq<Db>, start: nat, before: Db, cutoff: int, now: Db, removed: seq<Location>,
                  gone: set<Location>)
    requires Consistent(before) && Told(history, start, before, gone) && ThumbSafe(before, cutoff, now, gone)
    requires gone == set at | at in removed
    ensures Exposed(history, start) <==> removed != []
    ensures NothingExpires(before, cutoff) ==> !Exposed(history, start)
    ensures now == ThumbPurgeResult(before, cutoff) ==> (Exposed(history, start) <==> !NothingExpires(before, cutoff))
  {
    SweptExpires(before, cutoff, now, gone);
    if removed != [] { assert removed[0] in gone; }
  }

  /** The sweep ends whatever fails. It removes each object at most once and only
      where nothing but expired thumbnails used it; when it runs to completion every
      old row it leaves was tried in the final pass; and if nothing failed, the
      outcome is exactly `ThumbPurgeResult`. On the way the law is violated exactly if
      it removes an object, which a sweep without failures does exactly if one is used by
      expired thumbnails alone. */
  method Sweep(repo: Repo, cutoff: int, less: RowOrder)
    returns (ghost complete: bool, ghost removed: seq<Location>, ghost visited: set<Thumbnail>)
    requires IsRowOrder(less)
    modifies repo
    ensures |old(repo.history)| <= |repo.history| && repo.faults >= old(repo.faults)
    ensures ThumbSafe(old(repo.db), cutoff, repo.db, set at | at in removed) && NoRepeats(removed)
    ensures forall k | |old(repo.history)| <= k < |repo.history| ::
      ThumbSafe(old(repo.db), cutoff, repo.history[k], Missing(old(repo.db), repo.history[k]))
    ensures complete ==> Old(repo.db, cutoff) <= visited
    ensures repo.faults == old(repo.faults) ==> complete && repo.db == ThumbPurgeResult(old(repo.db), cutoff)
    ensures Consistent(old(repo.db)) ==>
      && (Exposed(repo.history, |old(repo.history)|) <==> removed != [])
      && (NothingExpires(old(repo.db), cutoff) ==> !Exposed(repo.history, |old(repo.history)|))
      && (repo.faults == old(repo.faults) ==>
            (Exposed(repo.history, |old(repo.history)|) <==> !NothingExpires(old(repo.db), cutoff)))
  {
    ghost var before, start := repo.db, |repo.history|;
    var gone: set<Location> := {};
    var after: Option<Thumbnail> := None;
    removed, visited, complete := [], {}, false;
    assert before.objects - {} == before.objects;
    while true
      invariant SafeSince(repo, start, before, cutoff, gone)
      invariant RemovedOnce({}, removed, gone)
      invariant repo.faults >= old(repo.faults)
      invariant forall t | t in Old(repo.db, cutoff) && t !in OldAfter(repo.db, cutoff, less, after) :: t in visited
      invariant repo.faults == old(repo.faults) ==> after.None? && Clean(before, cutoff, repo.db, gone)
      decreases |Old(repo.db, cutoff)|, |OldAfter(repo.db, cutoff, less, after)|
    {
      ghost var prior := repo.db;
      ghost var gone0 := gone;
      var ok, rows := GetOlderThanBatchAfter(repo, cutoff, BATCH_SIZE, less, after);
      if !ok {
        if Consistent(before) { SweepTold(repo.history, start, before, cutoff, repo.db, removed, gone); }
        return;
      }
      if |rows| == 0 {
        complete := true;
        if repo.faults == old(repo.faults) { CleanEnd(before, cutoff, repo.db, gone); }
        if Consistent(before) { SweepTold(repo.history, start, before, cutoff, repo.db, removed, gone); }
        return;
      }
      var count; ghost var newly;
      count, gone, newly := PurgeBatch(repo, rows, gone, cutoff, start, before);
      RemovedOnceChains({}, removed, gone0, newly, gone);
      removed := removed + newly;
      if count == 0 {
        SmallerSet(repo.db.thumbs, prior.thumbs);
        assert Old(repo.db, cutoff) == Old(prior, cutoff);
        assert OldAfter(repo.db, cutoff, less, after) == OldAfter(prior, cutoff, less, after);
        CursorAdvances(repo.db, cutoff, less, after, rows);
        assert rows[0] in rows;
        visited := visited + set t | t in rows;
        after := Some(rows[|rows| - 1]);
        continue;
      }
      OldShrinks(before, cutoff, prior, repo.db, gone0, gone);
      after, visited := None, {};
    }
  }

  lemma CleanEnd(before: Db, cutoff: int, now: Db, gone: set<Location>)
    requires ThumbSafe(before, cutoff, now, gone) && Clean(before, cutoff, now, gone) && Old(now, cutoff) == {}
    ensures now == ThumbPurgeResult(before, cutoff)
  {
    forall at | at in before.objects && Expired(before, cutoff, at)
      ensures at in gone
    {
      var t :| t in ThumbsAt(before, at);
      assert t in Old(before, cutoff) && t !in Old(now, cutoff);
    }
    assert now.objects == ThumbPurgeResult(before, cutoff).objects;
    forall t | t in now.thumbs
      ensures t !in Old(before, cutoff)
    {
      assert t !in Old(now, cutoff);
    }
    assert now.thumbs == before.thumbs - Old(before, cutoff);
  }

  function Cutoff(expireDays: int, nowMillis: int): int {
    nowMillis - expireDays * 24 * 60 * 60 * 1000
  }

  /** The thumbnail is at most as old as the configuration allows. */
  ghost predicate Young(t: Thumbnail, expireDays: int, nowMillis: int) {
    nowMillis - t.creationTs <= expireDays * 86400000
  }

  /** Whatever fails, the young thumbnails and all media rows keep their rows and objects. */
  ghost predicate YoungStay(before: Db, now: Db, expireDays: int, nowMillis: int) {
    && now.media == before.media && now.pinned == before.pinned && now.reserved == before.reserved
    && now.thumbs <= before.thumbs
    && (forall t | t in before.thumbs && Young(t, expireDays, nowMillis) :: t in now.thumbs)
    && (forall at | at in now.objects :: at in before.objects && now.objects[at] == before.objects[at])
    && (forall t | t in before.thumbs && Young(t, expireDays, nowMillis) ::
          t.at in before.objects ==> t.at in now.objects)
    && (forall m | m in before.media && m.at in before.objects :: m.at in now.objects)
  }

  /** And if nothing fails, every thumbnail that is not young has gone, and of the objects
      exactly those that thumbnails used and no media row and no young thumbnail did. */
  ghost predicate OnlyYoungStay(before: Db, now: Db, expireDays: int, nowMillis: int) {
    && (forall t | t in now.thumbs :: Young(t, expireDays, nowMillis))
    && (forall at | at in before.objects && at !in now.objects :: exists t :: t in before.thumbs && t.at == at)
    && (forall t | t in before.thumbs && t.at in now.objects ::
          || (exists m :: m in before.media && m.at == t.at)
          || (exists u :: u in before.thumbs && u.at == t.at && Young(u, expireDays, nowMillis)))
  }

  lemma SafeSparesTheYoung(before: Db, now: Db, gone: set<Location>, expireDays: int, nowMillis: int)
    requires ThumbSafe(before, Cutoff(expireDays, nowMillis), now, gone)
    ensures YoungStay(before, now, expireDays, nowMillis)
  {
    var cutoff := Cutoff(expireDays, nowMillis);
    forall t | t in before.thumbs && Young(t, expireDays, nowMillis) ensures t in now.thumbs && t.at !in gone {
      assert t !in Old(before, cutoff);
      assert t in ThumbsAt(before, t.at);
    }
    forall m | m in before.media ensures m.at !in gone { assert m in MediaAt(before, m.at); }
  }

  lemma CompletedTakesTheRest(before: Db, expireDays: int, nowMillis: int)
    ensures OnlyYoungStay(before, ThumbPurgeResult(before, Cutoff(expireDays, nowMillis)), expireDays, nowMillis)
  {
    var cutoff := Cutoff(expireDays, nowMillis);
    var now := ThumbPurgeResult(before, cutoff);
    forall at | at in before.objects && at !in now.objects ensures exists t :: t in before.thumbs && t.at == at {
      var t :| t in ThumbsAt(before, at);
    }
    forall t | t in before.thumbs && t.at in now.objects
      ensures (exists m :: m in before.media && m.at == t.at)
        || (exists u :: u in before.thumbs && u.at == t.at && Young(u, expireDays, nowMillis))
    {
      assert t in ThumbsAt(before, t.at);
      if m :| m in MediaAt(before, t.at) {
      } else {
        var u :| u in ThumbsAt(before, t.at) && u !in Old(before, cutoff);
        assert Young(u, expireDays, nowMillis);
      }
    }
  }

  /** The task itself: nothing happens unless an expiry is configured, and what is younger
      than that, by the millisecond, is spared whatever fails. */
  method PurgeThumbnails(repo: Repo, lt: TextOrder, expireDays: int, nowMillis: int)
    returns (ghost complete: bool, ghost removed: seq<Location>, ghost visited: set<Thumbnail>)
    requires TotalOrder(lt)
    modifies repo
    ensures repo.faults >= old(repo.faults)
    ensures expireDays <= 0 ==> repo.db == old(repo.db)
    ensures expireDays > 0 ==>
      && YoungStay(old(repo.db), repo.db, expireDays, nowMillis)
      && (repo.faults == old(repo.faults) ==> OnlyYoungStay(old(repo.db), repo.db, expireDays, nowMillis))
    ensures expireDays > 0 ==>
      && ThumbSafe(old(repo.db), Cutoff(expireDays, nowMillis), repo.db, set at | at in removed) && NoRepeats(removed)
      && (complete ==> Old(repo.db, Cutoff(expireDays, nowMillis)) <= visited)
      && (repo.faults == old(repo.faults) ==> repo.db == ThumbPurgeResult(old(repo.db), Cutoff(expireDays, nowMillis)))
  {
    complete, removed, visited := true, [], {};
    if expireDays <= 0 { return; }
    BeforeIsTotal(lt);
    var less := (t, u) => Before(lt, t, u);
    assert IsRowOrder(less);
    ghost var before := repo.db;
    complete, removed, visited := Sweep(repo, Cutoff(expireDays, nowMillis), less);
    SafeSparesTheYoung(before, repo.db, (set at | at in removed), expireDays, nowMillis);
    CompletedTakesTheRest(before, expireDays, nowMillis);
  }
}
