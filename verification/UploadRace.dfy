/** Any number of uploads at once (pipelines/pipeline_upload/pipeline.go,
    pipelines/_steps/upload/lock.go): between finding that a hash is unknown and
    inserting its row, only the lock on the hash keeps two uploads from storing the
    same bytes twice. */
module UploadRace {
  import opened Wrappers
  import opened Repository
  import opened Uploads

  datatype Pc =
    | Waiting                  // for the lock on the hash
    | Holding                  // about to look for existing records
    | Reusing(row: Media)      // about to insert a row for the object of this record
    | Storing                  // about to store the object
    | Inserting(at: Location)  // object stored, about to insert its row
    | Undoing(at: Location)    // insert failed, about to remove the object
    | Leaving(answer: Option<Media>)  // about to release the lock
    | Gone(answer: Option<Media>)

  datatype Worker = Worker(req: Request, pc: Pc)

  /** `strays` are the objects that belong to no media row: fragments of failed writes,
      objects whose removal failed, and whatever else was there to begin with. */
  datatype System = System(db: Db, locks: map<Hash, nat>, workers: map<nat, Worker>, strays: set<Location>) {
    function Moved(w: nat, pc: Pc): System
      requires w in workers
    {
      this.(workers := workers[w := workers[w].(pc := pc)])
    }
  }

  datatype Event =
    | Acquire
    | LookUpFails
    | LookUp(found: Option<Media>, perfect: bool)
    | InsertReuse(ok: bool)
    | Put(at: Location)
    | PutFails(fragment: Option<(Location, Hash)>)
    | Insert(ok: bool)
    | Undo(ok: bool)
    | Release

  predicate InCriticalSection(pc: Pc) {
    !pc.Waiting? && !pc.Gone?
  }

  /** One step of worker `w`. `locking` is false when the repository runs without the
      shared lock. */
  ghost predicate Step(s: System, w: nat, e: Event, t: System, locking: bool) {
    w in s.workers &&
    var req, pc := s.workers[w].req, s.workers[w].pc;
    match e
    case Acquire =>
      pc.Waiting? && if locking then req.hash !in s.locks && t == s.Moved(w, Holding).(locks := s.locks[req.hash := w])
                     else t == s.Moved(w, Holding)
    case LookUpFails => pc.Holding? && t == s.Moved(w, Leaving(None))
    case LookUp(found, perfect) =>
      && pc.Holding?
      && (found.None? ==> forall m | m in s.db.media :: m.hash != req.hash)
      && (found.Some? ==> found.value in s.db.media && found.value.hash == req.hash)
      && (perfect <==> HasPerfect(s.db, req))
      && (perfect ==> found.Some? && Perfect(found.value, req.userId, req.fileName))
      && t == s.Moved(w, if found.None? then Storing
                         else if perfect && !req.mustUseMediaId then Leaving(found)
                         else Reusing(found.value))
    case InsertReuse(ok) =>
      && pc.Reusing?
      && (ok ==> !IdTaken(s.db, req.mxc))
      && var row := RowLike(req, pc.row);
         t == if ok then s.(db := MediaInserted(s.db, row)).Moved(w, Leaving(Some(row))) else s.Moved(w, Leaving(None))
    case Put(at) =>
      pc.Storing? && Unused(s.db, at) && t == s.(db := ObjectWritten(s.db, at, req.hash)).Moved(w, Inserting(at))
    case PutFails(fragment) =>
      && pc.Storing?
      && (fragment.Some? ==> Unused(s.db, fragment.value.0))
      && t == (if fragment.Some? then s.(db := ObjectWritten(s.db, fragment.value.0, fragment.value.1),
                                         strays := s.strays + {fragment.value.0})
               else s).Moved(w, Leaving(None))
    case Insert(ok) =>
      && pc.Inserting?
      && (ok ==> !IdTaken(s.db, req.mxc))
      && var row := NewRow(req, pc.at);
         t == if ok then s.(db := MediaInserted(s.db, row)).Moved(w, Leaving(Some(row)))
              else s.Moved(w, Undoing(pc.at))
    case Undo(ok) =>
      && pc.Undoing?
      && t == (if ok then s.(db := ObjectRemoved(s.db, pc.at))
               else s.(strays := s.strays + {pc.at})).Moved(w, Leaving(None))
    case Release => pc.Leaving? && t == s.Moved(w, Gone(pc.answer)).(locks := s.locks - {req.hash})
  }

  // ----- the invariant -----

  ghost predicate LocksOk(s: System) {
    && (forall w | w in s.workers :: InCriticalSection(s.workers[w].pc) ==> Holds(s, w, s.workers[w].req.hash))
    && (forall h | h in s.locks :: IsHeld(s, h))
  }

  /** Whoever has the lock on this hash is busy with it. */
  ghost predicate IsHeld(s: System, h: Hash)
    requires h in s.locks
  {
    var w := s.locks[h];
    w in s.workers && InCriticalSection(s.workers[w].pc) && s.workers[w].req.hash == h
  }

  ghost predicate Holds(s: System, w: nat, h: Hash) {
    h in s.locks && s.locks[h] == w
  }

  predicate BetweenFindAndInsert(pc: Pc) {
    pc.Storing? || pc.Inserting? || pc.Undoing?
  }

  /** The object a worker has stored but not yet entered in the table. */
  predicate InFlight(k: Worker, at: Location) {
    (k.pc.Inserting? || k.pc.Undoing?) && k.pc.at == at
  }

  ghost predicate WorkerOk(db: Db, strays: set<Location>, k: Worker) {
    && (k.pc.Reusing? ==> k.pc.row in db.media && k.pc.row.hash == k.req.hash)
    && (BetweenFindAndInsert(k.pc) ==> forall m | m in db.media :: m.hash != k.req.hash)
    && (k.pc.Inserting? || k.pc.Undoing? ==>
          Stored(db, k.pc.at, k.req.hash) && k.pc.at !in strays && UsersOf(db, k.pc.at) == {})
  }

  /** Every object that is no stray is the home of its hash, or on its way to be. */
  ghost predicate Homed(s: System, at: Location) {
    && at in s.db.objects
    && ((exists m :: m in s.db.media && m.at == at && m.hash == s.db.objects[at])
        || (exists w :: w in s.workers && InFlight(s.workers[w], at) && s.workers[w].req.hash == s.db.objects[at]))
  }

  ghost predicate Inv(s: System) {
    && LocksOk(s)
    && OneHome(s.db) && Sound(s.db)
    && s.strays <= s.db.objects.Keys
    && (forall w | w in s.workers :: WorkerOk(s.db, s.strays, s.workers[w]))
    && (forall at | at in s.db.objects && at !in s.strays :: Homed(s, at))
  }

  lemma OnlyOneInside(s: System, v: nat, w: nat)
    requires LocksOk(s) && v in s.workers && w in s.workers && s.workers[v].req.hash == s.workers[w].req.hash
    requires InCriticalSection(s.workers[v].pc) && InCriticalSection(s.workers[w].pc)
    ensures v == w
  {}

  lemma AcquireKeeps(s: System, w: nat, t: System)
    requires Inv(s) && Step(s, w, Acquire, t, true)
    ensures Inv(t)
  {
    forall at | at in t.db.objects && at !in t.strays ensures Homed(t, at) { HomedStays(s, t, w, at); }
  }

  /** A home is kept by a step that changes neither rows nor this object, unless the
      stepping worker was the one carrying it. */
  lemma HomedStays(s: System, t: System, w: nat, at: Location)
    requires Homed(s, at) && w in s.workers && s.db.media <= t.db.media && Stored(t.db, at, s.db.objects[at])
    requires s.workers.Keys == t.workers.Keys && forall v | v in s.workers && v != w :: t.workers[v] == s.workers[v]
    requires InFlight(s.workers[w], at) ==> InFlight(t.workers[w], at) && t.workers[w].req == s.workers[w].req
    ensures Homed(t, at)
  {
    if m :| m in s.db.media && m.at == at && m.hash == s.db.objects[at] {
      assert m in t.db.media;
    } else {
      var v :| v in s.workers && InFlight(s.workers[v], at) && s.workers[v].req.hash == s.db.objects[at];
      assert InFlight(t.workers[v], at) && t.workers[v].req.hash == t.db.objects[at];
    }
  }

  lemma LookUpKeeps(s: System, w: nat, e: Event, t: System)
    requires Inv(s) && Step(s, w, e, t, true) && (e.LookUpFails? || e.LookUp?)
    ensures Inv(t)
  {
    LocksStay(s, t, w);
    forall at | at in t.db.objects && at !in t.strays ensures Homed(t, at) { HomedStays(s, t, w, at); }
  }

  lemma ReleaseKeeps(s: System, w: nat, t: System)
    requires Inv(s) && Step(s, w, Release, t, true)
    ensures Inv(t)
  {
    forall at | at in t.db.objects && at !in t.strays ensures Homed(t, at) { HomedStays(s, t, w, at); }
    forall v | v in t.workers && InCriticalSection(t.workers[v].pc)
      ensures Holds(t, v, t.workers[v].req.hash)
    {
      if s.workers[v].req.hash == s.workers[w].req.hash { OnlyOneInside(s, v, w); }
    }
  }

  lemma RowStepKeeps(s: System, w: nat, row: Media, t: System)
    requires Inv(s) && w in s.workers && InCriticalSection(s.workers[w].pc)
    requires row.hash == s.workers[w].req.hash
    requires (s.workers[w].pc.Reusing? && row.at == s.workers[w].pc.row.at
              && row.quarantined == s.workers[w].pc.row.quarantined)
      || (s.workers[w].pc.Inserting? && row.at == s.workers[w].pc.at)
    requires t == s.(db := MediaInserted(s.db, row)).Moved(w, Leaving(Some(row)))
    ensures Inv(t)
  {
    var k := s.workers[w];
    LocksStay(s, t, w);
    RowAddedSound(s.db, row, if k.pc.Reusing? then Some(k.pc.row) else None);
    forall v | v in t.workers && v != w
      ensures WorkerOk(t.db, t.strays, t.workers[v])
    {
      OtherWorkerStays(s, w, row, t, v);
    }
    forall at | at in t.db.objects && at !in t.strays
      ensures Homed(t, at)
    {
      if InFlight(k, at) { assert row in t.db.media; } else { HomedStays(s, t, w, at); }
    }
  }

  lemma RowAddedSound(db: Db, row: Media, twin: Option<Media>)
    requires Sound(db) && OneHome(db)
    requires twin.Some? ==>
      twin.value in db.media && twin.value.hash == row.hash && twin.value.at == row.at
        && twin.value.quarantined == row.quarantined
    requires twin.None? ==> Stored(db, row.at, row.hash) && forall m | m in db.media :: m.hash != row.hash
    ensures Sound(MediaInserted(db, row)) && OneHome(MediaInserted(db, row))
  {}

  lemma OtherWorkerStays(s: System, w: nat, row: Media, t: System, v: nat)
    requires Inv(s) && w in s.workers && v in s.workers && v != w && InCriticalSection(s.workers[w].pc)
    requires row.hash == s.workers[w].req.hash && t.db == MediaInserted(s.db, row) && t.strays == s.strays
    requires (s.workers[w].pc.Reusing? && row.at == s.workers[w].pc.row.at)
      || (s.workers[w].pc.Inserting? && row.at == s.workers[w].pc.at)
    ensures WorkerOk(t.db, t.strays, s.workers[v])
  {
    var k := s.workers[v];
    assert WorkerOk(s.db, s.strays, k) && WorkerOk(s.db, s.strays, s.workers[w]);
    if BetweenFindAndInsert(k.pc) {
      if k.req.hash == row.hash { OnlyOneInside(s, v, w); }
      if k.pc.Inserting? || k.pc.Undoing? {
        if s.workers[w].pc.Reusing? { assert s.workers[w].pc.row.mxc in UsersOf(s.db, row.at); }
        assert row.at != k.pc.at;
        assert UsersOf(t.db, k.pc.at) == UsersOf(s.db, k.pc.at);
      }
    }
  }

  lemma LocksStay(s: System, t: System, w: nat)
    requires LocksOk(s) && w in s.workers && InCriticalSection(s.workers[w].pc) && t.locks == s.locks
    requires w in t.workers && t.workers == s.workers[w := s.workers[w].(pc := t.workers[w].pc)]
      && InCriticalSection(t.workers[w].pc)
    ensures LocksOk(t)
  {}

  /** The other workers after a change of the store at one location that is neither
      used nor in flight with them. */
  lemma OthersStay(s: System, t: System, w: nat, at: Location)
    requires w in s.workers && (forall v | v in s.workers :: WorkerOk(s.db, s.strays, s.workers[v]))
    requires t.db.media == s.db.media && t.db.thumbs == s.db.thumbs
    requires forall p | p != at ::
      (p in t.db.objects <==> p in s.db.objects) && (p in s.db.objects ==> t.db.objects[p] == s.db.objects[p])
    requires t.strays <= s.strays + {at}
    requires forall v | v in s.workers && v != w :: !InFlight(s.workers[v], at)
    ensures forall v | v in s.workers && v != w :: WorkerOk(t.db, t.strays, s.workers[v])
  {
    forall v | v in s.workers && v != w
      ensures WorkerOk(t.db, t.strays, s.workers[v])
    {
      var k := s.workers[v];
      assert WorkerOk(s.db, s.strays, k);
      if k.pc.Inserting? || k.pc.Undoing? {
        assert k.pc.at != at;
        assert UsersOf(t.db, k.pc.at) == UsersOf(s.db, k.pc.at);
      }
    }
  }

  lemma PutFailsKeeps(s: System, w: nat, t: System)
    requires Inv(s) && Step(s, w, PutFails(None), t, true)
    ensures Inv(t)
  {
    LocksStay(s, t, w);
    forall p | p in t.db.objects && p !in t.strays ensures Homed(t, p) { HomedStays(s, t, w, p); }
  }

  /** A new object, in flight with its worker or a stray from the start. */
  lemma NewObjectKeeps(s: System, w: nat, at: Location, content: Hash, t: System)
    requires Inv(s) && w in s.workers && s.workers[w].pc.Storing? && Unused(s.db, at)
    requires (t == s.(db := ObjectWritten(s.db, at, content)).Moved(w, Inserting(at))
              && content == s.workers[w].req.hash)
      || t == s.(db := ObjectWritten(s.db, at, content), strays := s.strays + {at}).Moved(w, Leaving(None))
    ensures Inv(t)
  {
    LocksStay(s, t, w);
    forall v | v in s.workers ensures !InFlight(s.workers[v], at) { assert WorkerOk(s.db, s.strays, s.workers[v]); }
    OthersStay(s, t, w, at);
    UnusedObject(s.db, t.db, at);
    forall p | p in t.db.objects && p !in t.strays
      ensures Homed(t, p)
    {
      if p == at { assert InFlight(t.workers[w], at); } else { HomedStays(s, t, w, p); }
    }
    assert WorkerOk(s.db, s.strays, s.workers[w]);
  }

  lemma PutKeeps(s: System, w: nat, e: Event, t: System)
    requires Inv(s) && Step(s, w, e, t, true) && (e.Put? || e.PutFails?)
    ensures Inv(t)
  {
    if e.Put? {
      NewObjectKeeps(s, w, e.at, s.workers[w].req.hash, t);
    } else if e.fragment.Some? {
      NewObjectKeeps(s, w, e.fragment.value.0, e.fragment.value.1, t);
    } else {
      PutFailsKeeps(s, w, t);
    }
  }

  lemma UnusedObject(s: Db, t: Db, at: Location)
    requires UsersOf(s, at) == {} && t.media == s.media && t.thumbs == s.thumbs
    requires forall p | p != at ::
      (p in t.objects <==> p in s.objects) && (p in s.objects ==> t.objects[p] == s.objects[p])
    ensures Sound(s) ==> Sound(t)
    ensures forall p :: UsersOf(t, p) == UsersOf(s, p)
  {
    forall m | m in s.media ensures m.at != at { assert m.at == at ==> m.mxc in UsersOf(s, at); }
    forall u | u in s.thumbs ensures u.at != at { assert u.at == at ==> u.of in UsersOf(s, at); }
  }

  lemma NobodyElseCarries(s: System, w: nat, at: Location)
    requires Inv(s) && w in s.workers && s.workers[w].pc == Undoing(at)
    ensures forall v | v in s.workers && v != w :: !InFlight(s.workers[v], at)
  {
    forall v | v in s.workers && v != w
      ensures !InFlight(s.workers[v], at)
    {
      assert WorkerOk(s.db, s.strays, s.workers[v]) && WorkerOk(s.db, s.strays, s.workers[w]);
      if InFlight(s.workers[v], at) { OnlyOneInside(s, v, w); }
    }
  }

  lemma UndoKeeps(s: System, w: nat, ok: bool, t: System)
    requires Inv(s) && Step(s, w, Undo(ok), t, true)
    ensures Inv(t)
  {
    var at := s.workers[w].pc.at;
    assert WorkerOk(s.db, s.strays, s.workers[w]);
    NobodyElseCarries(s, w, at);
    LocksStay(s, t, w);
    OthersStay(s, t, w, at);
    UnusedObject(s.db, t.db, at);
    forall p | p in t.db.objects && p !in t.strays ensures Homed(t, p) { HomedStays(s, t, w, p); }
  }

  lemma InsertFailsKeeps(s: System, w: nat, e: Event, t: System)
    requires Inv(s) && Step(s, w, e, t, true) && (e == Insert(false) || e == InsertReuse(false))
    ensures Inv(t)
  {
    LocksStay(s, t, w);
    forall p | p in t.db.objects && p !in t.strays ensures Homed(t, p) { HomedStays(s, t, w, p); }
  }

  lemma StepKeepsInv(s: System, w: nat, e: Event, t: System)
    requires Inv(s) && Step(s, w, e, t, true)
    ensures Inv(t)
  {
    match e
    case Acquire => AcquireKeeps(s, w, t);
    case LookUpFails => LookUpKeeps(s, w, e, t);
    case LookUp(_, _) => LookUpKeeps(s, w, e, t);
    case InsertReuse(ok) =>
      if ok {
        RowStepKeeps(s, w, RowLike(s.workers[w].req, s.workers[w].pc.row), t);
      } else {
        InsertFailsKeeps(s, w, e, t);
      }
    case Put(_) => PutKeeps(s, w, e, t);
    case PutFails(_) => PutKeeps(s, w, e, t);
    case Insert(ok) =>
      if ok {
        RowStepKeeps(s, w, NewRow(s.workers[w].req, s.workers[w].pc.at), t);
      } else {
        InsertFailsKeeps(s, w, e, t);
      }
    case Undo(ok) => UndoKeeps(s, w, ok, t);
    case Release => ReleaseKeeps(s, w, t);
  }

  // ----- whole interleavings -----

  ghost predicate Interleaving(states: seq<System>, turns: seq<(nat, Event)>, locking: bool) {
    |states| == |turns| + 1
      && forall i | 0 <= i < |turns| :: Step(states[i], turns[i].0, turns[i].1, states[i + 1], locking)
  }

  /** Nobody has started, rows are deduplicated, and every object that is the home of
      no row counts as a stray. */
  ghost predicate Initial(s: System) {
    && OneHome(s.db) && Sound(s.db) && s.locks == map[]
    && (forall w | w in s.workers :: s.workers[w].pc == Waiting)
    && s.strays <= s.db.objects.Keys
    && (forall at | at in s.db.objects && at !in s.strays ::
          exists m :: m in s.db.media && m.at == at && m.hash == s.db.objects[at])
  }

  lemma {:induction false} InvAlways(states: seq<System>, turns: seq<(nat, Event)>)
    requires Interleaving(states, turns, true) && Initial(states[0])
    ensures Inv(states[|turns|])
    decreases |turns|
  {
    if turns != [] {
      var n := |turns| - 1;
      InvAlways(states[..n + 1], turns[..n]);
      StepKeepsInv(states[n], turns[n].0, turns[n].1, states[n + 1]);
    }
  }

  /** Two objects of one hash, neither of them a stray. */
  ghost predicate SameBytes(s: System, p: Location, q: Location) {
    && p in s.db.objects && q in s.db.objects && s.db.objects[p] == s.db.objects[q]
    && p !in s.strays && q !in s.strays
  }

  lemma StepKeepsIds(s: System, w: nat, e: Event, t: System, locking: bool)
    requires Step(s, w, e, t, locking) && UniqueIds(s.db)
    ensures UniqueIds(t.db)
  {}

  /** The unique index refuses a second row for an ID, whoever inserts it. */
  lemma {:induction false} IdsStayUnique(states: seq<System>, turns: seq<(nat, Event)>, n: nat, locking: bool)
    requires Interleaving(states, turns, locking) && UniqueIds(states[0].db) && n <= |turns|
    ensures UniqueIds(states[n].db)
  {
    if n > 0 {
      IdsStayUnique(states, turns, n - 1, locking);
      StepKeepsIds(states[n - 1], turns[n - 1].0, turns[n - 1].1, states[n], locking);
    }
  }

  /** If the same user has uploaded the same bytes under the same name, the look-up hands
      that record back unless the ID must be used, and nothing is added. */
  lemma DuplicatesAddNothing(s: System, w: nat, e: Event, t: System, locking: bool)
    requires Step(s, w, e, t, locking) && s.workers[w].pc.Holding?
    requires HasPerfect(s.db, s.workers[w].req) && !s.workers[w].req.mustUseMediaId
    ensures t.db == s.db && t.workers[w].pc.Leaving?
    ensures e != LookUpFails ==>
      && t.workers[w].pc.answer.Some?
      && var m, req := t.workers[w].pc.answer.value, s.workers[w].req;
         m in s.db.media && m.hash == req.hash && m.userId == req.userId && m.uploadName == req.fileName
  {}

  /** In every interleaving of any number of uploads, at every step: all media rows of
      one hash share one location, no row is without its object, and apart from the
      strays each hash is stored at most once. */
  lemma OneObjectPerHash(states: seq<System>, turns: seq<(nat, Event)>, p: Location, q: Location)
    requires Interleaving(states, turns, true) && Initial(states[0])
    ensures var s := states[|turns|];
      && OneHome(s.db) && Sound(s.db)
      && (SameBytes(s, p, q) ==> p == q)
  {
    InvAlways(states, turns);
    var s := states[|turns|];
    if SameBytes(s, p, q) {
      assert Homed(s, p) && Homed(s, q);
      if v :| v in s.workers && InFlight(s.workers[v], p) && s.workers[v].req.hash == s.db.objects[p] {
        if w :| w in s.workers && InFlight(s.workers[w], q) && s.workers[w].req.hash == s.db.objects[q] {
          OnlyOneInside(s, v, w);
        }
      }
    }
  }

  /** Strays come only from failures: a write that broke off or a removal that failed. */
  lemma StraysComeFromFailures(s: System, w: nat, e: Event, t: System)
    requires Step(s, w, e, t, true) && t.strays != s.strays
    ensures e == Undo(false) || e.PutFails?
  {}

  // ----- what the uploads answer -----

  /** A row of the table for the uploaded bytes, under the uploader's name and file name;
      it holds what the request says, unless a record was there to be handed back. */
  ghost predicate IsAnswer(db: Db, req: Request, m: Media) {
    && m in db.media && m.hash == req.hash && m.userId == req.userId && m.uploadName == req.fileName
    && (!req.mustUseMediaId || m.mxc == req.mxc)
    && (req.mustUseMediaId ==>
          m.contentType == req.contentType && m.sizeBytes == req.sizeBytes && m.creationTs == req.now)
  }

  ghost predicate AnswersOk(s: System) {
    forall w | w in s.workers && (s.workers[w].pc.Leaving? || s.workers[w].pc.Gone?) && s.workers[w].pc.answer.Some? ::
      IsAnswer(s.db, s.workers[w].req, s.workers[w].pc.answer.value)
  }

  lemma AnswersStay(s: System, w: nat, e: Event, t: System, locking: bool)
    requires AnswersOk(s) && Step(s, w, e, t, locking)
    ensures AnswersOk(t) && s.db.media <= t.db.media
  {
    assert s.db.media <= t.db.media;
    forall v | v in t.workers && v != w ensures t.workers[v] == s.workers[v] {}
  }

  lemma {:induction false} AnswersAlwaysOk(states: seq<System>, turns: seq<(nat, Event)>, n: nat)
    requires Interleaving(states, turns, true) && Initial(states[0]) && n <= |turns|
    ensures AnswersOk(states[n])
  {
    if n > 0 {
      AnswersAlwaysOk(states, turns, n - 1);
      AnswersStay(states[n - 1], turns[n - 1].0, turns[n - 1].1, states[n], true);
    }
  }

  /** In every interleaving: whoever leaves with an answer has a row for its bytes in the
      table, to the end, and the object is there unless the row is quarantined. */
  lemma AnswersAreStored(states: seq<System>, turns: seq<(nat, Event)>, w: nat)
    requires Interleaving(states, turns, true) && Initial(states[0])
    requires w in states[|turns|].workers && states[|turns|].workers[w].pc.Gone?
      && states[|turns|].workers[w].pc.answer.Some?
    ensures var s := states[|turns|];
      var m := s.workers[w].pc.answer.value;
      IsAnswer(s.db, s.workers[w].req, m) && (m.quarantined || Stored(s.db, m.at, s.workers[w].req.hash))
  {
    InvAlways(states, turns);
    AnswersAlwaysOk(states, turns, |turns|);
  }

  predicate Fails(e: Event) {
    e in {LookUpFails, InsertReuse(false), Insert(false)} || e.PutFails?
  }

  ghost predicate HasFailed(turns: seq<(nat, Event)>, w: nat, n: nat) {
    exists k: nat :: k < n && k < |turns| && turns[k].0 == w && Fails(turns[k].1)
  }

  /** Nobody leaves without an answer unless one of its own calls has failed. */
  lemma {:induction false} SilenceHasAReason(states: seq<System>, turns: seq<(nat, Event)>, w: nat, n: nat)
    requires Interleaving(states, turns, true) && Initial(states[0]) && n <= |turns|
    requires w in states[n].workers
    requires states[n].workers[w].pc.Undoing? || states[n].workers[w].pc in {Leaving(None), Gone(None)}
    ensures HasFailed(turns, w, n)
    decreases n
  {
    if n > 0 {
      var s, e := states[n - 1], turns[n - 1].1;
      assert Step(s, turns[n - 1].0, e, states[n], true);
      if w in s.workers && (s.workers[w].pc.Undoing? || s.workers[w].pc in {Leaving(None), Gone(None)}) {
        SilenceHasAReason(states, turns, w, n - 1);
      } else {
        assert turns[n - 1].0 == w && Fails(e);
      }
    }
  }

  /** Once everybody has left, no lock is held, and every object is the home of a row or a
      stray. */
  lemma WhenAllAreGone(states: seq<System>, turns: seq<(nat, Event)>)
    requires Interleaving(states, turns, true) && Initial(states[0])
    requires forall w | w in states[|turns|].workers :: states[|turns|].workers[w].pc.Gone?
    ensures states[|turns|].locks == map[]
    ensures var s := states[|turns|];
      forall at | at in s.db.objects && at !in s.strays ::
        exists m :: m in s.db.media && m.at == at && m.hash == s.db.objects[at]
  {
    InvAlways(states, turns);
    var s := states[|turns|];
    assert forall h | h in s.locks :: IsHeld(s, h);
    assert s.locks == map[];
    assert forall at | at in s.db.objects && at !in s.strays :: Homed(s, at);
  }

  // ----- progress -----

  function StepsLeft(pc: Pc): nat {
    match pc
    case Waiting => 7
    case Holding => 6
    case Storing => 5
    case Inserting(_) => 4
    case Undoing(_) => 3
    case Reusing(_) => 2
    case Leaving(_) => 1
    case Gone(_) => 0
  }

  /** Every step brings its worker nearer to leaving. */
  lemma StepsAreCounted(s: System, w: nat, e: Event, t: System, locking: bool)
    requires Step(s, w, e, t, locking)
    ensures w in t.workers && StepsLeft(t.workers[w].pc) < StepsLeft(s.workers[w].pc) <= 7
    ensures forall v | v in s.workers && v != w :: v in t.workers && t.workers[v] == s.workers[v]
  {}

  lemma LookUpIsPossible(s: System, w: nat) returns (e: Event, t: System)
    requires w in s.workers && s.workers[w].pc.Holding?
    ensures Step(s, w, e, t, true) && !Fails(e)
  {
    var req := s.workers[w].req;
    if m :| m in s.db.media && m.hash == req.hash && Perfect(m, req.userId, req.fileName) {
      e := LookUp(Some(m), true);
      t := s.Moved(w, if req.mustUseMediaId then Reusing(m) else Leaving(Some(m)));
    } else if m :| m in s.db.media && m.hash == req.hash {
      e, t := LookUp(Some(m), false), s.Moved(w, Reusing(m));
    } else {
      e, t := LookUp(None, false), s.Moved(w, Storing);
    }
  }

  /** A worker that is not waiting can go on without a failure, unless its ID is taken. */
  lemma InsideNobodyIsStuck(s: System, w: nat, at: Location) returns (e: Event, t: System)
    requires w in s.workers && InCriticalSection(s.workers[w].pc) && Unused(s.db, at)
    ensures Step(s, w, e, t, true)
    ensures Fails(e) ==> !IdFree(s.db, s.workers[w].req.mxc)
  {
    var k := s.workers[w];
    match k.pc
    case Holding => e, t := LookUpIsPossible(s, w);
    case Reusing(row) =>
      var mine := RowLike(k.req, row);
      e := InsertReuse(!IdTaken(s.db, k.req.mxc));
      t := if e.ok then s.(db := MediaInserted(s.db, mine)).Moved(w, Leaving(Some(mine)))
           else s.Moved(w, Leaving(None));
    case Storing => e, t := Put(at), s.(db := ObjectWritten(s.db, at, k.req.hash)).Moved(w, Inserting(at));
    case Inserting(p) =>
      var mine := NewRow(k.req, p);
      e := Insert(!IdTaken(s.db, k.req.mxc));
      t := if e.ok then s.(db := MediaInserted(s.db, mine)).Moved(w, Leaving(Some(mine))) else s.Moved(w, Undoing(p));
    case Undoing(p) => e, t := Undo(true), s.(db := ObjectRemoved(s.db, p)).Moved(w, Leaving(None));
    case Leaving(a) => e, t := Release, s.Moved(w, Gone(a)).(locks := s.locks - {k.req.hash});
  }

  /** The lock never blocks everybody: as long as somebody has not left, somebody can go
      on, the worker itself or the one it waits for, and without a failure unless an ID
      is taken. */
  lemma NobodyWaitsForever(s: System, w: nat, at: Location) returns (v: nat, e: Event, t: System)
    requires Inv(s) && w in s.workers && !s.workers[w].pc.Gone? && Unused(s.db, at)
    ensures v in s.workers && s.workers[v].req.hash == s.workers[w].req.hash && Step(s, v, e, t, true)
    ensures Fails(e) ==> !IdFree(s.db, s.workers[v].req.mxc)
  {
    var h := s.workers[w].req.hash;
    if s.workers[w].pc.Waiting? && h !in s.locks {
      v, e, t := w, Acquire, s.Moved(w, Holding).(locks := s.locks[h := w]);
    } else {
      v := if s.workers[w].pc.Waiting? then s.locks[h] else w;
      e, t := InsideNobodyIsStuck(s, v, at);
    }
  }

  // ----- without the lock -----

  /** Two uploads of the same bytes. */
  function Two(db: Db, a: Request, pa: Pc, b: Request, pb: Pc): System {
    System(db, map[], map[0 := Worker(a, pa), 1 := Worker(b, pb)], {})
  }

  lemma TwoMoves(db: Db, a: Request, pa: Pc, b: Request, pb: Pc, pc: Pc)
    ensures Two(db, a, pa, b, pb).Moved(0, pc) == Two(db, a, pc, b, pb)
    ensures Two(db, a, pa, b, pb).Moved(1, pc) == Two(db, a, pa, b, pc)
  {
    assert Two(db, a, pa, b, pb).Moved(0, pc).workers == Two(db, a, pc, b, pb).workers;
    assert Two(db, a, pa, b, pb).Moved(1, pc).workers == Two(db, a, pa, b, pc).workers;
  }

  /** Without the lock both look before either has stored anything. */
  lemma BothFindNothing(a: Request, b: Request)
    ensures var db := Db({}, {}, {}, {}, map[]);
      && Step(Two(db, a, Waiting, b, Waiting), 0, Acquire, Two(db, a, Holding, b, Waiting), false)
      && Step(Two(db, a, Holding, b, Waiting), 1, Acquire, Two(db, a, Holding, b, Holding), false)
      && Step(Two(db, a, Holding, b, Holding), 0, LookUp(None, false), Two(db, a, Storing, b, Holding), false)
      && Step(Two(db, a, Storing, b, Holding), 1, LookUp(None, false), Two(db, a, Storing, b, Storing), false)
  {
    var db := Db({}, {}, {}, {}, map[]);
    TwoMoves(db, a, Waiting, b, Waiting, Holding);
    TwoMoves(db, a, Holding, b, Waiting, Holding);
    TwoMoves(db, a, Holding, b, Holding, Storing);
    TwoMoves(db, a, Storing, b, Holding, Storing);
  }

  lemma BothStore(db: Db, a: Request, b: Request, p: Location, q: Location)
    requires p != q && Unused(db, p) && Unused(db, q)
    ensures var db1 := ObjectWritten(db, p, a.hash);
      && Step(Two(db, a, Storing, b, Storing), 0, Put(p), Two(db1, a, Inserting(p), b, Storing), false)
      && Step(Two(db1, a, Inserting(p), b, Storing), 1, Put(q),
              Two(ObjectWritten(db1, q, b.hash), a, Inserting(p), b, Inserting(q)), false)
  {
    var db1 := ObjectWritten(db, p, a.hash);
    TwoMoves(db1, a, Storing, b, Storing, Inserting(p));
    TwoMoves(ObjectWritten(db1, q, b.hash), a, Inserting(p), b, Storing, Inserting(q));
  }

  lemma BothInsert(db: Db, a: Request, b: Request, p: Location, q: Location)
    requires a.mxc != b.mxc && !IdTaken(db, a.mxc) && !IdTaken(db, b.mxc)
    ensures var db1 := MediaInserted(db, NewRow(a, p));
      && Step(Two(db, a, Inserting(p), b, Inserting(q)), 0, Insert(true),
              Two(db1, a, Leaving(Some(NewRow(a, p))), b, Inserting(q)), false)
      && Step(Two(db1, a, Leaving(Some(NewRow(a, p))), b, Inserting(q)), 1, Insert(true),
              Two(MediaInserted(db1, NewRow(b, q)), a, Leaving(Some(NewRow(a, p))), b, Leaving(Some(NewRow(b, q)))),
              false)
  {
    var db1, left := MediaInserted(db, NewRow(a, p)), Leaving(Some(NewRow(a, p)));
    TwoMoves(db1, a, Inserting(p), b, Inserting(q), left);
    TwoMoves(MediaInserted(db1, NewRow(b, q)), a, left, b, Inserting(q), Leaving(Some(NewRow(b, q))));
  }

  /** The lock is what does it. Without it, any two uploads of the same bytes have an
      interleaving (both look, both store, both insert) that splits the rows. */
  lemma WithoutTheLockRowsSplit(a: Request, b: Request, p: Location, q: Location)
    returns (states: seq<System>, turns: seq<(nat, Event)>)
    requires a.hash == b.hash && a.mxc != b.mxc && p != q
    ensures Interleaving(states, turns, false) && Initial(states[0]) && !OneHome(states[|turns|].db)
    ensures states[0].workers == map[0 := Worker(a, Waiting), 1 := Worker(b, Waiting)]
  {
    var db := Db({}, {}, {}, {}, map[]);
    var db1 := ObjectWritten(db, p, a.hash);
    var db2 := ObjectWritten(db1, q, b.hash);
    var db3 := MediaInserted(db2, NewRow(a, p));
    var db4 := MediaInserted(db3, NewRow(b, q));
    BothFindNothing(a, b);
    BothStore(db, a, b, p, q);
    BothInsert(db2, a, b, p, q);
    states := [
      Two(db, a, Waiting, b, Waiting), Two(db, a, Holding, b, Waiting), Two(db, a, Holding, b, Holding),
      Two(db, a, Storing, b, Holding), Two(db, a, Storing, b, Storing), Two(db1, a, Inserting(p), b, Storing),
      Two(db2, a, Inserting(p), b, Inserting(q)), Two(db3, a, Leaving(Some(NewRow(a, p))), b, Inserting(q)),
      Two(db4, a, Leaving(Some(NewRow(a, p))), b, Leaving(Some(NewRow(b, q))))];
    turns := [
      (0, Acquire), (1, Acquire), (0, LookUp(None, false)), (1, LookUp(None, false)),
      (0, Put(p)), (1, Put(q)), (0, Insert(true)), (1, Insert(true))];
    assert NewRow(a, p) in db4.media && NewRow(b, q) in db4.media;
  }
}
