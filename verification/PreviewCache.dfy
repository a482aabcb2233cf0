/** Workers on several machines that preview the same URL in the same hour race for
    one row of the cache (pipelines/_steps/url_preview/process.go,
    database/table_url_previews.go). Each step is one call to the database. Rows may
    expire at any time. */
module PreviewCache {
  import opened Wrappers

  datatype Key = Key(url: string, bucket: int, language: string)

  datatype Image = Image(mxc: string, contentType: string, size: int, width: int, height: int)

  const NO_IMAGE := Image("", "", 0, 0, 0)

  datatype Site = Site(url: string, name: string, resourceType: string, description: string, title: string)

  /** A cache row without its key; a success has the empty error code. */
  datatype Preview = Preview(errorCode: string, site: Site, image: Image)

  const NO_SITE := Site("", "", "", "", "")

  predicate Success(p: Preview) {
    p.errorCode == ""
  }

  // ----- the cache key -----

  /** Go's integer division truncates towards zero. */
  function TruncDiv(a: int, n: nat): int
    requires n > 0
  {
    if a >= 0 then a / n else -((-a) / n)
  }

  function HourBucket(ts: int): int {
    TruncDiv(ts, 3600000) * 3600000
  }

  lemma HourBucketIsIdempotent(ts: int)
    ensures HourBucket(HourBucket(ts)) == HourBucket(ts)
  {
    var q := TruncDiv(ts, 3600000);
    assert (q * 3600000) / 3600000 == q;
    assert ((-q) * 3600000) / 3600000 == -q;
  }

  // ----- the workers -----

  /** What fetching the page gave. */
  datatype Fetch = Broken(code: string) | Fetched(site: Site, image: Image)

  datatype Pc =
    | Start
    | Inserting(result: Preview)
    | Conflicted(result: Preview)                            // the key was taken, about to read it
    | Upgrading(result: Preview)                             // an error is cached, about to replace it
    | Rereading(result: Preview)                             // somebody else was faster
    | Settling(result: Preview, existing: Option<Preview>)   // about to clean up and answer
    | Aborting(result: Preview)                              // after a failed call
    | Done(answer: Option<Preview>)

  /** `mine` is the media ID generated for this worker's image. */
  datatype Worker = Worker(url: string, ts: int, language: string, fetch: Fetch, mine: string, pc: Pc) {
    /** Rows are written under the bucket the caller computed ... */
    function WriteKey(): Key {
      Key(url, HourBucket(ts), language)
    }

    /** ... and read under the bucket of that bucket. */
    function ReadKey(): Key {
      Key(url, HourBucket(HourBucket(ts)), language)
    }
  }

  lemma KeysAgree(k: Worker)
    ensures k.ReadKey() == k.WriteKey()
  {
    HourBucketIsIdempotent(k.ts);
  }

  datatype MediaChange = Same | Add | Drop

  /** Where the worker goes, the row it writes, what it does to its image, and whether
      a call failed. */
  datatype Act = Act(pc: Pc, write: Option<Preview>, media: MediaChange, fault: bool)

  /** `expired` are the keys a row of which has expired, `orphans` the images of rows that
      have expired. */
  datatype Cache = Cache(rows: map<Key, Preview>, media: set<string>, workers: map<nat, Worker>, faulted: bool,
                         expired: set<Key>, orphans: set<string>) {
    /** Carries out what worker `w` does in one step. */
    function Apply(w: nat, act: Act): Cache
      requires w in workers
    {
      Cache(
        if act.write.Some? then rows[workers[w].WriteKey() := act.write.value] else rows,
        match act.media
        case Same => media
        case Add => media + {workers[w].mine}
        case Drop => media - {workers[w].mine},
        workers[w := workers[w].(pc := act.pc)],
        faulted || act.fault,
        expired, orphans)
    }

    function Read(key: Key): Option<Preview> {
      if key in rows then Some(rows[key]) else None
    }

    function Expired(key: Key): Cache
      requires key in rows
    {
      Cache(rows - {key}, media, workers, faulted, expired + {key},
            if rows[key].image.mxc == "" then orphans else orphans + {rows[key].image.mxc})
    }
  }

  /** How far a cleanup gets: to the end, to the deletion of the media row, or nowhere. */
  datatype Cleanup = Whole | RowOnly | Nothing

  datatype Event =
    | Refuse(written: bool)
    | Upload(ok: bool)
    | Insert(ok: bool)
    | Get(ok: bool)
    | Update(ok: bool)
    | Reread(ok: bool)
    | Settle(cleanup: Cleanup)
    | Abort(cleanup: Cleanup)

  function Result(k: Worker, uploaded: bool): Preview
    requires k.fetch.Fetched?
  {
    Preview("", k.fetch.site, if uploaded then k.fetch.image.(mxc := k.mine) else NO_IMAGE)
  }

  /** The worker has uploaded an image for this result. */
  predicate Uploaded(k: Worker, result: Preview) {
    result.image.mxc == k.mine
  }

  function Cleared(result: Preview): Preview {
    result.(image := NO_IMAGE)
  }

  function Dropping(cleanup: Cleanup): MediaChange {
    if cleanup == Nothing then Same else Drop
  }

  /** What the worker does; reads of the cache go through `read`. */
  function Acts(k: Worker, cached: Option<Preview>, read: Option<Preview>, e: Event): Act
    requires CanDo(k, e)
  {
    match e
    case Refuse(written) =>
      var row := Preview(k.fetch.code, NO_SITE, NO_IMAGE);
      Act(Done(None), if written && cached.None? then Some(row) else None, Same, !written)
    case Upload(ok) => Act(Inserting(Result(k, ok)), None, if ok then Add else Same, false)
    case Insert(ok) =>
      if !ok then Act(Aborting(k.pc.result), None, Same, true)
      else if cached.Some? then Act(Conflicted(k.pc.result), None, Same, false)
      else Act(Done(Some(k.pc.result)), Some(k.pc.result), Same, false)
    case Get(ok) =>
      if !ok then Act(Aborting(k.pc.result), None, Same, true)
      else if read.Some? && !Success(read.value) then Act(Upgrading(k.pc.result), None, Same, false)
      else Act(Settling(k.pc.result, read), None, Same, false)
    case Update(ok) =>
      if ok && cached.Some? && !Success(cached.value) then Act(Done(Some(k.pc.result)), Some(k.pc.result), Same, false)
      else Act(Rereading(k.pc.result), None, Same, !ok)
    case Reread(ok) =>
      if !ok then Act(Aborting(k.pc.result), None, Same, true) else Act(Settling(k.pc.result, read), None, Same, false)
    case Settle(cleanup) =>
      var result, existing := k.pc.result, k.pc.existing;
      var unused := Uploaded(k, result) && (existing.None? || existing.value.image.mxc != result.image.mxc);
      Act(Done(Some(if existing.Some? then existing.value else result)), None,
          if unused then Dropping(cleanup) else Same, unused && cleanup != Whole)
    case Abort(cleanup) =>
      if !Uploaded(k, k.pc.result) then Act(Done(Some(k.pc.result)), None, Same, true)
      else
        var answer := if cleanup == Whole then Cleared(k.pc.result) else k.pc.result;
        Act(Done(Some(answer)), None, Dropping(cleanup), true)
  }

  predicate CanDo(k: Worker, e: Event) {
    match e
    case Refuse(_) => k.pc.Start? && k.fetch.Broken? && k.fetch.code != ""
    case Upload(_) => k.pc.Start? && k.fetch.Fetched?
    case Insert(_) => k.pc.Inserting?
    case Get(_) => k.pc.Conflicted?
    case Update(_) => k.pc.Upgrading?
    case Reread(_) => k.pc.Rereading?
    case Settle(_) => k.pc.Settling?
    case Abort(_) => k.pc.Aborting?
  }

  /** A step of a worker, or the expiry of a row. */
  datatype Turn = Work(w: nat, e: Event) | Expire(key: Key)

  predicate Enabled(s: Cache, turn: Turn) {
    match turn
    case Work(w, e) => w in s.workers && CanDo(s.workers[w], e)
    case Expire(key) => key in s.rows
  }

  function ActOf(s: Cache, w: nat, e: Event): Act
    requires Enabled(s, Work(w, e))
  {
    Acts(s.workers[w], s.Read(s.workers[w].WriteKey()), s.Read(s.workers[w].ReadKey()), e)
  }

  function Next(s: Cache, turn: Turn): Cache
    requires Enabled(s, turn)
  {
    match turn
    case Work(w, e) => s.Apply(w, ActOf(s, w, e))
    case Expire(key) => s.Expired(key)
  }

  // ----- success rows are final -----

  /** Whatever happens and whatever fails, a cached success is never changed; it can only
      expire. */
  lemma SuccessIsFinal(s: Cache, turn: Turn, key: Key)
    requires Enabled(s, turn) && key in s.rows && Success(s.rows[key]) && turn != Expire(key)
    ensures key in Next(s, turn).rows && Next(s, turn).rows[key] == s.rows[key]
  {}

  // ----- the invariant -----

  predicate Holding(k: Worker) {
    !k.pc.Start? && !k.pc.Done?
  }

  ghost predicate WorkerOk(s: Cache, k: Worker) {
    && k.mine != ""
    && (!k.pc.Done? ==> k.mine !in s.orphans && forall key | key in s.rows :: s.rows[key].image.mxc != k.mine)
    && (k.pc.Start? ==> k.mine !in s.media)
    && (Holding(k) ==> Success(k.pc.result) && k.pc.result.image.mxc in {"", k.mine})
    && (Holding(k) && Uploaded(k, k.pc.result) ==> k.mine in s.media)
  }

  /** The image is there, and nobody will remove it any more. */
  ghost predicate Lasting(s: Cache, x: string) {
    x == "" || (x in s.media && forall v | v in s.workers && s.workers[v].mine == x :: s.workers[v].pc.Done?)
  }

  /** What a worker has read, and what it has answered, has a lasting image, unless it is
      the worker's own. */
  ghost predicate ReadOk(s: Cache, k: Worker) {
    && (k.pc.Settling? && k.pc.existing.Some? ==>
          k.pc.existing.value.image.mxc != k.mine && Lasting(s, k.pc.existing.value.image.mxc))
    && (k.pc.Done? && k.pc.answer.Some? ==>
          k.pc.answer.value.image.mxc == k.mine || Lasting(s, k.pc.answer.value.image.mxc))
  }

  ghost predicate RowsOk(s: Cache) {
    && "" !in s.media && s.orphans <= s.media
    && (forall key | key in s.rows && !Success(s.rows[key]) :: s.rows[key].image.mxc == "")
    && (forall key | key in s.rows && s.rows[key].image.mxc != "" :: s.rows[key].image.mxc in s.media)
  }

  ghost predicate DistinctIds(s: Cache) {
    forall v, w | v in s.workers && w in s.workers && s.workers[v].mine == s.workers[w].mine :: v == w
  }

  ghost predicate Inv(s: Cache) {
    && RowsOk(s) && DistinctIds(s)
    && (forall w | w in s.workers :: WorkerOk(s, s.workers[w]))
    && (forall w | w in s.workers :: ReadOk(s, s.workers[w]))
  }

  /** What an act must be like, seen from its worker, to keep the invariant. */
  ghost predicate ActOk(s: Cache, k: Worker, act: Act) {
    && !act.pc.Start? && !k.pc.Done?
    && (act.write.Some? ==>
          && act.media == Same && act.pc.Done?
          && act.write.value.image.mxc in {"", k.mine}
          && (act.write.value.image.mxc == k.mine ==> Success(act.write.value) && k.mine in s.media))
    && (act.media == Add ==> k.pc.Start?)
    && (act.media == Drop ==> Holding(k) && act.pc.Done?)
    && (Holding(k.(pc := act.pc)) ==>
          && Success(act.pc.result) && act.pc.result.image.mxc in {"", k.mine}
          && (act.pc.result.image.mxc == k.mine ==> act.media == Add || (act.media == Same && k.mine in s.media)))
  }

  lemma ActsAreOk(s: Cache, w: nat, e: Event)
    requires Inv(s) && Enabled(s, Work(w, e))
    ensures ActOk(s, s.workers[w], ActOf(s, w, e))
  {
    assert WorkerOk(s, s.workers[w]);
  }

  lemma OkActsKeepWorkers(s: Cache, w: nat, act: Act)
    requires Inv(s) && w in s.workers && ActOk(s, s.workers[w], act)
    ensures RowsOk(s.Apply(w, act)) && DistinctIds(s.Apply(w, act))
    ensures forall v | v in s.workers :: WorkerOk(s.Apply(w, act), s.Apply(w, act).workers[v])
  {
    var k, t := s.workers[w], s.Apply(w, act);
    assert WorkerOk(s, k);
    forall v | v in s.workers && v != w
      ensures WorkerOk(t, s.workers[v])
    {
      assert s.workers[v].mine != k.mine && WorkerOk(s, s.workers[v]);
    }
    forall key | key in t.rows
      ensures (key in s.rows && t.rows[key] == s.rows[key]) || (act.write == Some(t.rows[key]) && key == k.WriteKey())
    {}
  }

  /** Nobody removes a lasting image. */
  lemma LastingStays(s: Cache, w: nat, act: Act, x: string)
    requires w in s.workers && ActOk(s, s.workers[w], act) && Lasting(s, x)
    ensures Lasting(s.Apply(w, act), x)
  {}

  lemma RowsLast(s: Cache, key: Key)
    requires Inv(s) && key in s.rows
    ensures Lasting(s, s.rows[key].image.mxc)
  {
    forall v | v in s.workers && s.workers[v].mine == s.rows[key].image.mxc && s.rows[key].image.mxc != ""
      ensures s.workers[v].pc.Done?
    {
      assert WorkerOk(s, s.workers[v]);
    }
  }

  /** What the stepping worker has read or answered. */
  lemma ReadsAreOk(s: Cache, w: nat, e: Event)
    requires Inv(s) && Enabled(s, Work(w, e))
    ensures var k := s.workers[w].(pc := ActOf(s, w, e).pc);
      && (k.pc.Settling? && k.pc.existing.Some? ==>
            k.pc.existing.value.image.mxc != k.mine && Lasting(s, k.pc.existing.value.image.mxc))
      && (k.pc.Done? && k.pc.answer.Some? ==>
            k.pc.answer.value.image.mxc == k.mine || Lasting(s, k.pc.answer.value.image.mxc))
  {
    var k := s.workers[w];
    assert WorkerOk(s, k) && ReadOk(s, k);
    if k.ReadKey() in s.rows { RowsLast(s, k.ReadKey()); }
  }

  lemma WorkKeepsReads(s: Cache, w: nat, e: Event)
    requires Inv(s) && Enabled(s, Work(w, e))
    ensures forall v | v in s.workers :: ReadOk(Next(s, Work(w, e)), Next(s, Work(w, e)).workers[v])
  {
    var act, t := ActOf(s, w, e), Next(s, Work(w, e));
    ActsAreOk(s, w, e);
    ReadsAreOk(s, w, e);
    forall x | Lasting(s, x) ensures Lasting(t, x) { LastingStays(s, w, act, x); }
    forall v | v in s.workers && v != w ensures ReadOk(t, t.workers[v]) { assert ReadOk(s, s.workers[v]); }
  }

  lemma ExpiryKeepsInv(s: Cache, key: Key)
    requires Inv(s) && key in s.rows
    ensures Inv(s.Expired(key))
  {
    var t := s.Expired(key);
    RowsLast(s, key);
    forall x | Lasting(s, x) ensures Lasting(t, x) {}
    forall v | v in s.workers ensures WorkerOk(t, t.workers[v]) && ReadOk(t, t.workers[v]) {
      assert WorkerOk(s, s.workers[v]) && ReadOk(s, s.workers[v]);
    }
  }

  /** At every step, whatever fails or expires, a cached image names an existing media
      row. */
  lemma InvStep(s: Cache, turn: Turn)
    requires Inv(s) && Enabled(s, turn)
    ensures Inv(Next(s, turn))
  {
    match turn
    case Work(w, e) =>
      ActsAreOk(s, w, e);
      OkActsKeepWorkers(s, w, ActOf(s, w, e));
      WorkKeepsReads(s, w, e);
    case Expire(key) => ExpiryKeepsInv(s, key);
  }

  // ----- what holds as long as no call fails -----

  predicate LostTheRace(pc: Pc) {
    pc.Conflicted? || pc.Upgrading? || pc.Rereading? || pc.Settling?
  }

  /** As long as no row of its key has expired, a worker's answer is the cached row. */
  ghost predicate WorkerExact(s: Cache, k: Worker) {
    k.WriteKey() !in s.expired ==>
      && (LostTheRace(k.pc) ==> k.WriteKey() in s.rows)
      && (k.pc.Rereading? ==> Success(s.rows[k.WriteKey()]))
      && (k.pc.Settling? ==> k.pc.existing == Some(s.rows[k.WriteKey()]) && Success(s.rows[k.WriteKey()]))
      && (k.pc.Done? && k.pc.answer.Some? ==>
            k.WriteKey() in s.rows && s.rows[k.WriteKey()] == k.pc.answer.value && Success(k.pc.answer.value))
  }

  ghost predicate Exact(s: Cache) {
    !s.faulted ==> forall w | w in s.workers :: !s.workers[w].pc.Aborting? && WorkerExact(s, s.workers[w])
  }

  lemma WorkersStayExact(s: Cache, w: nat, e: Event)
    requires Inv(s) && Exact(s) && Enabled(s, Work(w, e)) && !Next(s, Work(w, e)).faulted
    ensures var t := Next(s, Work(w, e));
      forall v | v in s.workers :: !t.workers[v].pc.Aborting? && WorkerExact(t, t.workers[v])
  {
    var t := Next(s, Work(w, e));
    forall v | v in s.workers
      ensures !t.workers[v].pc.Aborting? && WorkerExact(t, t.workers[v])
    {
      KeysAgree(s.workers[w]);
      assert WorkerExact(s, s.workers[v]) && WorkerOk(s, s.workers[w]) && WorkerExact(s, s.workers[w]);
    }
  }

  lemma ExpiryStaysExact(s: Cache, key: Key)
    requires Inv(s) && Exact(s) && key in s.rows
    ensures Exact(s.Expired(key))
  {
    var t := s.Expired(key);
    if !t.faulted {
      forall w | w in t.workers ensures WorkerExact(t, t.workers[w]) { assert WorkerExact(s, s.workers[w]); }
    }
  }

  lemma ExactStep(s: Cache, turn: Turn)
    requires Inv(s) && Exact(s) && Enabled(s, turn)
    ensures Exact(Next(s, turn))
  {
    match turn
    case Work(w, e) =>
      if !Next(s, turn).faulted { WorkersStayExact(s, w, e); }
    case Expire(key) => ExpiryStaysExact(s, key);
  }

  // ----- whole interleavings -----

  ghost predicate Interleaving(states: seq<Cache>, turns: seq<Turn>) {
    && |states| == |turns| + 1
    && forall i | 0 <= i < |turns| :: Enabled(states[i], turns[i]) && states[i + 1] == Next(states[i], turns[i])
  }

  /** Nobody has started, nothing has expired; the images in the media table are those of
      the cached rows. */
  ghost predicate Initial(s: Cache) {
    && RowsOk(s) && DistinctIds(s) && !s.faulted && s.expired == {} && s.orphans == {}
    && (forall w | w in s.workers :: s.workers[w].pc.Start? && s.workers[w].mine != "" && s.workers[w].mine !in s.media)
    && (forall x | x in s.media :: exists key :: key in s.rows && s.rows[key].image.mxc == x)
  }

  lemma InitialIsInv(s: Cache)
    requires Initial(s)
    ensures Inv(s) && Exact(s)
  {
    forall w | w in s.workers ensures WorkerOk(s, s.workers[w]) {
      assert forall key | key in s.rows && s.rows[key].image.mxc != "" :: s.rows[key].image.mxc in s.media;
    }
  }

  lemma {:induction false} InvAlways(states: seq<Cache>, turns: seq<Turn>, i: nat)
    requires Interleaving(states, turns) && Initial(states[0]) && i <= |turns|
    ensures Inv(states[i]) && Exact(states[i]) && states[i].workers.Keys == states[0].workers.Keys
    decreases i
  {
    if i == 0 {
      InitialIsInv(states[0]);
    } else {
      InvAlways(states, turns, i - 1);
      InvStep(states[i - 1], turns[i - 1]);
      ExactStep(states[i - 1], turns[i - 1]);
    }
  }

  /** Under any failures: a cached success survives, with its image, to the end of every
      interleaving in which its row does not expire. */
  lemma {:induction false} CachedSuccessSurvives(states: seq<Cache>, turns: seq<Turn>, i: nat, key: Key)
    requires Interleaving(states, turns) && Initial(states[0]) && i <= |turns|
    requires key in states[i].rows && Success(states[i].rows[key])
      && forall j | i <= j < |turns| :: turns[j] != Expire(key)
    ensures key in states[|turns|].rows && states[|turns|].rows[key] == states[i].rows[key]
    ensures states[i].rows[key].image.mxc == "" || states[i].rows[key].image.mxc in states[|turns|].media
    decreases |turns| - i
  {
    InvAlways(states, turns, |turns|);
    if i < |turns| {
      SuccessIsFinal(states[i], turns[i], key);
      CachedSuccessSurvives(states, turns, i + 1, key);
    }
  }

  /** Faults and expiries are never forgotten. */
  lemma {:induction false} MarksStay(states: seq<Cache>, turns: seq<Turn>, i: nat)
    requires Interleaving(states, turns) && i <= |turns|
    ensures states[i].faulted ==> states[|turns|].faulted
    ensures states[i].expired <= states[|turns|].expired
    ensures forall j, key | i <= j < |turns| && turns[j] == Expire(key) :: key in states[|turns|].expired
    decreases |turns| - i
  {
    if i < |turns| { MarksStay(states, turns, i + 1); }
  }

  /** If no call fails, every worker that answers with a preview answers with the row that
      is, and stays, in the cache, provided no row of its key expires. */
  lemma AnswersAreTheCachedRow(states: seq<Cache>, turns: seq<Turn>, i: nat, w: nat)
    requires Interleaving(states, turns) && Initial(states[0]) && i <= |turns| && !states[|turns|].faulted
    requires w in states[i].workers && states[i].workers[w].pc.Done? && states[i].workers[w].pc.answer.Some?
    requires states[i].workers[w].WriteKey() !in states[|turns|].expired
    ensures var key := states[i].workers[w].WriteKey();
      var last := states[|turns|];
      && key in last.rows && Success(last.rows[key])
      && states[i].workers[w].pc.answer == Some(last.rows[key])
  {
    InvAlways(states, turns, i);
    MarksStay(states, turns, i);
    assert WorkerExact(states[i], states[i].workers[w]);
    CachedSuccessSurvives(states, turns, i, states[i].workers[w].WriteKey());
  }

  // ----- what becomes of the images -----

  predicate InHand(k: Worker, x: string) {
    Holding(k) && k.mine == x && Uploaded(k, k.pc.result)
  }

  /** The image is cached, in a worker's hands, or that of an expired row. */
  ghost predicate Accounted(s: Cache, x: string) {
    || (exists key :: key in s.rows && s.rows[key].image.mxc == x)
    || (exists w :: w in s.workers && InHand(s.workers[w], x))
    || x in s.orphans
  }

  /** The image whose cleanup fails in this turn before it has removed anything. */
  ghost function LeftBy(s: Cache, turn: Turn): set<string> {
    if turn.Work? && turn.w in s.workers && CanDo(s.workers[turn.w], turn.e)
      && turn.e in {Settle(Nothing), Abort(Nothing)} && InHand(s.workers[turn.w], s.workers[turn.w].mine)
    then {s.workers[turn.w].mine} else {}
  }

  /** The images that failed cleanups have left behind in the first `n` turns. */
  ghost function Left(states: seq<Cache>, turns: seq<Turn>, n: nat): set<string>
    requires n <= |turns| && n <= |states|
  {
    if n == 0 then {} else Left(states, turns, n - 1) + LeftBy(states[n - 1], turns[n - 1])
  }

  ghost predicate AllAccounted(s: Cache, left: set<string>) {
    && (forall x | x in s.media :: x in left || Accounted(s, x))
    && (forall x | x in left :: x != "" && Lasting(s, x))
  }

  lemma OwnImageIsInHand(s: Cache, w: nat, left: set<string>)
    requires Inv(s) && AllAccounted(s, left) && w in s.workers && Holding(s.workers[w])
      && s.workers[w].mine in s.media
    ensures InHand(s.workers[w], s.workers[w].mine)
  {
    assert WorkerOk(s, s.workers[w]);
    assert s.workers[w].mine in left ==> Lasting(s, s.workers[w].mine);
    assert Accounted(s, s.workers[w].mine);
  }

  lemma OwnImage(s: Cache, w: nat, e: Event, left: set<string>)
    requires Inv(s) && AllAccounted(s, left) && Enabled(s, Work(w, e))
    requires s.workers[w].mine in Next(s, Work(w, e)).media
    ensures s.workers[w].mine in LeftBy(s, Work(w, e)) || Accounted(Next(s, Work(w, e)), s.workers[w].mine)
  {
    var t, k := Next(s, Work(w, e)), s.workers[w];
    assert WorkerOk(s, k) && ReadOk(s, k);
    if !k.pc.Start? { OwnImageIsInHand(s, w, left); }
    assert k.mine in LeftBy(s, Work(w, e)) || InHand(t.workers[w], k.mine)
      || (k.WriteKey() in t.rows && t.rows[k.WriteKey()].image.mxc == k.mine);
  }

  /** An image is handed from its worker to the cache, or dropped, but not forgotten. */
  lemma ImagesStayAccounted(s: Cache, w: nat, e: Event, left: set<string>)
    requires Inv(s) && AllAccounted(s, left) && Enabled(s, Work(w, e))
    ensures AllAccounted(Next(s, Work(w, e)), left + LeftBy(s, Work(w, e)))
  {
    var t, k := Next(s, Work(w, e)), s.workers[w];
    ActsAreOk(s, w, e);
    assert WorkerOk(s, k);
    forall x | x in left ensures Lasting(t, x) { LastingStays(s, w, ActOf(s, w, e), x); }
    forall x | x in LeftBy(s, Work(w, e)) ensures Lasting(t, x) { LeftIsLasting(s, w, e); }
    forall x | x in t.media && x !in left
      ensures x in LeftBy(s, Work(w, e)) || Accounted(t, x)
    {
      if x == k.mine { OwnImage(s, w, e, left); } else { OthersStayAccounted(s, w, e, x); }
    }
  }

  lemma OthersStayAccounted(s: Cache, w: nat, e: Event, x: string)
    requires Inv(s) && Enabled(s, Work(w, e)) && Accounted(s, x) && x in s.media && x != s.workers[w].mine
    ensures Accounted(Next(s, Work(w, e)), x)
  {
    var t := Next(s, Work(w, e));
    if v :| v in s.workers && InHand(s.workers[v], x) {
      assert v != w && InHand(t.workers[v], x);
    } else if key :| key in s.rows && s.rows[key].image.mxc == x {
      SuccessIsFinal(s, Work(w, e), key);
    }
  }

  lemma LeftIsLasting(s: Cache, w: nat, e: Event)
    requires Inv(s) && Enabled(s, Work(w, e)) && s.workers[w].mine in LeftBy(s, Work(w, e))
    ensures Lasting(Next(s, Work(w, e)), s.workers[w].mine)
  {
    assert WorkerOk(s, s.workers[w]);
  }

  lemma ExpiryStaysAccounted(s: Cache, key: Key, left: set<string>)
    requires Inv(s) && AllAccounted(s, left) && key in s.rows
    ensures AllAccounted(s.Expired(key), left)
  {
    var t := s.Expired(key);
    forall x | x in left ensures Lasting(t, x) { assert Lasting(s, x); }
    forall x | x in t.media && x !in left ensures Accounted(t, x) {
      assert Accounted(s, x);
      if q :| q in s.rows && s.rows[q].image.mxc == x {
        assert q != key ==> q in t.rows && t.rows[q].image.mxc == x;
      } else if w :| w in s.workers && InHand(s.workers[w], x) {
        assert InHand(t.workers[w], x);
      }
    }
  }

  lemma {:induction false} AlwaysAccounted(states: seq<Cache>, turns: seq<Turn>, n: nat)
    requires Interleaving(states, turns) && Initial(states[0]) && n <= |turns|
    ensures AllAccounted(states[n], Left(states, turns, n))
    decreases n
  {
    if n == 0 {
      forall x | x in states[0].media ensures Accounted(states[0], x) {
        var key :| key in states[0].rows && states[0].rows[key].image.mxc == x;
      }
    } else {
      AlwaysAccounted(states, turns, n - 1);
      InvAlways(states, turns, n - 1);
      match turns[n - 1]
      case Work(w, e) => ImagesStayAccounted(states[n - 1], w, e, Left(states, turns, n - 1));
      case Expire(key) => ExpiryStaysAccounted(states[n - 1], key, Left(states, turns, n - 1));
    }
  }

  lemma LeavingIsAFault(s: Cache, turn: Turn)
    requires Inv(s) && Enabled(s, turn) && LeftBy(s, turn) != {}
    ensures Next(s, turn).faulted
  {
    assert ReadOk(s, s.workers[turn.w]);
  }

  /** Without failed calls no cleanup fails. */
  lemma {:induction false} NothingIsLeft(states: seq<Cache>, turns: seq<Turn>, n: nat)
    requires Interleaving(states, turns) && Initial(states[0]) && n <= |turns| && !states[|turns|].faulted
    ensures Left(states, turns, n) == {}
    decreases n
  {
    if n > 0 {
      NothingIsLeft(states, turns, n - 1);
      InvAlways(states, turns, n - 1);
      MarksStay(states, turns, n);
      if LeftBy(states[n - 1], turns[n - 1]) != {} { LeavingIsAFault(states[n - 1], turns[n - 1]); }
    }
  }

  /** Once every worker has finished, whatever has failed, the surviving images are exactly
      those of cached and of expired rows and those whose cleanup failed at its first
      step. Without failed calls there are none of the last kind: the losers leave nothing
      behind. */
  lemma LosersLeaveNothing(states: seq<Cache>, turns: seq<Turn>, x: string)
    requires Interleaving(states, turns) && Initial(states[0])
    requires forall w | w in states[|turns|].workers :: states[|turns|].workers[w].pc.Done?
    ensures var s := states[|turns|];
      x != "" ==> (x in s.media <==> x in s.orphans || x in Left(states, turns, |turns|)
                                     || exists key :: key in s.rows && s.rows[key].image.mxc == x)
    ensures !states[|turns|].faulted ==> Left(states, turns, |turns|) == {}
  {
    InvAlways(states, turns, |turns|);
    AlwaysAccounted(states, turns, |turns|);
    if !states[|turns|].faulted { NothingIsLeft(states, turns, |turns|); }
    var s := states[|turns|];
    if x in s.media { assert x in Left(states, turns, |turns|) || Accounted(s, x); }
  }

  // ----- dead answers -----

  /** The worker has answered with an image that is not there. */
  ghost predicate Dead(s: Cache, k: Worker) {
    k.pc.Done? && k.pc.answer.Some? && k.pc.answer.value.image.mxc != "" && k.pc.answer.value.image.mxc !in s.media
  }

  /** Turn `a` is the insert with which worker `w` lost the race. */
  ghost predicate LostAt(states: seq<Cache>, turns: seq<Turn>, w: nat, a: nat) {
    && a < |turns| && a + 1 < |states| && turns[a] == Work(w, Insert(true))
    && w in states[a + 1].workers && states[a + 1].workers[w].pc.Conflicted?
  }

  /** Turn `b` is the last read of worker `w`, of a result it has uploaded an image for. */
  ghost predicate LastReadAt(states: seq<Cache>, turns: seq<Turn>, w: nat, b: nat, existing: Option<Preview>) {
    && b < |turns| && b + 1 < |states| && turns[b] in {Work(w, Get(true)), Work(w, Reread(true))}
    && w in states[b + 1].workers && states[b + 1].workers[w].pc.Settling?
       && states[b + 1].workers[w].pc.existing == existing
  }

  ghost predicate UploadedAt(states: seq<Cache>, w: nat, b: nat) {
    b + 1 < |states| && w in states[b + 1].workers && states[b + 1].workers[w].pc.Settling?
    && Uploaded(states[b + 1].workers[w], states[b + 1].workers[w].pc.result)
  }

  /** The row of the key expired between the two turns, and nobody had put one back. */
  ghost predicate ExpiredBetween(states: seq<Cache>, turns: seq<Turn>, key: Key, a: nat, b: nat)
    requires b < |states| && b <= |turns|
  {
    exists j :: a < j < b && turns[j] == Expire(key) && forall i | j < i <= b :: key !in states[i].rows
  }

  lemma {:induction false} GoneMeansExpired(states: seq<Cache>, turns: seq<Turn>, key: Key, a: nat, b: nat)
    requires Interleaving(states, turns) && a < b <= |turns| && key in states[a + 1].rows && key !in states[b].rows
    ensures ExpiredBetween(states, turns, key, a, b)
    decreases b
  {
    if key in states[b - 1].rows {
      assert turns[b - 1] == Expire(key) && a < b - 1;
    } else {
      GoneMeansExpired(states, turns, key, a, b - 1);
      var j :| a < j < b - 1 && turns[j] == Expire(key) && forall i | j < i <= b - 1 :: key !in states[i].rows;
    }
  }

  ghost predicate HasLost(states: seq<Cache>, turns: seq<Turn>, w: nat, n: nat) {
    exists a: nat :: a < n && LostAt(states, turns, w, a)
  }

  ghost predicate LostThenRead(states: seq<Cache>, turns: seq<Turn>, w: nat, a: nat, b: nat,
                               existing: Option<Preview>) {
    a < b && LostAt(states, turns, w, a) && LastReadAt(states, turns, w, b, existing)
  }

  /** The worker is as its last read, before `n`, has left it. */
  ghost predicate HasRead(states: seq<Cache>, turns: seq<Turn>, w: nat, n: nat, k: Worker) {
    && k.pc.Settling?
    && exists a: nat, b: nat ::
         LostThenRead(states, turns, w, a, b, k.pc.existing) && b < n && states[b + 1].workers[w] == k
  }

  /** The last read, before `n`, of a worker with an image of its own found no row. */
  ghost predicate FoundNothing(states: seq<Cache>, turns: seq<Turn>, w: nat, n: nat) {
    exists a: nat, b: nat :: LostThenRead(states, turns, w, a, b, None) && b < n && UploadedAt(states, w, b)
  }

  /** Where a worker that has lost the race is, seen from its past. */
  ghost predicate Traced(states: seq<Cache>, turns: seq<Turn>, w: nat, n: nat)
    requires n < |states| && w in states[n].workers
  {
    var k := states[n].workers[w];
    && (LostTheRace(k.pc) ==> HasLost(states, turns, w, n))
    && (k.pc.Settling? ==> HasRead(states, turns, w, n, k))
    && (Dead(states[n], k) ==> FoundNothing(states, turns, w, n))
  }

  lemma ThePastStays(states: seq<Cache>, turns: seq<Turn>, w: nat, n: nat, k: Worker)
    ensures HasLost(states, turns, w, n) ==> HasLost(states, turns, w, n + 1)
    ensures HasRead(states, turns, w, n, k) ==> HasRead(states, turns, w, n + 1, k)
    ensures FoundNothing(states, turns, w, n) ==> FoundNothing(states, turns, w, n + 1)
  {}

  lemma DeathIsOwnDoing(s: Cache, turn: Turn, w: nat)
    requires Inv(s) && Enabled(s, turn) && w in s.workers && (turn.Work? ==> turn.w != w)
    ensures Next(s, turn).workers[w] == s.workers[w] && (Dead(Next(s, turn), s.workers[w]) ==> Dead(s, s.workers[w]))
  {
    var t, k := Next(s, turn), s.workers[w];
    if Dead(t, k) && turn.Work? {
      ActsAreOk(s, turn.w, turn.e);
      assert ReadOk(s, k);
      if Lasting(s, k.pc.answer.value.image.mxc) {
        LastingStays(s, turn.w, ActOf(s, turn.w, turn.e), k.pc.answer.value.image.mxc);
      }
      assert s.workers[turn.w].mine != k.mine;
    }
  }

  /** Somebody else's turn. */
  lemma OthersKeepTheTrace(states: seq<Cache>, turns: seq<Turn>, w: nat, n: nat)
    requires Interleaving(states, turns) && n < |turns| && Inv(states[n]) && w in states[n].workers
      && Traced(states, turns, w, n)
    requires turns[n].Work? ==> turns[n].w != w
    ensures w in states[n + 1].workers && Traced(states, turns, w, n + 1)
  {
    DeathIsOwnDoing(states[n], turns[n], w);
    ThePastStays(states, turns, w, n, states[n].workers[w]);
  }

  /** What the worker's own turn can bring. */
  lemma OwnTurn(s: Cache, w: nat, e: Event)
    requires Inv(s) && Enabled(s, Work(w, e)) && !Next(s, Work(w, e)).faulted
    ensures var t := Next(s, Work(w, e));
      var k, k' := s.workers[w], t.workers[w];
      && (LostTheRace(k'.pc) ==> LostTheRace(k.pc) || (e == Insert(true) && k'.pc.Conflicted?))
      && (k'.pc.Settling? ==> e == Get(true) || e == Reread(true))
      && (Dead(t, k') ==> e.Settle? && k.pc.existing.None? && Uploaded(k, k.pc.result))
  {
    assert WorkerOk(s, s.workers[w]) && ReadOk(s, s.workers[w]);
    ActsAreOk(s, w, e);
    var k' := Next(s, Work(w, e)).workers[w];
    if k'.pc.Done? && k'.pc.answer.Some? && Lasting(s, k'.pc.answer.value.image.mxc) {
      LastingStays(s, w, ActOf(s, w, e), k'.pc.answer.value.image.mxc);
    }
  }

  /** The worker's own turn. */
  lemma OwnTurnIsTraced(states: seq<Cache>, turns: seq<Turn>, w: nat, n: nat, e: Event)
    requires Interleaving(states, turns) && n < |turns| && turns[n] == Work(w, e)
    requires Inv(states[n]) && w in states[n].workers && Traced(states, turns, w, n) && !states[n + 1].faulted
    ensures w in states[n + 1].workers && Traced(states, turns, w, n + 1)
  {
    OwnTurn(states[n], w, e);
    ThePastStays(states, turns, w, n, states[n].workers[w]);
    OwnReadIsTraced(states, turns, w, n, e);
    OwnDeathIsTraced(states, turns, w, n, e);
    if states[n + 1].workers[w].pc.Conflicted? { assert LostAt(states, turns, w, n); }
  }

  lemma OwnReadIsTraced(states: seq<Cache>, turns: seq<Turn>, w: nat, n: nat, e: Event)
    requires Interleaving(states, turns) && n < |turns| && turns[n] == Work(w, e)
    requires Inv(states[n]) && w in states[n].workers && Traced(states, turns, w, n) && !states[n + 1].faulted
    ensures var k := states[n + 1].workers[w]; k.pc.Settling? ==> HasRead(states, turns, w, n + 1, k)
  {
    var k := states[n + 1].workers[w];
    OwnTurn(states[n], w, e);
    if k.pc.Settling? {
      var a: nat :| a < n && LostAt(states, turns, w, a);
      assert LostThenRead(states, turns, w, a, n, k.pc.existing);
    }
  }

  lemma OwnDeathIsTraced(states: seq<Cache>, turns: seq<Turn>, w: nat, n: nat, e: Event)
    requires Interleaving(states, turns) && n < |turns| && turns[n] == Work(w, e)
    requires Inv(states[n]) && w in states[n].workers && Traced(states, turns, w, n) && !states[n + 1].faulted
    ensures Dead(states[n + 1], states[n + 1].workers[w]) ==> FoundNothing(states, turns, w, n + 1)
  {
    var k := states[n].workers[w];
    OwnTurn(states[n], w, e);
    if Dead(states[n + 1], states[n + 1].workers[w]) {
      var a: nat, b: nat :| LostThenRead(states, turns, w, a, b, k.pc.existing) && b < n
        && states[b + 1].workers[w] == k;
      assert UploadedAt(states, w, b);
    }
  }

  lemma {:induction false} AlwaysTraced(states: seq<Cache>, turns: seq<Turn>, w: nat, n: nat)
    requires Interleaving(states, turns) && Initial(states[0]) && n <= |turns| && !states[|turns|].faulted
      && w in states[0].workers
    ensures w in states[n].workers && Traced(states, turns, w, n)
    decreases n
  {
    if n > 0 {
      AlwaysTraced(states, turns, w, n - 1);
      InvAlways(states, turns, n - 1);
      MarksStay(states, turns, n);
      if turns[n - 1].Work? && turns[n - 1].w == w {
        OwnTurnIsTraced(states, turns, w, n - 1, turns[n - 1].e);
      } else {
        OthersKeepTheTrace(states, turns, w, n - 1);
      }
    }
  }

  /** About to answer with an image of its own that it will remove, or having done so. */
  ghost predicate Doomed(s: Cache, w: nat, result: Preview) {
    && w in s.workers && Uploaded(s.workers[w], result) && s.workers[w].mine != ""
    && (s.workers[w].pc == Settling(result, None)
        || (s.workers[w].pc == Done(Some(result)) && s.workers[w].mine !in s.media))
  }

  lemma DoomedStays(s: Cache, turn: Turn, w: nat, result: Preview)
    requires Inv(s) && Enabled(s, turn) && !Next(s, turn).faulted && Doomed(s, w, result)
    ensures Doomed(Next(s, turn), w, result)
  {
    if turn.Work? && turn.w != w { assert s.workers[turn.w].mine != s.workers[w].mine; }
  }

  lemma {:induction false} DoomedToTheEnd(states: seq<Cache>, turns: seq<Turn>, n: nat, w: nat, result: Preview)
    requires Interleaving(states, turns) && Initial(states[0]) && n <= |turns| && !states[|turns|].faulted
      && Doomed(states[n], w, result)
    ensures Doomed(states[|turns|], w, result)
    decreases |turns| - n
  {
    if n < |turns| {
      InvAlways(states, turns, n);
      MarksStay(states, turns, n + 1);
      DoomedStays(states[n], turns[n], w, result);
      DoomedToTheEnd(states, turns, n + 1, w, result);
    }
  }

  /** The worker lost the race, and the row of its key was gone again when it read it. */
  ghost predicate Overtaken(states: seq<Cache>, turns: seq<Turn>, w: nat, key: Key) {
    exists a: nat, b: nat, existing ::
      && LostThenRead(states, turns, w, a, b, existing) && UploadedAt(states, w, b)
      && b <= |turns| && b < |states| && ExpiredBetween(states, turns, key, a, b)
  }

  lemma DeadMeansOvertaken(states: seq<Cache>, turns: seq<Turn>, w: nat, key: Key)
    requires Interleaving(states, turns) && Initial(states[0]) && !states[|turns|].faulted
    requires w in states[|turns|].workers && key == states[|turns|].workers[w].WriteKey()
    requires Dead(states[|turns|], states[|turns|].workers[w])
    ensures Overtaken(states, turns, w, key)
  {
    InvAlways(states, turns, |turns|);
    AlwaysTraced(states, turns, w, |turns|);
    var a: nat, b: nat :| LostThenRead(states, turns, w, a, b, None) && b < |turns| && UploadedAt(states, w, b);
    KeyStays(states, turns, w, a + 1);
    KeyStays(states, turns, w, b);
    LosersFoundARow(states, turns, w, a);
    ReadsTheKey(states, turns, w, b, None);
    GoneMeansExpired(states, turns, key, a, b);
  }

  lemma OvertakenMeansDead(states: seq<Cache>, turns: seq<Turn>, w: nat, key: Key)
    requires Interleaving(states, turns) && Initial(states[0]) && !states[|turns|].faulted
    requires w in states[|turns|].workers && key == states[|turns|].workers[w].WriteKey()
    requires states[|turns|].workers[w].pc.Done? && Overtaken(states, turns, w, key)
    ensures Dead(states[|turns|], states[|turns|].workers[w])
  {
    var a: nat, b: nat, existing :| LostThenRead(states, turns, w, a, b, existing) && UploadedAt(states, w, b)
      && b <= |turns| && b < |states| && ExpiredBetween(states, turns, key, a, b);
    KeyStays(states, turns, w, b);
    ReadsTheKey(states, turns, w, b, existing);
    InvAlways(states, turns, b + 1);
    assert WorkerOk(states[b + 1], states[b + 1].workers[w]);
    DoomedToTheEnd(states, turns, b + 1, w, states[b + 1].workers[w].pc.result);
  }

  /** Expiry is the one way to hand out a dead image. In every interleaving without failed
      calls, a worker that has answered with a preview has answered with an image that
      does not exist if and only if it had uploaded one, and the row of its key expired
      between its lost insert and its last read, with nobody having put one back. */
  lemma DeadAnswerIff(states: seq<Cache>, turns: seq<Turn>, w: nat)
    requires Interleaving(states, turns) && Initial(states[0]) && !states[|turns|].faulted
    requires w in states[|turns|].workers && states[|turns|].workers[w].pc.Done?
    ensures Dead(states[|turns|], states[|turns|].workers[w]) <==>
      Overtaken(states, turns, w, states[|turns|].workers[w].WriteKey())
  {
    var k := states[|turns|].workers[w];
    if Dead(states[|turns|], k) { DeadMeansOvertaken(states, turns, w, k.WriteKey()); }
    if Overtaken(states, turns, w, k.WriteKey()) { OvertakenMeansDead(states, turns, w, k.WriteKey()); }
  }

  /** A worker keeps its key. */
  lemma {:induction false} KeyStays(states: seq<Cache>, turns: seq<Turn>, w: nat, n: nat)
    requires Interleaving(states, turns) && n <= |turns| && w in states[|turns|].workers
    ensures w in states[n].workers && states[n].workers[w].WriteKey() == states[|turns|].workers[w].WriteKey()
    decreases |turns| - n
  {
    if n < |turns| { KeyStays(states, turns, w, n + 1); }
  }

  lemma LosersFoundARow(states: seq<Cache>, turns: seq<Turn>, w: nat, a: nat)
    requires Interleaving(states, turns) && LostAt(states, turns, w, a)
    ensures states[a + 1].workers[w].WriteKey() in states[a + 1].rows
  {
    assert Enabled(states[a], turns[a]) && states[a + 1] == Next(states[a], turns[a]);
  }

  lemma ReadsTheKey(states: seq<Cache>, turns: seq<Turn>, w: nat, b: nat, existing: Option<Preview>)
    requires Interleaving(states, turns) && LastReadAt(states, turns, w, b, existing)
    ensures w in states[b].workers && (existing.None? <==> states[b].workers[w].WriteKey() !in states[b].rows)
  {
    assert Enabled(states[b], turns[b]) && states[b + 1] == Next(states[b], turns[b]);
    KeysAgree(states[b].workers[w]);
  }

  // ----- such a run -----

  lemma Go(states: seq<Cache>, turns: seq<Turn>, turn: Turn) returns (states': seq<Cache>, turns': seq<Turn>)
    requires Interleaving(states, turns) && Enabled(states[|turns|], turn)
    ensures Interleaving(states', turns') && states'[0] == states[0] && turns' == turns + [turn]
    ensures states'[|turns'|] == Next(states[|turns|], turn)
  {
    states', turns' := states + [Next(states[|turns|], turn)], turns + [turn];
  }

  /** The second of two workers has lost. */
  lemma SecondLoses(s: Cache, v: Worker, w: Worker) returns (states: seq<Cache>, turns: seq<Turn>)
    requires s.workers == map[0 := v, 1 := w] && v.pc.Start? && w.pc.Start? && v.fetch.Fetched? && w.fetch.Fetched?
    requires v.WriteKey() == w.WriteKey() && v.WriteKey() !in s.rows && !s.faulted
    ensures Interleaving(states, turns) && states[0] == s
    ensures var t := states[|turns|];
      && t.rows == s.rows[w.WriteKey() := Result(v, true)] && !t.faulted
      && 1 in t.workers && t.workers[1] == w.(pc := Conflicted(Result(w, true)))
  {
    states, turns := Go([s], [], Work(0, Upload(true)));
    states, turns := Go(states, turns, Work(0, Insert(true)));
    states, turns := Go(states, turns, Work(1, Upload(true)));
    states, turns := Go(states, turns, Work(1, Insert(true)));
  }

  lemma TooLate(s: Cache, w: Worker, key: Key)
    requires 1 in s.workers && s.workers[1] == w && w.pc.Conflicted? && key == w.WriteKey() && key in s.rows
      && !s.faulted
    requires Uploaded(w, w.pc.result) && w.mine != ""
    ensures var t := Next(s, Expire(key));
      && Enabled(t, Work(1, Get(true)))
      && var u := Next(t, Work(1, Get(true)));
         && Enabled(u, Work(1, Settle(Whole)))
         && var z := Next(u, Work(1, Settle(Whole)));
            1 in z.workers && Dead(z, z.workers[1]) && !z.faulted
  {
    KeysAgree(w);
  }

  /** It does happen: two workers race for a row, the row expires before the loser reads
      it, and the loser answers with the image it has just removed. No call fails. */
  lemma ExpiryHandsOutADeadImage(s: Cache, v: Worker, w: Worker) returns (states: seq<Cache>, turns: seq<Turn>)
    requires Initial(s) && s.workers == map[0 := v, 1 := w] && v.fetch.Fetched? && w.fetch.Fetched?
    requires v.WriteKey() == w.WriteKey() && v.WriteKey() !in s.rows
    ensures Interleaving(states, turns) && states[0] == s && !states[|turns|].faulted
    ensures 1 in states[|turns|].workers && Dead(states[|turns|], states[|turns|].workers[1])
  {
    assert s.workers[0] == v && s.workers[1] == w;
    states, turns := SecondLoses(s, v, w);
    TooLate(states[|turns|], w.(pc := Conflicted(Result(w, true))), w.WriteKey());
    states, turns := Go(states, turns, Expire(w.WriteKey()));
    states, turns := Go(states, turns, Work(1, Get(true)));
    states, turns := Go(states, turns, Work(1, Settle(Whole)));
  }
}
