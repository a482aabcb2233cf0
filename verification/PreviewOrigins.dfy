/** What the preview cache holds and what its workers answer with, traced back to the
    pages that were fetched (pipelines/_steps/url_preview/process.go). */
module PreviewOrigins {
  import opened Wrappers
  import opened PreviewCache

  /** The hour of a timestamp, rounded towards zero. */
  lemma HourBucketIsTheHour(ts: int)
    ensures HourBucket(ts) % 3600000 == 0
    ensures ts >= 0 ==> HourBucket(ts) <= ts < HourBucket(ts) + 3600000
    ensures ts < 0 ==> HourBucket(ts) - 3600000 < ts <= HourBucket(ts)
  {
    var q := TruncDiv(ts, 3600000);
    assert q * 3600000 % 3600000 == 0;
  }

  /** The worker looks the page up and caches it under this key. */
  ghost predicate KeyedBy(k: Worker, key: Key) {
    key == Key(k.url, HourBucket(k.ts), k.language)
  }

  /** The page the worker fetched, with the image it uploaded or with none. */
  ghost predicate PageOf(k: Worker, p: Preview) {
    && k.fetch.Fetched? && p.errorCode == "" && p.site == k.fetch.site
    && var i := k.fetch.image;
       p.image in {Image(k.mine, i.contentType, i.size, i.width, i.height), Image("", "", 0, 0, 0)}
  }

  /** What a worker whose page cannot be had leaves behind: its code, and nothing else. */
  ghost predicate RefusalOf(k: Worker, p: Preview) {
    && k.fetch.Broken? && k.fetch.code != ""
    && p == Preview(k.fetch.code, Site("", "", "", "", ""), Image("", "", 0, 0, 0))
  }

  ghost predicate FromWorker(start: Cache, key: Key, p: Preview) {
    exists w :: w in start.workers && KeyedBy(start.workers[w], key)
      && (PageOf(start.workers[w], p) || RefusalOf(start.workers[w], p))
  }

  /** The row was there at the start, or a worker of its key has made it. */
  ghost predicate Known(start: Cache, key: Key, p: Preview) {
    (key in start.rows && start.rows[key] == p) || FromWorker(start, key, p)
  }

  ghost predicate Answerable(start: Cache, k: Worker, p: Preview) {
    PageOf(k, p) || Known(start, k.WriteKey(), p)
  }

  ghost predicate Traceable(start: Cache, k: Worker) {
    && (Holding(k) ==> PageOf(k, k.pc.result))
    && (k.pc.Settling? && k.pc.existing.Some? ==> Known(start, k.WriteKey(), k.pc.existing.value))
    && (k.pc.Done? ==>
          if k.fetch.Broken? then k.pc.answer.None? else k.pc.answer.Some? && Answerable(start, k, k.pc.answer.value))
  }

  ghost predicate Traced(start: Cache, s: Cache) {
    && s.workers.Keys == start.workers.Keys
    && (forall w | w in s.workers ::
          s.workers[w] == start.workers[w].(pc := s.workers[w].pc) && Traceable(start, s.workers[w]))
    && (forall key | key in s.rows :: Known(start, key, s.rows[key]))
  }

  lemma OwnStep(start: Cache, s: Cache, w: nat, e: Event)
    requires Traced(start, s) && Enabled(s, Work(w, e))
    ensures Traceable(start, s.workers[w].(pc := ActOf(s, w, e).pc))
  {
    var k := s.workers[w];
    KeysAgree(k);
    assert Traceable(start, k);
  }

  /** What the step writes is the worker's own. */
  lemma OwnWrite(start: Cache, s: Cache, w: nat, e: Event)
    requires Traced(start, s) && Enabled(s, Work(w, e)) && ActOf(s, w, e).write.Some?
    ensures PageOf(s.workers[w], ActOf(s, w, e).write.value) || RefusalOf(s.workers[w], ActOf(s, w, e).write.value)
  {
    assert Traceable(start, s.workers[w]);
  }

  lemma TraceStep(start: Cache, s: Cache, turn: Turn)
    requires Traced(start, s) && Enabled(s, turn)
    ensures Traced(start, Next(s, turn))
  {
    if turn.Work? {
      var w, k := turn.w, s.workers[turn.w];
      var act, t := ActOf(s, w, turn.e), Next(s, turn);
      OwnStep(start, s, w, turn.e);
      if act.write.Some? {
        OwnWrite(start, s, w, turn.e);
        assert KeyedBy(start.workers[w], k.WriteKey());
        assert PageOf(start.workers[w], act.write.value) || RefusalOf(start.workers[w], act.write.value);
        assert FromWorker(start, k.WriteKey(), act.write.value);
      }
      forall key | key in t.rows ensures Known(start, key, t.rows[key]) {
        if !(act.write.Some? && key == k.WriteKey()) { assert key in s.rows && t.rows[key] == s.rows[key]; }
      }
    }
  }

  lemma {:induction false} AlwaysTraced(states: seq<Cache>, turns: seq<Turn>, i: nat)
    requires Interleaving(states, turns) && Initial(states[0]) && i <= |turns|
    ensures Traced(states[0], states[i])
    decreases i
  {
    if i > 0 {
      AlwaysTraced(states, turns, i - 1);
      TraceStep(states[0], states[i - 1], turns[i - 1]);
    }
  }

  /** In every interleaving, whatever fails or expires, a cached success was there at the
      start or is the page some worker of the key fetched, with that worker's image or
      none; and a cached error was there at the start or is the code with which a worker
      of the key was refused, with nothing else. */
  lemma CachedRowsHaveAnOrigin(states: seq<Cache>, turns: seq<Turn>, i: nat, key: Key)
    requires Interleaving(states, turns) && Initial(states[0]) && i <= |turns| && key in states[i].rows
    ensures var start, row := states[0], states[i].rows[key];
      || (key in start.rows && start.rows[key] == row)
      || (exists w :: w in start.workers && KeyedBy(start.workers[w], key)
            && if row.errorCode == "" then PageOf(start.workers[w], row) else RefusalOf(start.workers[w], row))
  {
    AlwaysTraced(states, turns, i);
    assert Known(states[0], key, states[i].rows[key]);
  }

  /** A worker that could not fetch its page answers with nothing. One that could answers
      with its own page or with a row of its key, as it was there at the start or as a
      worker of the key has made it. */
  lemma AnswersHaveAnOrigin(states: seq<Cache>, turns: seq<Turn>, i: nat, w: nat)
    requires Interleaving(states, turns) && Initial(states[0]) && i <= |turns| && w in states[0].workers
    requires w in states[i].workers && states[i].workers[w].pc.Done?
    ensures var k, answer := states[0].workers[w], states[i].workers[w].pc.answer;
      var key := Key(k.url, HourBucket(k.ts), k.language);
      if k.fetch.Broken? then answer == None
      else answer.Some? && (PageOf(k, answer.value) || Known(states[0], key, answer.value))
  {
    AlwaysTraced(states, turns, i);
    assert Traceable(states[0], states[i].workers[w]);
  }

  /** If no call fails, no row of the key expires and none was there at the start, a worker
      that fetched the page answers with its own page when all the others of its key have
      been refused, whichever of them came first. */
  lemma OnlyFetcherAnswersWithItsPage(states: seq<Cache>, turns: seq<Turn>, w: nat)
    requires Interleaving(states, turns) && Initial(states[0]) && !states[|turns|].faulted
    requires w in states[|turns|].workers && w in states[0].workers && states[|turns|].workers[w].pc.Done?
    requires states[0].workers[w].fetch.Fetched?
    requires var k := states[0].workers[w];
      var key := Key(k.url, HourBucket(k.ts), k.language);
      && key !in states[|turns|].expired
      && (key in states[0].rows ==> states[0].rows[key].errorCode != "")
      && (forall v | v in states[0].workers && KeyedBy(states[0].workers[v], key) ::
            v == w || states[0].workers[v].fetch.Broken?)
    ensures states[|turns|].workers[w].pc.answer.Some?
      && PageOf(states[0].workers[w], states[|turns|].workers[w].pc.answer.value)
  {
    AlwaysTraced(states, turns, |turns|);
    assert Traceable(states[0], states[|turns|].workers[w]);
    AnswersAreTheCachedRow(states, turns, |turns|, w);
    CachedRowsHaveAnOrigin(states, turns, |turns|, states[0].workers[w].WriteKey());
  }

  /** Having lost the race, a worker sets out to replace the cached row only if that is an
      error; otherwise it settles for what it has read. */
  lemma OnlyErrorsAreUpgraded(s: Cache, w: nat)
    requires Inv(s) && Enabled(s, Work(w, Get(true)))
    ensures var k, t := s.workers[w], Next(s, Work(w, Get(true)));
      var key := Key(k.url, HourBucket(k.ts), k.language);
      && t.rows == s.rows && t.media == s.media && t.faulted == s.faulted
      && t.workers[w].pc ==
         if key !in s.rows then Settling(k.pc.result, None)
         else if s.rows[key].errorCode == "" then Settling(k.pc.result, Some(s.rows[key]))
         else Upgrading(k.pc.result)
  {
    KeysAgree(s.workers[w]);
  }

  // ----- when rows change -----

  lemma WritesAre(s: Cache, w: nat, e: Event)
    requires Inv(s) && Enabled(s, Work(w, e)) && ActOf(s, w, e).write.Some?
    ensures var key, row := s.workers[w].WriteKey(), ActOf(s, w, e).write.value;
      if key in s.rows then e == Update(true) && s.rows[key].errorCode != "" && row.errorCode == ""
      else e in {Insert(true), Refuse(true)}
  {
    assert WorkerOk(s, s.workers[w]);
  }

  /** A row is added by the insert of a page or by a refusal, and only under a free key; it
      is changed only by the upgrade of an error to a page; and only expiry removes it. */
  lemma RowsChangeOnlySo(s: Cache, turn: Turn, key: Key)
    requires Inv(s) && Enabled(s, turn)
    ensures var t := Next(s, turn);
      && (key !in s.rows && key in t.rows ==>
            turn.Work? && turn.e in {Insert(true), Refuse(true)} && KeyedBy(s.workers[turn.w], key))
      && (key in s.rows && key !in t.rows ==> turn == Expire(key))
      && (key in s.rows && key in t.rows && s.rows[key] != t.rows[key] ==>
            && turn.Work? && turn.e == Update(true) && KeyedBy(s.workers[turn.w], key)
            && s.rows[key].errorCode != "" && t.rows[key].errorCode == "")
  {
    if turn.Work? && ActOf(s, turn.w, turn.e).write.Some? { WritesAre(s, turn.w, turn.e); }
  }

  /** Once a worker has been refused without a failed call, its key is taken: by its code,
      or by what was there before. */
  lemma RefusalsAreCached(s: Cache, w: nat)
    requires Enabled(s, Work(w, Refuse(true)))
    ensures var k, t := s.workers[w], Next(s, Work(w, Refuse(true)));
      var key := Key(k.url, HourBucket(k.ts), k.language);
      && t.workers[w].pc == Done(None) && t.media == s.media && t.faulted == s.faulted
      && t.rows == if key in s.rows then s.rows
                   else s.rows[key := Preview(k.fetch.code, Site("", "", "", "", ""), Image("", "", 0, 0, 0))]
  {
    assert s.Read(s.workers[w].WriteKey()).None? <==> s.workers[w].WriteKey() !in s.rows;
  }

  /** The key of a worker that could not fetch its page does not stay free. */
  lemma {:induction false} RefusedKeysAreTaken(states: seq<Cache>, turns: seq<Turn>, i: nat, w: nat)
    requires Interleaving(states, turns) && Initial(states[0]) && i <= |turns| && !states[|turns|].faulted
    requires w in states[0].workers && states[0].workers[w].fetch.Broken?
    requires w in states[i].workers && states[i].workers[w].pc.Done?
    requires states[i].workers[w].WriteKey() !in states[i].expired
    ensures states[i].workers[w].WriteKey() in states[i].rows
    decreases i
  {
    AlwaysTraced(states, turns, i);
    if i > 0 {
      AlwaysTraced(states, turns, i - 1);
      MarksStay(states, turns, i);
      assert Enabled(states[i - 1], turns[i - 1]) && states[i] == Next(states[i - 1], turns[i - 1]);
      if states[i - 1].workers[w].pc.Done? { RefusedKeysAreTaken(states, turns, i - 1, w); }
    }
  }

  // ----- when a run counts as one with failures -----

  /** A call fails in this turn: a write or a read of the cache, or the cleanup of an image. */
  ghost predicate CallFails(s: Cache, turn: Turn) {
    turn.Work? && turn.w in s.workers && var pc := s.workers[turn.w].pc;
    || turn.e in {Refuse(false), Insert(false), Get(false), Update(false), Reread(false)}
    || (turn.e in {Settle(RowOnly), Settle(Nothing), Abort(RowOnly), Abort(Nothing)}
        && (pc.Settling? || pc.Aborting?) && pc.result.image.mxc != "")
  }

  lemma CleanupFault(s: Cache, w: nat, e: Event)
    requires Inv(s) && Enabled(s, Work(w, e)) && e.Settle?
    ensures ActOf(s, w, e).fault <==> CallFails(s, Work(w, e))
  {
    assert WorkerOk(s, s.workers[w]) && ReadOk(s, s.workers[w]);
  }

  lemma CallFault(s: Cache, w: nat, e: Event)
    requires Enabled(s, Work(w, e)) && !e.Settle? && !e.Abort?
    ensures ActOf(s, w, e).fault <==> CallFails(s, Work(w, e))
  {}

  lemma FaultStep(s: Cache, turn: Turn)
    requires Inv(s) && Exact(s) && Enabled(s, turn)
    ensures Next(s, turn).faulted <==> s.faulted || CallFails(s, turn)
  {
    if turn.Work? {
      if turn.e.Settle? {
        CleanupFault(s, turn.w, turn.e);
      } else if turn.e.Abort? {
        assert s.faulted;
      } else {
        CallFault(s, turn.w, turn.e);
      }
    }
  }

  ghost predicate HasFailed(states: seq<Cache>, turns: seq<Turn>, n: nat) {
    exists i: nat :: i < n && i < |turns| && i < |states| && CallFails(states[i], turns[i])
  }

  /** An interleaving counts as one with failures exactly if a call has failed in it. */
  lemma {:induction false} FaultedIff(states: seq<Cache>, turns: seq<Turn>, n: nat)
    requires Interleaving(states, turns) && Initial(states[0]) && n <= |turns|
    ensures states[n].faulted <==> HasFailed(states, turns, n)
    decreases n
  {
    if n > 0 {
      FaultedIff(states, turns, n - 1);
      InvAlways(states, turns, n - 1);
      FaultStep(states[n - 1], turns[n - 1]);
      if HasFailed(states, turns, n) && !HasFailed(states, turns, n - 1) {
        assert CallFails(states[n - 1], turns[n - 1]);
      }
    }
  }

  // ----- progress -----

  /** How many steps of its own a worker has left at most. */
  function StepsLeft(pc: Pc): nat {
    match pc
    case Start => 7
    case Inserting(_) => 6
    case Conflicted(_) => 5
    case Upgrading(_) => 4
    case Rereading(_) => 3
    case Settling(_, _) => 2
    case Aborting(_) => 1
    case Done(_) => 0
  }

  /** No worker is ever blocked, and each of its steps brings it nearer to an answer,
      whatever the other workers do. */
  lemma WorkersFinish(s: Cache, w: nat, e: Event)
    requires w in s.workers && (s.workers[w].fetch.Broken? ==> s.workers[w].fetch.code != "")
    ensures s.workers[w].pc.Done? <==> forall f :: !Enabled(s, Work(w, f))
    ensures Enabled(s, Work(w, e)) ==>
      StepsLeft(Next(s, Work(w, e)).workers[w].pc) < StepsLeft(s.workers[w].pc) <= 7
  {
    var k := s.workers[w];
    if !k.pc.Done? {
      var f := match k.pc
        case Start => if k.fetch.Broken? then Refuse(true) else Upload(true)
        case Inserting(_) => Insert(true)
        case Conflicted(_) => Get(true)
        case Upgrading(_) => Update(true)
        case Rereading(_) => Reread(true)
        case Settling(_, _) => Settle(Whole)
        case _ => Abort(Whole);
      assert Enabled(s, Work(w, f));
    }
  }

  // ----- after a failed call -----

  /** A worker that gives up after a failed call answers with its own page; it keeps the
      image in the answer unless it has removed it completely. */
  lemma AbortMeans(s: Cache, w: nat, cleanup: Cleanup)
    requires Inv(s) && Enabled(s, Work(w, Abort(cleanup)))
    ensures var k, t := s.workers[w], Next(s, Work(w, Abort(cleanup)));
      && t.rows == s.rows && t.workers[w].pc.Done? && t.workers[w].pc.answer.Some?
      && var answer := t.workers[w].pc.answer.value;
         && answer.site == k.pc.result.site && answer.errorCode == ""
         && answer.image == (if cleanup == Whole && k.pc.result.image.mxc != "" then Image("", "", 0, 0, 0)
                             else k.pc.result.image)
         && t.media == if cleanup == Nothing || k.pc.result.image.mxc == "" then s.media else s.media - {k.mine}
  {
    assert WorkerOk(s, s.workers[w]);
  }
}
