/** Waiting for an upload on another request (notifier/uploads.go). Channels have room
    for one record, and notifying sends while holding the mutex: a full or closed
    channel in the list would block or crash the whole process. */
module Notifier {
  import opened Wrappers
  import opened Repository

  /** `got` is what the waiter has taken out of the channel so far. */
  datatype Channel = Channel(buffer: seq<Media>, open: bool, got: seq<Media>)

  datatype Hub = Hub(waiters: map<string, seq<nat>>, channels: map<nat, Channel>)

  function ListOf(h: Hub, mxc: string): seq<nat> {
    if mxc in h.waiters then h.waiters[mxc] else []
  }

  // ----- the operations as functions -----

  function Registered(h: Hub, mxc: string, ch: nat): Hub {
    Hub(h.waiters[mxc := ListOf(h, mxc) + [ch]], h.channels[ch := Channel([], true, [])])
  }

  function Without(list: seq<nat>, ch: nat): seq<nat> {
    if list == [] then []
    else
      var rest, last := Without(list[..|list| - 1], ch), list[|list| - 1];
      if last == ch then rest else rest + [last]
  }

  function Finished(h: Hub, mxc: string, ch: nat): Hub
    requires ch in h.channels
  {
    Hub(if mxc in h.waiters then h.waiters[mxc := Without(h.waiters[mxc], ch)] else h.waiters,
        h.channels[ch := h.channels[ch].(open := false)])
  }

  function Sent(c: Channel, record: Media): Channel {
    c.(buffer := c.buffer + [record])
  }

  function Notified(h: Hub, record: Media): Hub {
    var mxc := MxcUri(record.mxc);
    Hub(h.waiters - {mxc},
        map ch | ch in h.channels :: if ch in ListOf(h, mxc) then Sent(h.channels[ch], record) else h.channels[ch])
  }

  function Received(h: Hub, ch: nat): Hub
    requires ch in h.channels
  {
    var c := h.channels[ch];
    if c.buffer == [] then h
    else h.(channels := h.channels[ch := Channel(c.buffer[1..], c.open, c.got + [c.buffer[0]])])
  }

  // ----- what every operation keeps -----

  /** Sending on every listed channel can proceed at once: each is open and empty, and
      no channel is listed twice. */
  ghost predicate Ready(h: Hub) {
    && (forall mxc, i | mxc in h.waiters && 0 <= i < |h.waiters[mxc]| :: Sendable(h, h.waiters[mxc][i]))
    && (forall mxc, i, mxc', j | mxc in h.waiters && mxc' in h.waiters && 0 <= i < |h.waiters[mxc]|
        && 0 <= j < |h.waiters[mxc']|
          && h.waiters[mxc][i] == h.waiters[mxc'][j] :: mxc == mxc' && i == j)
  }

  ghost predicate Sendable(h: Hub, ch: nat) {
    ch in h.channels && h.channels[ch].open && h.channels[ch].buffer == [] && h.channels[ch].got == []
  }

  lemma {:induction false} WithoutKeepsTheRest(list: seq<nat>, ch: nat)
    ensures forall c :: c in Without(list, ch) <==> c in list && c != ch
    ensures NoRepeats(list) ==> NoRepeats(Without(list, ch))
  {
    if list != [] {
      var init, last := list[..|list| - 1], list[|list| - 1];
      WithoutKeepsTheRest(init, ch);
      assert list == init + [last];
      if NoRepeats(list) {
        assert NoRepeats(init);
        assert last !in init;
        assert last !in Without(init, ch);
      }
    }
  }

  /** Taking a channel out of a list is done entry by entry: the others keep their order. */
  lemma {:induction false} WithoutInOrder(front: seq<nat>, back: seq<nat>, ch: nat)
    ensures Without(front + back, ch) == Without(front, ch) + Without(back, ch)
  {
    if back == [] {
      assert front + back == front;
    } else {
      var all, n := front + back, |back| - 1;
      WithoutInOrder(front, back[..n], ch);
      assert all[..|all| - 1] == front + back[..n] && all[|all| - 1] == back[n];
    }
  }

  lemma WithoutOne(c: nat, ch: nat)
    ensures Without([c], ch) == if c == ch then [] else [c]
  {
    assert [c][..0] == [] && Without([c][..0], ch) == [];
  }

  lemma RegisterKeepsReady(h: Hub, mxc: string, ch: nat)
    requires Ready(h) && ch !in h.channels
    ensures Ready(Registered(h, mxc, ch))
  {
    var t := Registered(h, mxc, ch);
    forall m, i | m in t.waiters && 0 <= i < |t.waiters[m]|
      ensures Sendable(t, t.waiters[m][i])
      ensures (m == mxc && i == |t.waiters[m]| - 1) <==> t.waiters[m][i] == ch
      ensures t.waiters[m][i] != ch ==> m in h.waiters && i < |h.waiters[m]| && h.waiters[m][i] == t.waiters[m][i]
    {
      if m != mxc || i < |ListOf(h, mxc)| { assert Sendable(h, h.waiters[m][i]); }
    }
  }

  /** The list a finish leaves is a sub-list of the old one. */
  lemma FinishKeepsReady(h: Hub, mxc: string, ch: nat)
    requires Ready(h) && ch in h.channels
    requires forall m | m in h.waiters && ch in h.waiters[m] :: m == mxc
    ensures Ready(Finished(h, mxc, ch))
  {
    var t := Finished(h, mxc, ch);
    if mxc in h.waiters {
      assert NoRepeats(h.waiters[mxc]);
      WithoutKeepsTheRest(h.waiters[mxc], ch);
    }
    forall m, i | m in t.waiters && 0 <= i < |t.waiters[m]|
      ensures t.waiters[m][i] in h.waiters[m] && t.waiters[m][i] != ch
      ensures Sendable(t, t.waiters[m][i])
    {
      var c := t.waiters[m][i];
      assert c in t.waiters[m];
      var k :| 0 <= k < |h.waiters[m]| && h.waiters[m][k] == c;
      assert Sendable(h, h.waiters[m][k]);
    }
    forall m, i, n, j | m in t.waiters && n in t.waiters && 0 <= i < |t.waiters[m]| && 0 <= j < |t.waiters[n]|
      && t.waiters[m][i] == t.waiters[n][j]
      ensures m == n && i == j
    {
      var c := t.waiters[m][i];
      assert c in h.waiters[m] && c in h.waiters[n];
    }
  }

  lemma NotifyKeepsReady(h: Hub, record: Media)
    requires Ready(h)
    ensures Ready(Notified(h, record))
    ensures forall c | c in ListOf(h, MxcUri(record.mxc)) :: Sendable(h, c)
  {
    var mxc, t := MxcUri(record.mxc), Notified(h, record);
    forall m, i | m in t.waiters && 0 <= i < |t.waiters[m]|
      ensures Sendable(t, t.waiters[m][i])
    {
      assert Sendable(h, h.waiters[m][i]);
      assert h.waiters[m][i] !in ListOf(h, mxc);
    }
  }

  lemma ReceiveKeepsReady(h: Hub, ch: nat)
    requires Ready(h) && ch in h.channels
    ensures Ready(Received(h, ch))
  {
    var t := Received(h, ch);
    forall m, i | m in t.waiters && 0 <= i < |t.waiters[m]|
      ensures Sendable(t, t.waiters[m][i])
    {
      assert Sendable(h, h.waiters[m][i]);
    }
  }

  // ----- the shared object; every method runs under the mutex -----

  class WaitList {
    var waiters: map<string, seq<nat>>
    var channels: map<nat, Channel>
    var nextChannel: nat

    ghost function State(): Hub
      reads this
    {
      Hub(waiters, channels)
    }

    ghost predicate Valid()
      reads this
    {
      Ready(State()) && forall ch | ch in channels :: ch < nextChannel
    }

    constructor ()
      ensures Valid() && State() == Hub(map[], map[])
    {
      waiters, channels, nextChannel := map[], map[], 0;
    }

    method GetUploadWaitChannel(x: Mxc) returns (ch: nat)
      requires Valid()
      modifies this
      ensures Valid() && ch !in old(channels) && State() == Registered(old(State()), MxcUri(x), ch)
    {
      var mxc := MxcUri(x);
      ch := nextChannel;
      RegisterKeepsReady(State(), mxc, ch);
      if mxc !in waiters { waiters := waiters[mxc := []]; }
      nextChannel := nextChannel + 1;
      channels := channels[ch := Channel([], true, [])];
      waiters := waiters[mxc := waiters[mxc] + [ch]];
    }

    /** Called once for each channel: closing it again would crash. */
    method Finish(x: Mxc, ch: nat)
      requires Valid() && ch in channels && channels[ch].open
      requires forall m | m in waiters && ch in waiters[m] :: m == MxcUri(x)
      modifies this
      ensures Valid() && State() == Finished(old(State()), MxcUri(x), ch)
    {
      var mxc := MxcUri(x);
      FinishKeepsReady(State(), mxc, ch);
      if mxc in waiters {
        var list, rest := waiters[mxc], [];
        for i := 0 to |list|
          invariant rest == Without(list[..i], ch)
        {
          assert list[..i + 1][..i] == list[..i];
          if list[i] != ch { rest := rest + [list[i]]; }
        }
        assert list[..|list|] == list;
        waiters := waiters[mxc := rest];
      }
      channels := channels[ch := channels[ch].(open := false)];
    }

    /** The asserted condition is what keeps the send from blocking or crashing. */
    method NotifyUpload(record: Media)
      requires Valid()
      modifies this
      ensures Valid() && State() == Notified(old(State()), record)
    {
      var mxc := MxcUri(record.mxc);
      ghost var h := State();
      NotifyKeepsReady(h, record);
      if mxc !in waiters {
        assert Notified(h, record).channels == channels && waiters - {mxc} == waiters;
        return;
      }
      var list := waiters[mxc];
      for i := 0 to |list|
        invariant waiters == h.waiters && nextChannel == old(nextChannel) && channels.Keys == h.channels.Keys
        invariant forall c | c in channels ::
          channels[c] == if c in list[..i] then Sent(h.channels[c], record) else h.channels[c]
      {
        var ch := list[i];
        assert ch in ListOf(h, mxc) && Sendable(h, ch);
        assert ch !in list[..i];
        assert channels[ch].open && |channels[ch].buffer| < 1;
        assert list[..i + 1] == list[..i] + [ch];
        channels := channels[ch := Sent(channels[ch], record)];
      }
      assert list[..|list|] == list;
      waiters := waiters - {mxc};
      assert channels == Notified(h, record).channels;
    }

    /** The waiter takes a record out, if there is one; no lock is needed for this. */
    method Receive(ch: nat) returns (r: Option<Media>)
      requires Valid() && ch in channels
      modifies this
      ensures Valid() && State() == Received(old(State()), ch)
      ensures r == if old(channels[ch].buffer) == [] then None else Some(old(channels[ch].buffer[0]))
    {
      ReceiveKeepsReady(State(), ch);
      var c := channels[ch];
      if c.buffer == [] { return None; }
      channels := channels[ch := Channel(c.buffer[1..], c.open, c.got + [c.buffer[0]])];
      r := Some(c.buffer[0]);
    }
  }

  // ----- whole histories -----

  datatype Event =
    | Register(mxc: string, ch: nat)
    | Notify(record: Media)
    | Finish(mxc: string, ch: nat)
    | Receive(ch: nat)

  /** Channels are new, and each finish function is called at most once, for the
      channel and MXC it was made for. */
  ghost predicate LegalRun(events: seq<Event>) {
    forall i | 0 <= i < |events| :: LegalNext(events[..i], events[i])
  }

  ghost predicate LegalNext(past: seq<Event>, e: Event) {
    match e
    case Register(_, ch) => !Known(past, ch)
    case Notify(_) => true
    case Finish(mxc, ch) => Register(mxc, ch) in past && !Closed(past, ch)
    case Receive(ch) => Known(past, ch)
  }

  ghost predicate Known(past: seq<Event>, ch: nat) {
    exists e :: e in past && e.Register? && e.ch == ch
  }

  ghost predicate Closed(past: seq<Event>, ch: nat) {
    exists e :: e in past && e.Finish? && e.ch == ch
  }

  function Apply(h: Hub, e: Event): Hub {
    match e
    case Register(mxc, ch) => Registered(h, mxc, ch)
    case Notify(record) => Notified(h, record)
    case Finish(mxc, ch) => if ch in h.channels then Finished(h, mxc, ch) else h
    case Receive(ch) => if ch in h.channels then Received(h, ch) else h
  }

  function Run(events: seq<Event>): Hub {
    if events == [] then Hub(map[], map[]) else Apply(Run(events[..|events| - 1]), events[|events| - 1])
  }

  // ----- the reference: who is owed what, read off the history alone -----

  /** Event `k` takes the waiter registered at `i` off the list. */
  predicate Ends(events: seq<Event>, i: nat, k: nat)
    requires i < |events| && events[i].Register? && k < |events|
  {
    match events[k]
    case Notify(record) => MxcUri(record.mxc) == events[i].mxc
    case Finish(_, ch) => ch == events[i].ch
    case _ => false
  }

  ghost predicate Pending(events: seq<Event>, i: nat)
    requires i < |events| && events[i].Register?
  {
    forall k | i < k < |events| :: !Ends(events, i, k)
  }

  /** Event `j` is the first notification for the waiter's MXC, and the waiter had not
      finished before it. */
  ghost predicate Served(events: seq<Event>, i: nat, j: nat)
    requires i < |events| && events[i].Register?
  {
    i < j < |events| && events[j].Notify? && Ends(events, i, j) && forall k | i < k < j :: !Ends(events, i, k)
  }

  function Delivered(c: Channel): seq<Media> {
    c.got + c.buffer
  }

  ghost predicate Tells(events: seq<Event>, i: nat, h: Hub)
    requires i < |events| && events[i].Register?
  {
    var ch := events[i].ch;
    && ch in h.channels
    && (h.channels[ch].open <==> !Closed(events, ch))
    && (forall m :: ch in ListOf(h, m) <==> m == events[i].mxc && Pending(events, i))
    && (forall j: nat | Served(events, i, j) :: Delivered(h.channels[ch]) == [events[j].record])
    && ((forall j: nat :: !Served(events, i, j)) ==> Delivered(h.channels[ch]) == [])
  }

  lemma LegalPrefix(events: seq<Event>, n: nat)
    requires LegalRun(events) && n <= |events|
    ensures LegalRun(events[..n])
  {
    forall i | 0 <= i < n ensures LegalNext(events[..n][..i], events[..n][i]) {
      assert events[..n][..i] == events[..i];
    }
  }

  // ----- one more event -----

  lemma RunSnoc(past: seq<Event>, e: Event)
    ensures Run(past + [e]) == Apply(Run(past), e)
  {
    assert (past + [e])[..|past|] == past;
  }

  lemma HistorySnoc(past: seq<Event>, e: Event, i: nat)
    requires i < |past| && past[i].Register?
    ensures var events := past + [e];
      && (Pending(events, i) <==> Pending(past, i) && !Ends(events, i, |past|))
      && (forall j: nat | j < |past| :: Served(events, i, j) <==> Served(past, i, j))
      && (Served(events, i, |past|) <==> Pending(past, i) && e.Notify? && Ends(events, i, |past|))
      && (Closed(events, past[i].ch) <==> Closed(past, past[i].ch) || (e.Finish? && e.ch == past[i].ch))
  {
    var events := past + [e];
    assert forall k | i < k < |past| :: Ends(events, i, k) <==> Ends(past, i, k);
    assert forall x :: x in events <==> x in past || x == e;
  }

  /** How one event changes the lists and the channel of a known waiter. */
  lemma ApplyToWaiter(h: Hub, e: Event, ch: nat)
    requires ch in h.channels && (e.Register? ==> e.ch != ch)
    ensures var t := Apply(h, e);
      && ch in t.channels
      && (forall m :: ch in ListOf(t, m) <==>
            ch in ListOf(h, m) && !(e.Notify? && MxcUri(e.record.mxc) == m) && !(e.Finish? && e.ch == ch && e.mxc == m))
      && (t.channels[ch].open <==> h.channels[ch].open && !(e.Finish? && e.ch == ch))
      && Delivered(t.channels[ch]) ==
         Delivered(h.channels[ch]) + if e.Notify? && ch in ListOf(h, MxcUri(e.record.mxc)) then [e.record] else []
  {
    var t := Apply(h, e);
    match e
    case Register(mxc, c) => assert forall m :: ch in ListOf(t, m) <==> ch in ListOf(h, m);
    case Notify(record) =>
    case Finish(mxc, c) => if mxc in h.waiters { WithoutKeepsTheRest(h.waiters[mxc], c); }
    case Receive(c) =>
  }

  ghost predicate KnowsChannels(past: seq<Event>, h: Hub) {
    forall ch :: ch in h.channels <==> Known(past, ch)
  }

  lemma OldWaiterIsServed(past: seq<Event>, e: Event, i: nat, h: Hub)
    requires i < |past| && past[i].Register? && Tells(past, i, h) && (e.Register? ==> e.ch != past[i].ch)
    ensures var ch, events := past[i].ch, past + [e];
      && ch in Apply(h, e).channels
      && (forall j: nat | Served(events, i, j) :: Delivered(Apply(h, e).channels[ch]) == [events[j].record])
      && ((forall j: nat :: !Served(events, i, j)) ==> Delivered(Apply(h, e).channels[ch]) == [])
  {
    var ch, events, t := past[i].ch, past + [e], Apply(h, e);
    HistorySnoc(past, e, i);
    ApplyToWaiter(h, e, ch);
    assert events[i] == past[i] && events[|past|] == e;
    if Served(events, i, |past|) {
      assert forall j: nat :: !Served(past, i, j);
      assert ch in ListOf(h, MxcUri(e.record.mxc));
    } else {
      assert e.Notify? ==> ch !in ListOf(h, MxcUri(e.record.mxc));
      assert Delivered(t.channels[ch]) == Delivered(h.channels[ch]);
      assert forall j: nat | Served(events, i, j) :: Served(past, i, j) && events[j] == past[j];
      assert forall j: nat | Served(past, i, j) :: Served(events, i, j);
    }
  }

  lemma OldWaiter(past: seq<Event>, e: Event, i: nat, h: Hub)
    requires i < |past| && past[i].Register? && Tells(past, i, h) && LegalNext(past, e)
    requires e.Finish? && e.ch == past[i].ch ==> e.mxc == past[i].mxc
    ensures Tells(past + [e], i, Apply(h, e))
  {
    var events := past + [e];
    assert past[i] in past && events[i] == past[i];
    HistorySnoc(past, e, i);
    ApplyToWaiter(h, e, past[i].ch);
    OldWaiterIsServed(past, e, i, h);
  }

  lemma NewWaiter(past: seq<Event>, e: Event, h: Hub)
    requires e.Register? && Ready(h) && e.ch !in h.channels && !Closed(past, e.ch)
    ensures Tells(past + [e], |past|, Apply(h, e))
  {
    var ch := e.ch;
    forall m ensures ch !in ListOf(h, m) {
      assert forall k | 0 <= k < |ListOf(h, m)| :: Sendable(h, ListOf(h, m)[k]);
    }
    assert forall x | x in past + [e] && x.Finish? :: x in past;
    assert forall m :: ch in ListOf(Apply(h, e), m) <==> m == e.mxc;
  }

  lemma LastKeepsReady(past: seq<Event>, e: Event, h: Hub)
    requires Ready(h) && KnowsChannels(past, h) && LegalNext(past, e)
    requires forall i | 0 <= i < |past| && past[i].Register? :: Tells(past, i, h)
    ensures Ready(Apply(h, e))
  {
    match e
    case Register(mxc, ch) => RegisterKeepsReady(h, mxc, ch);
    case Notify(record) => NotifyKeepsReady(h, record);
    case Receive(ch) => ReceiveKeepsReady(h, ch);
    case Finish(mxc, ch) =>
      var i :| 0 <= i < |past| && past[i] == Register(mxc, ch);
      assert Tells(past, i, h);
      forall m | m in h.waiters && ch in h.waiters[m] ensures m == mxc { assert ch in ListOf(h, m); }
      FinishKeepsReady(h, mxc, ch);
  }

  lemma ClosedWasKnown(past: seq<Event>, ch: nat)
    requires LegalRun(past) && Closed(past, ch)
    ensures Known(past, ch)
  {
    var e :| e in past && e.Finish? && e.ch == ch;
    var k :| 0 <= k < |past| && past[k] == e;
    assert LegalNext(past[..k], e);
    assert Register(e.mxc, ch) in past[..k];
    assert Register(e.mxc, ch) in past;
  }

  lemma OneRegistration(past: seq<Event>, i: nat, x: Event)
    requires LegalRun(past) && i < |past| && past[i].Register? && x in past && x.Register? && x.ch == past[i].ch
    ensures x == past[i]
  {
    assert forall a, b | 0 <= a < b < |past| :: past[a] in past[..b];
    var k :| 0 <= k < |past| && past[k] == x;
    assert LegalNext(past[..k], past[k]) && LegalNext(past[..i], past[i]);
  }

  lemma {:induction false} History(events: seq<Event>)
    requires LegalRun(events)
    ensures Ready(Run(events)) && KnowsChannels(events, Run(events))
    ensures forall i | 0 <= i < |events| && events[i].Register? :: Tells(events, i, Run(events))
  {
    if events != [] {
      var n := |events| - 1;
      var past, e := events[..n], events[n];
      assert events == past + [e];
      LegalPrefix(events, n);
      History(past);
      var h := Run(past);
      RunSnoc(past, e);
      assert LegalNext(past, e);
      LastKeepsReady(past, e, h);
      ChannelsStayKnown(past, e, h);
      forall i | 0 <= i < |events| && events[i].Register? ensures Tells(events, i, Run(events)) {
        if i < n {
          if e.Finish? && e.ch == past[i].ch { OneRegistration(past, i, Register(e.mxc, e.ch)); }
          OldWaiter(past, e, i, h);
        } else {
          if Closed(past, e.ch) { ClosedWasKnown(past, e.ch); }
          NewWaiter(past, e, h);
        }
      }
    }
  }

  lemma ChannelsStayKnown(past: seq<Event>, e: Event, h: Hub)
    requires KnowsChannels(past, h) && LegalNext(past, e)
    ensures KnowsChannels(past + [e], Apply(h, e))
  {
    assert forall x :: x in past + [e] <==> x in past || x == e;
    forall ch ensures Known(past + [e], ch) <==> Known(past, ch) || (e.Register? && e.ch == ch) {}
    if e.Finish? { assert Known(past, e.ch); }
  }

  /** Over every legal history: each waiter gets at most one record, always one for its
      own MXC, and gets it exactly if a notification for that MXC comes before its
      finish; every channel still listed can be sent to without waiting. */
  lemma WaitersGetWhatTheyAreOwed(events: seq<Event>, i: nat)
    requires LegalRun(events) && i < |events| && events[i].Register?
    ensures var h, ch := Run(events), events[i].ch;
      && Ready(h)
      && ch in h.channels
      && |Delivered(h.channels[ch])| <= 1
      && (forall r | r in Delivered(h.channels[ch]) :: MxcUri(r.mxc) == events[i].mxc)
      && (forall j: nat | Served(events, i, j) :: Delivered(h.channels[ch]) == [events[j].record])
      && (Delivered(h.channels[ch]) != [] ==> exists j: nat :: Served(events, i, j))
  {
    History(events);
    assert Tells(events, i, Run(events));
  }
}
