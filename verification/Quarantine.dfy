/** Resolving what a request names and quarantining it by content hash
    (tasks/task_runner/quarantine.go, util/identifiers.go). */
module Quarantine {
  import opened Wrappers
  import opened Repository
  import opened Text

  // ----- MXC URIs -----

  function SplitMxc(uri: string): Option<Mxc> {
    if !HasPrefix(uri, "mxc://") then None
    else
      var parts := Split(Split(uri[6..], '?')[0], '/');
      if |parts| != 2 then None else Some(Mxc(parts[0], parts[1]))
  }

  lemma CutAtQuery(rest: string)
    ensures var cut := Split(rest, '?')[0];
      '?' !in cut && (rest == cut || exists q: string :: rest == cut + "?" + q)
  {
    var parts := Split(rest, '?');
    SplitPartsAreClean(rest, '?');
    JoinSplit(rest, '?');
    assert parts[0] in parts;
    if |parts| > 1 { assert rest == parts[0] + "?" + Join(parts[1..], '?'); }
  }

  lemma PlainMxcParses(x: Mxc, rest: string, q: string)
    requires '/' !in x.origin && '?' !in x.origin && '/' !in x.mediaId && '?' !in x.mediaId
    requires rest == x.origin + "/" + x.mediaId || rest == x.origin + "/" + x.mediaId + "?" + q
    ensures Split(Split(rest, '?')[0], '/') == [x.origin, x.mediaId]
  {
    var plain := x.origin + "/" + x.mediaId;
    if rest == plain { SplitClean(plain, '?'); } else { SplitFirst(plain, q, '?'); }
    SplitFirst(x.origin, x.mediaId, '/');
    SplitClean(x.mediaId, '/');
  }

  lemma ParsedMxcIsPlain(uri: string, x: Mxc)
    requires SplitMxc(uri) == Some(x)
    ensures '/' !in x.origin && '?' !in x.origin && '/' !in x.mediaId && '?' !in x.mediaId
    ensures var plain := x.origin + "/" + x.mediaId;
      uri == "mxc://" + plain || exists q: string :: uri == "mxc://" + plain + "?" + q
  {
    var rest, plain := uri[6..], x.origin + "/" + x.mediaId;
    var cut := Split(rest, '?')[0];
    assert uri == "mxc://" + rest;
    CutAtQuery(rest);
    SplitPartsAreClean(cut, '/');
    JoinSplit(cut, '/');
    assert x.origin in Split(cut, '/') && x.mediaId in Split(cut, '/');
    assert cut == plain;
    if q: string :| rest == cut + "?" + q { assert uri == "mxc://" + plain + "?" + q; }
  }

  /** A URI names an MXC exactly if it is the printed MXC, or that and a query, with no
      slash and no question mark in either half. */
  lemma SplitMxcExact(uri: string, x: Mxc)
    ensures SplitMxc(uri) == Some(x) <==>
      && '/' !in x.origin && '?' !in x.origin && '/' !in x.mediaId && '?' !in x.mediaId
      && (uri == "mxc://" + x.origin + "/" + x.mediaId
          || exists q: string :: uri == "mxc://" + x.origin + "/" + x.mediaId + "?" + q)
  {
    var plain := x.origin + "/" + x.mediaId;
    assert "mxc://" + x.origin + "/" + x.mediaId == "mxc://" + plain;
    if SplitMxc(uri) == Some(x) { ParsedMxcIsPlain(uri, x); }
    if '/' !in x.origin && '?' !in x.origin && '/' !in x.mediaId && '?' !in x.mediaId {
      if uri == "mxc://" + plain {
        assert uri[6..] == plain;
        PlainMxcParses(x, uri[6..], "");
      } else if q: string :| uri == "mxc://" + plain + "?" + q {
        assert uri[6..] == plain + "?" + q;
        PlainMxcParses(x, uri[6..], q);
      }
    }
  }

  /** Parsing a printed MXC gives it back exactly when neither half contains '/' or
      '?'. */
  lemma SplitMxcInverts(x: Mxc)
    ensures SplitMxc(MxcUri(x)) == Some(x) <==>
      '/' !in x.origin && '?' !in x.origin && '/' !in x.mediaId && '?' !in x.mediaId
  {
    SplitMxcExact(MxcUri(x), x);
  }

  // ----- what a request names -----

  datatype Target = Target(rows: seq<Media>, single: Option<Mxc>, uris: seq<string>)

  datatype Resolution = Resolved(records: seq<Media>) | BadUri | LookupFailed

  predicate HostAllows(onlyHost: string, origin: string) {
    onlyHost == "" || origin == onlyHost
  }

  /** The MXCs a target names, as far as the host restriction lets them through. */
  ghost predicate Names(target: Target, onlyHost: string, x: Mxc) {
    HostAllows(onlyHost, x.origin)
      && (target.single == Some(x) || exists u :: u in target.uris && SplitMxc(u) == Some(x))
  }

  /** If the MXC is let through and has a row, the records have a row for it. */
  ghost predicate Covered(db: Db, records: seq<Media>, onlyHost: string, x: Option<Mxc>) {
    x.Some? && HostAllows(onlyHost, x.value.origin) && (exists m :: m in db.media && m.mxc == x.value) ==>
      exists m :: m in records && m.mxc == x.value
  }

  lemma CoveredGrows(db: Db, records: seq<Media>, row: Media, onlyHost: string)
    ensures forall x | Covered(db, records, onlyHost, x) :: Covered(db, records + [row], onlyHost, x)
  {
    assert forall m | m in records :: m in records + [row];
  }

  function MxcsOf(records: seq<Media>): seq<Mxc> {
    seq(|records|, i requires 0 <= i < |records| => records[i].mxc)
  }

  ghost predicate HasRow(db: Db, x: Mxc) {
    exists m :: m in db.media && m.mxc == x
  }

  /** Those of the MXCs that have a row, in order. */
  ghost function WithRows(db: Db, asked: seq<Mxc>): seq<Mxc> {
    if asked == [] then []
    else
      var rest, x := WithRows(db, asked[..|asked| - 1]), asked[|asked| - 1];
      if HasRow(db, x) then rest + [x] else rest
  }

  /** The MXCs of the URIs that parse and that the host restriction lets through, in order. */
  ghost function AskedFor(uris: seq<string>, onlyHost: string): seq<Mxc> {
    if uris == [] then []
    else
      var rest, x := AskedFor(uris[..|uris| - 1], onlyHost), SplitMxc(uris[|uris| - 1]);
      if x.Some? && (onlyHost == "" || x.value.origin == onlyHost) then rest + [x.value] else rest
  }

  ghost function AskedFirst(single: Option<Mxc>, onlyHost: string): seq<Mxc> {
    if single.Some? && (onlyHost == "" || single.value.origin == onlyHost) then [single.value] else []
  }

  /** After the given rows the records are the rows of the MXCs asked for, in order. */
  ghost predicate InOrder(db: Db, records: seq<Media>, onlyHost: string, target: Target, uris: seq<string>) {
    MxcsOf(records) ==
      MxcsOf(target.rows) + WithRows(db, AskedFirst(target.single, onlyHost) + AskedFor(uris, onlyHost))
  }

  lemma AskedSnoc(db: Db, asked: seq<Mxc>, x: Mxc)
    ensures WithRows(db, asked + [x]) == WithRows(db, asked) + if HasRow(db, x) then [x] else []
  {
    assert (asked + [x])[..|asked|] == asked;
  }

  lemma InOrderGrows(db: Db, records: seq<Media>, out: seq<Media>, onlyHost: string, target: Target, i: nat)
    requires i < |target.uris| && InOrder(db, records, onlyHost, target, target.uris[..i])
    requires var x := SplitMxc(target.uris[i]);
      if x.Some? && (onlyHost == "" || x.value.origin == onlyHost)
      then MxcsOf(out) == MxcsOf(records) + if HasRow(db, x.value) then [x.value] else []
      else out == records
    ensures InOrder(db, out, onlyHost, target, target.uris[..i + 1])
  {
    var x, asked := SplitMxc(target.uris[i]), AskedFor(target.uris[..i], onlyHost);
    var first, given := AskedFirst(target.single, onlyHost), MxcsOf(target.rows);
    AskedNext(target.uris, i, onlyHost);
    if x.Some? && (onlyHost == "" || x.value.origin == onlyHost) {
      var more := if HasRow(db, x.value) then [x.value] else [];
      AskedSnoc(db, first + asked, x.value);
      assert first + asked + [x.value] == first + (asked + [x.value]);
      assert given + WithRows(db, first + asked) + more == given + (WithRows(db, first + asked) + more);
    }
  }

  lemma AskedNext(uris: seq<string>, i: nat, onlyHost: string)
    requires i < |uris|
    ensures var x := SplitMxc(uris[i]);
      AskedFor(uris[..i + 1], onlyHost) ==
        if x.Some? && (onlyHost == "" || x.value.origin == onlyHost)
        then AskedFor(uris[..i], onlyHost) + [x.value] else AskedFor(uris[..i], onlyHost)
  {
    assert uris[..i + 1][..i] == uris[..i];
  }

  /** The given rows, then exactly the rows the request names, in the order it names them. */
  ghost predicate RecordsOf(db: Db, records: seq<Media>, onlyHost: string, target: Target) {
    && FromRequest(db, records, onlyHost, target)
    && AllCovered(db, records, onlyHost, target)
    && InOrder(db, records, onlyHost, target, target.uris)
  }

  ghost predicate FromRequest(db: Db, records: seq<Media>, onlyHost: string, target: Target) {
    && target.rows <= records
    && (forall m | m in records[|target.rows|..] :: m in db.media && Names(target, onlyHost, m.mxc))
  }

  /** Every record was given as a row or is the row of a named MXC. */
  ghost predicate Sourced(db: Db, records: seq<Media>, onlyHost: string, target: Target) {
    forall m | m in records :: m in target.rows || (m in db.media && Names(target, onlyHost, m.mxc))
  }

  ghost predicate AllCovered(db: Db, records: seq<Media>, onlyHost: string, target: Target) {
    forall x | Names(target, onlyHost, x) :: Covered(db, records, onlyHost, Some(x))
  }

  lemma SourcedPrefix(db: Db, records: seq<Media>, onlyHost: string, target: Target, n: nat)
    requires n <= |records| && RecordsOf(db, records, onlyHost, target)
    ensures Sourced(db, records[..n], onlyHost, target)
  {
    var given := |target.rows|;
    forall m | m in records[..n] ensures m in target.rows || m in records[given..] {
      var i :| 0 <= i < n && records[i] == m;
      if i < given { assert m == target.rows[i]; } else { assert m == records[given..][i - given]; }
    }
  }

  /** Looks up one named MXC and adds its row, if it has one. */
  method AddRow(repo: Repo, x: Mxc, onlyHost: string, target: Target, records: seq<Media>)
    returns (ok: bool, out: seq<Media>)
    requires Names(target, onlyHost, x) && FromRequest(repo.db, records, onlyHost, target)
    modifies repo
    ensures repo.Looked(ok) && FromRequest(repo.db, out, onlyHost, target)
    ensures ok ==>
      && Covered(repo.db, out, onlyHost, Some(x))
      && (forall y | Covered(repo.db, records, onlyHost, y) :: Covered(repo.db, out, onlyHost, y))
      && MxcsOf(out) == MxcsOf(records) + if HasRow(repo.db, x) then [x] else []
  {
    out := records;
    var row;
    ok, row := repo.GetMediaById(x);
    if ok && row.Some? {
      CoveredGrows(repo.db, records, row.value, onlyHost);
      out := records + [row.value];
      assert row.value in out;
      assert out[|target.rows|..] == records[|target.rows|..] + [row.value];
    }
  }

  /** What is known after the first `i` URIs. */
  ghost predicate Resolving(db: Db, records: seq<Media>, onlyHost: string, target: Target, i: nat)
    requires i <= |target.uris|
  {
    && FromRequest(db, records, onlyHost, target)
    && Covered(db, records, onlyHost, target.single)
    && (onlyHost == "" ==> forall j | 0 <= j < i :: SplitMxc(target.uris[j]).Some?)
    && (forall j | 0 <= j < i :: Covered(db, records, onlyHost, SplitMxc(target.uris[j])))
    && InOrder(db, records, onlyHost, target, target.uris[..i])
  }

  method ResolveUri(repo: Repo, onlyHost: string, target: Target, i: nat, records: seq<Media>) returns (r: Resolution)
    requires i < |target.uris| && Resolving(repo.db, records, onlyHost, target, i)
    modifies repo
    ensures repo.db == old(repo.db) && repo.history == old(repo.history) && repo.faults >= old(repo.faults)
    ensures r == LookupFailed ==> repo.faults > old(repo.faults)
    ensures r == BadUri ==> onlyHost == "" && SplitMxc(target.uris[i]) == None
    ensures r.Resolved? ==>
      repo.faults == old(repo.faults) && Resolving(repo.db, r.records, onlyHost, target, i + 1)
  {
    var parsed := SplitMxc(target.uris[i]);
    assert target.uris[i] in target.uris;
    var origin := if parsed.Some? then parsed.value.origin else "";
    if onlyHost != "" && origin != onlyHost {
      InOrderGrows(repo.db, records, records, onlyHost, target, i);
      return Resolved(records);
    }
    if parsed.None? { return BadUri; }
    var ok, out := AddRow(repo, parsed.value, onlyHost, target, records);
    if !ok { return LookupFailed; }
    InOrderGrows(repo.db, records, out, onlyHost, target, i);
    r := Resolved(out);
  }

  method ResolveMedia(repo: Repo, onlyHost: string, target: Target) returns (r: Resolution)
    modifies repo
    ensures repo.db == old(repo.db) && repo.history == old(repo.history) && repo.faults >= old(repo.faults)
    ensures r == LookupFailed ==> repo.faults > old(repo.faults)
    ensures r == BadUri ==> onlyHost == "" && exists u :: u in target.uris && SplitMxc(u) == None
    ensures r.Resolved? ==> RecordsOf(repo.db, r.records, onlyHost, target) && repo.faults == old(repo.faults)
    ensures r.Resolved? && onlyHost == "" ==> forall u | u in target.uris :: SplitMxc(u).Some?
  {
    var records := target.rows;
    var ok;
    if target.single.Some? && HostAllows(onlyHost, target.single.value.origin) {
      ok, records := AddRow(repo, target.single.value, onlyHost, target, records);
      if !ok { return LookupFailed; }
    }
    StartsInOrder(repo.db, records, onlyHost, target);
    for i := 0 to |target.uris|
      invariant repo.db == old(repo.db) && repo.history == old(repo.history) && repo.faults == old(repo.faults)
      invariant Resolving(repo.db, records, onlyHost, target, i)
    {
      assert target.uris[i] in target.uris;
      r := ResolveUri(repo, onlyHost, target, i, records);
      if !r.Resolved? { return; }
      records := r.records;
    }
    assert target.uris[..|target.uris|] == target.uris;
    r := Resolved(records);
  }

  lemma StartsInOrder(db: Db, records: seq<Media>, onlyHost: string, target: Target)
    requires var first := AskedFirst(target.single, onlyHost);
      MxcsOf(records) == MxcsOf(target.rows) + if first != [] && HasRow(db, first[0]) then first else []
    ensures InOrder(db, records, onlyHost, target, target.uris[..0])
  {
    var first := AskedFirst(target.single, onlyHost);
    assert AskedFor(target.uris[..0], onlyHost) == [] && first + [] == first;
    if first != [] { OneAsked(db, first[0]); }
  }

  lemma OneAsked(db: Db, x: Mxc)
    ensures WithRows(db, [x]) == if HasRow(db, x) then [x] else []
  {
    AskedSnoc(db, [], x);
    assert [] + [x] == [x] && WithRows(db, []) == [];
  }

  // ----- quarantine by hash -----

  predicate Hit(db: Db, hashes: set<Hash>, onlyHost: string, m: Media) {
    m.hash in hashes && HostAllows(onlyHost, m.mxc.origin) && m.mxc !in db.pinned
  }

  function Flag(db: Db, hashes: set<Hash>, onlyHost: string, m: Media): Media {
    if Hit(db, hashes, onlyHost, m) then m.(quarantined := true) else m
  }

  function QuarantineResult(db: Db, hashes: set<Hash>, onlyHost: string): Db {
    db.(media := set m | m in db.media :: Flag(db, hashes, onlyHost, m))
  }

  /** The rows that change. */
  function Flagged(db: Db, hashes: set<Hash>, onlyHost: string): set<Media> {
    set m | m in db.media && !m.quarantined && Hit(db, hashes, onlyHost, m)
  }

  function HashesOf(records: seq<Media>, onlyHost: string): set<Hash> {
    set r | r in records && HostAllows(onlyHost, r.mxc.origin) :: r.hash
  }

  lemma QuarantineKeepsConsistency(db: Db, hashes: set<Hash>, onlyHost: string)
    requires Consistent(db)
    ensures Consistent(QuarantineResult(db, hashes, onlyHost))
    ensures NoOrphans(db) ==> NoOrphans(QuarantineResult(db, hashes, onlyHost))
  {
    var now := QuarantineResult(db, hashes, onlyHost);
    forall at | UsersOf(db, at) != {}
      ensures UsersOf(now, at) != {}
    {
      var x :| x in UsersOf(db, at);
      if m :| m in db.media && m.at == at && m.mxc == x {
        assert Flag(db, hashes, onlyHost, m) in now.media && x in UsersOf(now, at);
      } else {
        var t :| t in db.thumbs && t.at == at && t.of == x;
        assert x in UsersOf(now, at);
      }
    }
  }

  /** Quarantining hash by hash adds up, and so do the row counts. */
  lemma QuarantineAddsUp(db: Db, hashes: set<Hash>, h: Hash, onlyHost: string)
    ensures var now := QuarantineResult(db, hashes, onlyHost);
      && QuarantineResult(now, {h}, onlyHost) == QuarantineResult(db, hashes + {h}, onlyHost)
      && |Flagged(db, hashes + {h}, onlyHost)| == |Flagged(db, hashes, onlyHost)| + |Flagged(now, {h}, onlyHost)|
  {
    var now := QuarantineResult(db, hashes, onlyHost);
    forall m | m in db.media
      ensures Flag(db, hashes, onlyHost, m) in now.media
      ensures Flag(now, {h}, onlyHost, Flag(db, hashes, onlyHost, m)) == Flag(db, hashes + {h}, onlyHost, m)
    {}
    assert QuarantineResult(now, {h}, onlyHost).media == QuarantineResult(db, hashes + {h}, onlyHost).media;
    var a, b := Flagged(db, hashes, onlyHost), Flagged(now, {h}, onlyHost);
    forall m | m in now.media && !m.quarantined
      ensures m in db.media && !Hit(db, hashes, onlyHost, m)
    {
      var n :| n in db.media && m == Flag(db, hashes, onlyHost, n);
    }
    forall m | m in Flagged(db, hashes + {h}, onlyHost) && m !in a
      ensures m in b
    {
      assert Flag(db, hashes, onlyHost, m) == m;
    }
    assert Flagged(db, hashes + {h}, onlyHost) == a + b && a !! b;
  }

  lemma HashesExtend(records: seq<Media>, i: nat, onlyHost: string)
    requires i < |records|
    ensures HashesOf(records[..i + 1], onlyHost) ==
      HashesOf(records[..i], onlyHost) + if HostAllows(onlyHost, records[i].mxc.origin) then {records[i].hash} else {}
  {
    assert records[..i + 1] == records[..i] + [records[i]];
  }

  method UpdateQuarantine(repo: Repo, hash: Hash, onlyHost: string) returns (ok: bool, count: nat)
    modifies repo
    ensures repo.Wrote(ok, QuarantineResult(old(repo.db), {hash}, onlyHost))
    ensures count == if ok then |Flagged(old(repo.db), {hash}, onlyHost)| else 0
  {
    ok, count := *, 0;
    if ok {
      count := |Flagged(repo.db, {hash}, onlyHost)|;
      repo.db := QuarantineResult(repo.db, {hash}, onlyHost);
    } else {
      repo.faults := repo.faults + 1;
    }
    repo.history := repo.history + [repo.db];
  }

  /** The hashes are quarantined, and `total` rows changed on the way. */
  ghost predicate Counted(before: Db, hashes: set<Hash>, onlyHost: string, now: Db, total: nat) {
    now == QuarantineResult(before, hashes, onlyHost) && total == |Flagged(before, hashes, onlyHost)|
  }

  lemma CountedExtends(before: Db, records: seq<Media>, i: nat, onlyHost: string, now: Db, total: nat)
    requires i < |records| && Counted(before, HashesOf(records[..i], onlyHost), onlyHost, now, total)
    ensures HostAllows(onlyHost, records[i].mxc.origin) ==>
      Counted(before, HashesOf(records[..i + 1], onlyHost), onlyHost,
              QuarantineResult(now, {records[i].hash}, onlyHost), total + |Flagged(now, {records[i].hash}, onlyHost)|)
    ensures !HostAllows(onlyHost, records[i].mxc.origin) ==>
      Counted(before, HashesOf(records[..i + 1], onlyHost), onlyHost, now, total)
  {
    HashesExtend(records, i, onlyHost);
    QuarantineAddsUp(before, HashesOf(records[..i], onlyHost), records[i].hash, onlyHost);
  }

  lemma CountedStarts(db: Db, onlyHost: string)
    ensures Counted(db, HashesOf([], onlyHost), onlyHost, db, 0)
  {
    assert QuarantineResult(db, {}, onlyHost).media == db.media;
    assert Flagged(db, {}, onlyHost) == {};
  }

  method QuarantineOne(repo: Repo, onlyHost: string, records: seq<Media>, i: nat, total: nat, ghost before: Db)
    returns (ok: bool, sum: nat)
    requires i < |records| && Counted(before, HashesOf(records[..i], onlyHost), onlyHost, repo.db, total)
    modifies repo
    ensures ok ==> repo.faults == old(repo.faults)
    ensures !ok ==> repo.faults > old(repo.faults)
    ensures Counted(before, HashesOf(records[..if ok then i + 1 else i], onlyHost), onlyHost, repo.db, sum)
  {
    CountedExtends(before, records, i, onlyHost, repo.db, total);
    ok, sum := true, total;
    if onlyHost != "" && onlyHost != records[i].mxc.origin { return; }
    var count;
    ok, count := UpdateQuarantine(repo, records[i].hash, onlyHost);
    sum := total + count;
  }

  /** Quarantines, for the records it is given, every unpinned row that shares a hash
      with one of them, and reports how many rows changed. */
  method QuarantineRecords(repo: Repo, onlyHost: string, records: seq<Media>)
    returns (ok: bool, total: nat, ghost done: nat)
    modifies repo
    ensures repo.faults >= old(repo.faults)
    ensures done <= |records| && (ok ==> done == |records|) && (ok <==> repo.faults == old(repo.faults))
    ensures Counted(old(repo.db), HashesOf(records[..done], onlyHost), onlyHost, repo.db, total)
  {
    ok, total, done := true, 0, 0;
    CountedStarts(repo.db, onlyHost);
    for i := 0 to |records|
      invariant done == i && ok && repo.faults == old(repo.faults)
      invariant Counted(old(repo.db), HashesOf(records[..done], onlyHost), onlyHost, repo.db, total)
    {
      ok, total := QuarantineOne(repo, onlyHost, records, i, total, old(repo.db));
      if !ok { return; }
      done := done + 1;
    }
  }

  /** The row shares its bytes with a record the host restriction lets through, is let
      through itself, and is not pinned. */
  ghost predicate Selected(db: Db, records: seq<Media>, onlyHost: string, m: Media) {
    && (onlyHost == "" || m.mxc.origin == onlyHost) && m.mxc !in db.pinned
    && exists r :: r in records && (onlyHost == "" || r.mxc.origin == onlyHost) && r.hash == m.hash
  }

  /** Exactly the selected rows are quarantined, beside those that were, and the number
      told is that of the rows that changed. */
  ghost predicate SelectedAreFlagged(before: Db, records: seq<Media>, onlyHost: string, now: Db, total: nat) {
    && now.(media := before.media) == before
    && (forall m | m in before.media ::
          if Selected(before, records, onlyHost, m) then m.(quarantined := true) in now.media else m in now.media)
    && (forall n | n in now.media ::
          n in before.media || (n.quarantined && Selected(before, records, onlyHost, n)
                                && n.(quarantined := false) in before.media))
    && (forall n | n in now.media && Selected(before, records, onlyHost, n) :: n.quarantined)
    && total == |set m | m in before.media && !m.quarantined && Selected(before, records, onlyHost, m)|
  }

  lemma CountedMeans(before: Db, records: seq<Media>, onlyHost: string, now: Db, total: nat)
    requires Counted(before, HashesOf(records, onlyHost), onlyHost, now, total)
    ensures SelectedAreFlagged(before, records, onlyHost, now, total)
  {
    var hashes := HashesOf(records, onlyHost);
    forall m: Media ensures Hit(before, hashes, onlyHost, m) <==> Selected(before, records, onlyHost, m) {}
    forall m | m in before.media ensures Flag(before, hashes, onlyHost, m) in now.media {}
    forall n | n in now.media
      ensures n in before.media || (n.quarantined && Selected(before, records, onlyHost, n)
                                    && n.(quarantined := false) in before.media)
      ensures Selected(before, records, onlyHost, n) ==> n.quarantined
    {
      var m :| m in before.media && n == Flag(before, hashes, onlyHost, m);
      if n != m { assert m == n.(quarantined := false); }
    }
    assert Flagged(before, hashes, onlyHost) ==
      set m | m in before.media && !m.quarantined && Selected(before, records, onlyHost, m);
  }

  /** Resolves the target and quarantines the records one by one. */
  method QuarantineTarget(repo: Repo, onlyHost: string, target: Target)
    returns (ok: bool, total: nat, ghost records: seq<Media>)
    modifies repo
    ensures repo.faults >= old(repo.faults)
    ensures Counted(old(repo.db), HashesOf(records, onlyHost), onlyHost, repo.db, total)
    ensures Sourced(old(repo.db), records, onlyHost, target)
    ensures ok ==> target.rows <= records && AllCovered(old(repo.db), records, onlyHost, target)
    ensures ok ==> repo.faults == old(repo.faults)
    ensures repo.faults == old(repo.faults) ==>
      (ok <==> onlyHost != "" || forall u | u in target.uris :: SplitMxc(u).Some?)
    ensures !ok && repo.faults == old(repo.faults) ==> repo.db == old(repo.db) && repo.history == old(repo.history)
  {
    total, records := 0, [];
    CountedStarts(repo.db, onlyHost);
    var r := ResolveMedia(repo, onlyHost, target);
    if !r.Resolved? { return false, 0, []; }
    ghost var done;
    ok, total, done := QuarantineRecords(repo, onlyHost, r.records);
    records := r.records[..done];
    SourcedPrefix(old(repo.db), r.records, onlyHost, target, done);
    assert ok ==> records == r.records;
  }

  /** What is flagged is what the records select. It fails only with a failed call, or,
      without a host restriction, at a URI that does not parse. */
  method QuarantineMedia(repo: Repo, onlyHost: string, target: Target)
    returns (ok: bool, total: nat, ghost records: seq<Media>)
    modifies repo
    ensures repo.faults >= old(repo.faults)
    ensures Counted(old(repo.db), HashesOf(records, onlyHost), onlyHost, repo.db, total)
    ensures SelectedAreFlagged(old(repo.db), records, onlyHost, repo.db, total)
    ensures Sourced(old(repo.db), records, onlyHost, target)
    ensures ok ==> target.rows <= records && AllCovered(old(repo.db), records, onlyHost, target)
    ensures ok ==> repo.faults == old(repo.faults)
    ensures repo.faults == old(repo.faults) ==>
      (ok <==> onlyHost != "" || forall u | u in target.uris :: SplitMxc(u).Some?)
    ensures !ok && repo.faults == old(repo.faults) ==> repo.db == old(repo.db) && repo.history == old(repo.history)
  {
    ok, total, records := QuarantineTarget(repo, onlyHost, target);
    CountedMeans(old(repo.db), records, onlyHost, repo.db, total);
  }
}
