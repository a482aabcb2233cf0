/** Export archives (archival/v2archive/writer.go, archival/v2archive/reader.go). Tar,
    gzip and JSON are taken at face value: a part is the list of its entries. */
module ArchiveFormat {
  import opened Bytes
  import opened Wrappers
  import opened Repository

  datatype ManifestRecord = ManifestRecord(
    fileName: string,
    archivedName: string,
    sizeBytes: nat,
    contentType: string,
    origin: string,
    mediaId: string,
    createdTs: int,
    uploader: string)

  /** `hasMedia` is false for a manifest without a media table, not even an empty one. */
  datatype Manifest = Manifest(version: int, entityId: string, userId: string, hasMedia: bool,
                               media: map<string, ManifestRecord>)

  datatype Body = Data(bytes: seq<byte>) | ManifestJson(manifest: Manifest) | IndexHtml

  datatype Entry = Entry(name: string, body: Body)

  datatype PartName = ExportPart(n: nat) | ExportManifest

  datatype Part = Part(number: nat, name: PartName, entries: seq<Entry>)

  /** One exported media, with the file extension its content was detected to have. */
  datatype File = File(
    origin: string,
    mediaId: string,
    fileName: string,
    contentType: string,
    createdTs: int,
    uploader: string,
    extension: string,
    bytes: seq<byte>)

  const MANIFEST_NAME := "manifest.json"
  const INDEX_NAME := "index.html"

  function Uri(f: File): string {
    MxcUri(Mxc(f.origin, f.mediaId))
  }

  function ArchivedName(f: File): string {
    f.origin + "__" + f.mediaId + f.extension
  }

  function RecordOf(f: File): ManifestRecord {
    ManifestRecord(f.fileName, ArchivedName(f), |f.bytes|, f.contentType, f.origin, f.mediaId, f.createdTs, f.uploader)
  }

  function EntryOf(f: File): Entry {
    Entry(ArchivedName(f), Data(f.bytes))
  }

  function EntriesOf(files: seq<File>): seq<Entry> {
    seq(|files|, i requires 0 <= i < |files| => EntryOf(files[i]))
  }

  function ManifestOf(files: seq<File>): map<string, ManifestRecord> {
    if files == [] then map[]
    else
      var f := files[|files| - 1];
      ManifestOf(files[..|files| - 1])[Uri(f) := RecordOf(f)]
  }

  lemma ArchivedNamesAreSpecial(f: File)
    ensures ArchivedName(f) != MANIFEST_NAME && ArchivedName(f) != INDEX_NAME
  {
    assert ArchivedName(f)[|f.origin|] == '_';
    assert '_' !in MANIFEST_NAME && '_' !in INDEX_NAME;
  }
}

module ArchiveWriting {
  import opened Bytes
  import opened ArchiveFormat

  function Size(files: seq<File>): nat {
    if files == [] then 0 else Size(files[..|files| - 1]) + |files[|files| - 1].bytes|
  }

  /** Which files end up together: the closed parts, and the part still open. */
  function Grouped(files: seq<File>, partSize: int): (seq<seq<File>>, seq<File>) {
    if files == [] then ([], [])
    else
      var (closed, open) := Grouped(files[..|files| - 1], partSize);
      var more := open + [files[|files| - 1]];
      if Size(more) >= partSize then (closed + [more], []) else (closed, more)
  }

  function Flatten(parts: seq<seq<File>>): seq<File> {
    if parts == [] then [] else Flatten(parts[..|parts| - 1]) + parts[|parts| - 1]
  }

  ghost predicate FilledByLast(part: seq<File>, partSize: int) {
    part != [] && Size(part) >= partSize && (|part| > 1 ==> Size(part[..|part| - 1]) < partSize)
  }

  /** Nothing is lost or reordered, every closed part reaches the target size with its
      last file and not before, and the open one has not reached it. */
  ghost predicate RightGroups(files: seq<File>, closed: seq<seq<File>>, open: seq<File>, partSize: int) {
    && Flatten(closed) + open == files
    && (forall p | p in closed :: FilledByLast(p, partSize))
    && (open != [] || partSize > 0 ==> Size(open) < partSize)
  }

  lemma GroupsGrow(files: seq<File>, closed: seq<seq<File>>, open: seq<File>, f: File, partSize: int)
    requires RightGroups(files, closed, open, partSize)
    ensures if Size(open + [f]) >= partSize then RightGroups(files + [f], closed + [open + [f]], [], partSize)
            else RightGroups(files + [f], closed, open + [f], partSize)
  {
    var more := open + [f];
    assert more[..|more| - 1] == open;
    assert files + [f] == Flatten(closed) + more;
    if Size(more) >= partSize {
      assert (closed + [more])[..|closed|] == closed;
      assert Flatten(closed + [more]) + [] == Flatten(closed) + more;
    }
  }

  lemma {:induction false} GroupingIsRight(files: seq<File>, partSize: int)
    ensures RightGroups(files, Grouped(files, partSize).0, Grouped(files, partSize).1, partSize)
  {
    if files != [] {
      var init, f := files[..|files| - 1], files[|files| - 1];
      GroupingIsRight(init, partSize);
      assert files == init + [f];
      GroupsGrow(init, Grouped(init, partSize).0, Grouped(init, partSize).1, f, partSize);
    }
  }

  /** The parts of a finished archive. */
  function DataParts(groups: seq<seq<File>>): seq<Part> {
    seq(|groups|, i requires 0 <= i < |groups| => Part(i + 1, ExportPart(i + 1), EntriesOf(groups[i])))
  }

  function ManifestEntry(entity: string, files: seq<File>): Entry {
    Entry(MANIFEST_NAME, ManifestJson(Manifest(2, entity, "", true, ManifestOf(files))))
  }

  function ManifestPart(number: nat, entity: string, files: seq<File>): Part {
    Part(number, ExportManifest, [ManifestEntry(entity, files), Entry(INDEX_NAME, IndexHtml)])
  }

  function Archive(files: seq<File>, entity: string, partSize: int): seq<Part> {
    var (closed, open) := Grouped(files, partSize);
    DataParts(closed + [open]) + [ManifestPart(|closed| + 2, entity, files)]
  }

  /** The writer's state machine. `persisted` is what the part persister has been given. */
  class ArchiveWriter {
    const entity: string
    const partSize: int
    var mediaManifest: map<string, ManifestRecord>
    var currentPart: nat
    var currentSize: nat
    var currentTar: seq<Entry>
    var writingManifest: bool
    var persisted: seq<Part>

    /** The writer is between files: this is everything appended so far. */
    ghost predicate Holds(files: seq<File>)
      reads this
    {
      && !writingManifest
      && mediaManifest == ManifestOf(files)
      && At(Grouped(files, partSize).0, Grouped(files, partSize).1)
    }

    ghost predicate At(closed: seq<seq<File>>, open: seq<File>)
      reads this
    {
      && persisted == DataParts(closed)
      && currentPart == |closed| + 1
      && currentTar == EntriesOf(open)
      && currentSize == Size(open)
    }

    constructor (entity: string, partSize: int)
      ensures Holds([]) && this.entity == entity && this.partSize == partSize
    {
      this.entity, this.partSize := entity, partSize;
      mediaManifest, persisted, writingManifest := map[], [], false;
      currentPart, currentSize, currentTar := 0, 0, [];
      new;
      BeginTar();
    }

    method BeginTar()
      modifies this
      ensures currentSize == 0 && currentPart == old(currentPart) + 1 && currentTar == []
      ensures mediaManifest == old(mediaManifest) && writingManifest == old(writingManifest)
        && persisted == old(persisted)
    {
      currentSize := 0;
      currentPart := currentPart + 1;
      currentTar := [];
    }

    function CurrentName(): PartName
      reads this
    {
      if writingManifest then ExportManifest else ExportPart(currentPart)
    }

    method WriteTar()
      modifies this`persisted
      ensures persisted == old(persisted) + [Part(currentPart, CurrentName(), currentTar)]
    {
      var name := ExportPart(currentPart);
      if writingManifest { name := ExportManifest; }
      persisted := persisted + [Part(currentPart, name, currentTar)];
    }

    method RotateTar()
      requires currentPart > 0
      modifies this
      ensures persisted == old(persisted) + [Part(old(currentPart), old(CurrentName()), old(currentTar))]
      ensures currentSize == 0 && currentPart == old(currentPart) + 1 && currentTar == []
      ensures mediaManifest == old(mediaManifest) && writingManifest == old(writingManifest)
    {
      WriteTar();
      BeginTar();
    }

    method PutFile(name: string, body: Body, size: nat)
      modifies this`currentTar, this`currentSize
      ensures currentTar == old(currentTar) + [Entry(name, body)] && currentSize == old(currentSize) + size
    {
      currentTar := currentTar + [Entry(name, body)];
      currentSize := currentSize + size;
    }

    /** Adds a file to the open part and closes the part once it is full. */
    method Place(f: File, ghost closed: seq<seq<File>>, ghost open: seq<File>)
      requires At(closed, open) && !writingManifest
      modifies this
      ensures if Size(open + [f]) >= partSize then At(closed + [open + [f]], []) else At(closed, open + [f])
      ensures mediaManifest == old(mediaManifest)[Uri(f) := RecordOf(f)] && !writingManifest
    {
      PlaceFacts(closed, open, f);
      PutFile(ArchivedName(f), Data(f.bytes), |f.bytes|);
      mediaManifest := mediaManifest[Uri(f) := RecordOf(f)];
      if currentSize >= partSize {
        RotateTar();
      }
    }

    method AppendMedia(f: File, ghost files: seq<File>)
      requires Holds(files)
      modifies this
      ensures Holds(files + [f])
    {
      AppendFacts(files, f, partSize);
      Place(f, Grouped(files, partSize).0, Grouped(files, partSize).1);
    }

    /** The finished archive is exactly `Archive` of what was appended. */
    method Finish(ghost files: seq<File>, manifestSize: nat, indexSize: nat)
      requires Holds(files)
      modifies this
      ensures persisted == Archive(files, entity, partSize) && !writingManifest
    {
      ghost var (closed, open) := Grouped(files, partSize);
      assert DataParts(closed + [open]) ==
        DataParts(closed) + [Part(|closed| + 1, ExportPart(|closed| + 1), EntriesOf(open))];
      RotateTar();
      writingManifest := true;
      PutFile(MANIFEST_NAME, ManifestJson(Manifest(2, entity, "", true, mediaManifest)), manifestSize);
      PutFile(INDEX_NAME, IndexHtml, indexSize);
      assert currentTar == ManifestPart(|closed| + 2, entity, files).entries;
      WriteTar();
      writingManifest := false;
    }
  }

  lemma AppendFacts(files: seq<File>, f: File, partSize: int)
    ensures ManifestOf(files + [f]) == ManifestOf(files)[Uri(f) := RecordOf(f)]
    ensures var (closed, open) := Grouped(files, partSize);
      Grouped(files + [f], partSize) ==
        if Size(open + [f]) >= partSize then (closed + [open + [f]], []) else (closed, open + [f])
  {
    assert (files + [f])[..|files|] == files;
  }

  lemma PlaceFacts(closed: seq<seq<File>>, open: seq<File>, f: File)
    ensures Size(open + [f]) == Size(open) + |f.bytes|
    ensures EntriesOf(open + [f]) == EntriesOf(open) + [EntryOf(f)]
    ensures DataParts(closed + [open + [f]]) ==
      DataParts(closed) + [Part(|closed| + 1, ExportPart(|closed| + 1), EntriesOf(open + [f]))]
  {
    assert (open + [f])[..|open|] == open;
  }

  /** What the persister sees: consecutive numbers from one, the manifest part last and
      only there, and the appended files in order in the parts before it. */
  lemma PartsAreInOrder(files: seq<File>, entity: string, partSize: int)
    ensures var parts := Archive(files, entity, partSize);
      var (closed, open) := Grouped(files, partSize);
      && |parts| == |closed| + 2
      && (forall i | 0 <= i < |parts| ::
            parts[i].number == i + 1 && (parts[i].name == ExportManifest <==> i == |parts| - 1))
      && (forall i | 0 <= i < |parts| - 1 :: parts[i].entries == EntriesOf((closed + [open])[i]))
      && parts[|parts| - 1].entries ==
         [Entry("manifest.json", ManifestJson(Manifest(2, entity, "", true, ManifestOf(files)))),
          Entry("index.html", IndexHtml)]
      && Flatten(closed + [open]) == files
  {
    var (closed, open) := Grouped(files, partSize);
    GroupingIsRight(files, partSize);
    assert (closed + [open])[..|closed|] == closed;
  }
}

module ArchiveReading {
  import opened Bytes
  import opened Wrappers
  import opened Repository
  import opened Text
  import opened ArchiveFormat

  /** What a completed import leaves in the repository for one MXC. */
  datatype Imported = Imported(bytes: seq<byte>, contentType: string, fileName: string, uploader: string)

  datatype Options = Options(lockedEntityId: string, checkUploadedOnly: bool)

  /** The importer once it has a manifest. `log` lists the uploads it made. */
  datatype Importer = Importer(
    manifest: Manifest,
    uploaded: map<string, bool>,
    fileNamesToMxcs: map<string, seq<string>>,
    db: map<Mxc, Imported>,
    log: seq<string>)

  /** The server part of a user ID, if it has the form of one. */
  function ServerOf(userId: string): Option<string> {
    if !HasPrefix(userId, "@") then None
    else
      var parts := Split(userId[1..], ':');
      if |parts| < 2 then None else Some(Join(parts[1..], ':'))
  }

  /** A user ID, whatever its parts: an at sign, and a colon somewhere after it. */
  ghost predicate IsUserId(u: string) {
    u != "" && u[0] == '@' && ':' in u[1..]
  }

  /** A user of this server; the server may have a port, the local part has no colon. */
  ghost predicate IsUserOn(u: string, server: string) {
    exists local: string :: ':' !in local && u == "@" + local + ":" + server
  }

  /** The server of a user ID is all that follows the first colon, ports included. */
  lemma ServerOfUserId(local: string, server: string)
    requires ':' !in local
    ensures ServerOf("@" + local + ":" + server) == Some(server)
  {
    var u := "@" + local + ":" + server;
    assert u[1..] == local + ":" + server && "@" <= u;
    SplitFirst(local, server, ':');
    assert Split(u[1..], ':')[1..] == Split(server, ':');
    JoinSplit(server, ':');
  }

  lemma FirstColon(s: string) returns (local: string, server: string)
    requires ':' in s
    ensures ':' !in local && s == local + ":" + server
  {
    var i := 0;
    while s[i] != ':'
      invariant 0 <= i < |s| && ':' !in s[..i] && ':' in s[i..]
      decreases |s| - i
    {
      i := i + 1;
    }
    local, server := s[..i], s[i + 1..];
  }

  /** A text has a server exactly if it is a user ID, and then exactly the one it is on. */
  lemma ServerOfIff(u: string, server: string)
    ensures ServerOf(u).Some? <==> IsUserId(u)
    ensures ServerOf(u) == Some(server) <==> IsUserOn(u, server)
  {
    if IsUserId(u) {
      var local, rest := FirstColon(u[1..]);
      assert u == "@" + local + ":" + rest;
      ServerOfUserId(local, rest);
    } else if HasPrefix(u, "@") {
      SplitClean(u[1..], ':');
    }
    if local: string :| ':' !in local && u == "@" + local + ":" + server { ServerOfUserId(local, server); }
  }

  // ----- one file of the archive -----

  /** An uploader that is not a user ID is forgotten. */
  function Cleaned(m: ManifestRecord): ManifestRecord {
    if m.uploader != "" && ServerOf(m.uploader).None? then m.(uploader := "") else m
  }

  /** An uploader on another server than the MXC's disqualifies the file. */
  predicate Foreign(m: ManifestRecord) {
    m.uploader != "" && ServerOf(m.uploader).Some? && ServerOf(m.uploader).value != m.origin
  }

  predicate LockedOut(opts: Options, m: ManifestRecord) {
    opts.lockedEntityId != "" &&
    if opts.lockedEntityId[0] == '@' then m.uploader != opts.lockedEntityId else m.origin != opts.lockedEntityId
  }

  function MxcOf(m: ManifestRecord): Mxc {
    Mxc(m.origin, m.mediaId)
  }

  /** Offers the stream to one MXC; an upload consumes it. */
  function ImportOne(s: Importer, mxc: string, stream: seq<byte>, opts: Options): (Importer, seq<byte>) {
    if (mxc in s.uploaded && s.uploaded[mxc]) || mxc !in s.manifest.media then (s, stream)
    else
      var m := s.manifest.media[mxc];
      if MxcUri(MxcOf(m)) != mxc || Foreign(m) then (s, stream)
      else
        var c := Cleaned(m);
        var t := s.(manifest := s.manifest.(media := s.manifest.media[mxc := c]));
        if LockedOut(opts, c) then (t, stream)
        else if MxcOf(c) in s.db then (t.(uploaded := s.uploaded[mxc := true]), stream)
        else if opts.checkUploadedOnly then (t, stream)
        else
          (t.(uploaded := s.uploaded[mxc := true],
              db := s.db[MxcOf(c) := Imported(stream, c.contentType, c.fileName, c.uploader)],
              log := s.log + [mxc]), [])
  }

  function ImportNames(s: Importer, mxcs: seq<string>, stream: seq<byte>, opts: Options): (Importer, seq<byte>) {
    if mxcs == [] then (s, stream)
    else
      var (t, left) := ImportNames(s, mxcs[..|mxcs| - 1], stream, opts);
      ImportOne(t, mxcs[|mxcs| - 1], left, opts)
  }

  function Stream(body: Body): seq<byte> {
    if body.Data? then body.bytes else []
  }

  function ImportEntry(s: Importer, e: Entry, opts: Options): Importer {
    if e.name in s.fileNamesToMxcs then ImportNames(s, s.fileNamesToMxcs[e.name], Stream(e.body), opts).0 else s
  }

  function ImportEntries(s: Importer, entries: seq<Entry>, opts: Options): Importer {
    if entries == [] then s
    else ImportEntry(ImportEntries(s, entries[..|entries| - 1], opts), entries[|entries| - 1], opts)
  }

  // ----- reading the manifest -----

  predicate Acceptable(m: Manifest) {
    m.hasMedia && ((m.version == 2 && m.entityId != "") || (m.version == 1 && m.userId != ""))
  }

  function Upgraded(m: Manifest): Manifest {
    if m.version == 1 then m.(version := 2, entityId := m.userId) else m
  }

  /** Every archived name leads to exactly those of the `seen` MXCs recorded under it. */
  ghost predicate Indexes(names: map<string, seq<string>>, media: map<string, ManifestRecord>, seen: set<string>) {
    && (forall n | n in names :: names[n] != [] && NoRepeats(names[n]))
    && (forall n, k | n in names && k in names[n] :: k in seen && k in media && media[k].archivedName == n)
    && (forall k | k in seen && k in media :: media[k].archivedName in names && k in names[media[k].archivedName])
  }

  lemma IndexGrows(names: map<string, seq<string>>, media: map<string, ManifestRecord>, seen: set<string>, k: string)
    requires Indexes(names, media, seen) && k in media && k !in seen
    ensures var n := media[k].archivedName;
      Indexes(names[n := (if n in names then names[n] else []) + [k]], media, seen + {k})
  {}

  /** Enters a manifest into the tables of the reader. */
  method AddToIndex(media: map<string, ManifestRecord>, uploaded0: map<string, bool>, names0: map<string, seq<string>>)
    returns (uploaded: map<string, bool>, names: map<string, seq<string>>)
    ensures uploaded.Keys == uploaded0.Keys + media.Keys && forall k | k in media :: !uploaded[k]
    ensures names0 == map[] ==> Indexes(names, media, media.Keys)
  {
    uploaded, names := uploaded0, names0;
    var rest := media.Keys;
    while rest != {}
      invariant rest <= media.Keys
      invariant uploaded.Keys == uploaded0.Keys + (media.Keys - rest)
        && forall k | k in media && k !in rest :: !uploaded[k]
      invariant names0 == map[] ==> Indexes(names, media, media.Keys - rest)
      decreases rest
    {
      var k :| k in rest;
      var n := media[k].archivedName;
      if names0 == map[] { IndexGrows(names, media, media.Keys - rest, k); }
      uploaded := uploaded[k := false];
      names := names[n := (if n in names then names[n] else []) + [k]];
      assert media.Keys - (rest - {k}) == media.Keys - rest + {k};
      rest := rest - {k};
    }
  }

  ghost predicate OneManifest(entries: seq<Entry>) {
    forall i, j | 0 <= i < j < |entries| :: entries[i].name != MANIFEST_NAME || entries[j].name != MANIFEST_NAME
  }

  /** Every MXC in the index is in the manifest. */
  ghost predicate Whole(s: Importer) {
    forall n, k | n in s.fileNamesToMxcs && k in s.fileNamesToMxcs[n] :: k in s.manifest.media
  }

  /** The reader object. A failed database call or upload ends the method that made it. */
  class ArchiveReader {
    var manifest: Option<Manifest>
    var uploaded: map<string, bool>
    var fileNamesToMxcs: map<string, seq<string>>
    var db: map<Mxc, Imported>
    var log: seq<string>
    ghost var faults: nat

    ghost function State(): Importer
      requires manifest.Some?
      reads this
    {
      Importer(manifest.value, uploaded, fileNamesToMxcs, db, log)
    }

    constructor (db: map<Mxc, Imported>)
      ensures Valid() && manifest.None? && this.db == db && log == []
    {
      manifest, uploaded, fileNamesToMxcs, log, faults := None, map[], map[], [], 0;
      this.db := db;
    }

    /** Before a manifest is found there is nothing in the tables. */
    ghost predicate Valid()
      reads this
    {
      manifest.None? ==> uploaded == map[] && fileNamesToMxcs == map[]
    }

    /** Looks through one part. Whatever is found last counts; the exporter never puts
        two manifests into one part. */
    method TryGetManifestFrom(entries: seq<Entry>) returns (found: bool, ok: bool)
      requires Valid()
      modifies this
      ensures Valid() && db == old(db) && log == old(log) && faults == old(faults)
      ensures old(manifest).Some? ==> !found && !ok && manifest == old(manifest)
      ensures old(manifest).None? ==> found == manifest.Some?
      ensures old(manifest).None? && ok ==> (found <==> exists e :: e in entries && e.name == MANIFEST_NAME)
      ensures old(manifest).None? && (forall e | e in entries :: e.name != MANIFEST_NAME) ==> ok && !found
      ensures old(manifest).None? && OneManifest(entries) ==>
        forall e | e in entries && e.name == "manifest.json" ::
          if e.body.ManifestJson? && e.body.manifest.hasMedia
            && ((e.body.manifest.version == 2 && e.body.manifest.entityId != "")
                || (e.body.manifest.version == 1 && e.body.manifest.userId != ""))
          then ok && found && manifest.Some?
            && manifest.value.version == 2 && manifest.value.media == e.body.manifest.media
            && manifest.value.entityId == (if e.body.manifest.version == 1 then e.body.manifest.userId
                                           else e.body.manifest.entityId)
            && uploaded.Keys == manifest.value.media.Keys && (forall k | k in uploaded :: !uploaded[k])
            && Indexes(fileNamesToMxcs, manifest.value.media, manifest.value.media.Keys)
          else !ok && !found
    {
      if manifest.Some? { return false, false; }
      ghost var last := -1;
      for i := 0 to |entries|
        invariant Valid() && db == old(db) && log == old(log) && faults == old(faults)
        invariant -1 <= last < i && (manifest.Some? <==> last >= 0)
        invariant forall k | last < k < i :: entries[k].name != MANIFEST_NAME
        invariant last >= 0 ==>
          entries[last].name == MANIFEST_NAME && entries[last].body.ManifestJson?
            && Acceptable(entries[last].body.manifest)
        invariant last >= 0 && OneManifest(entries) ==>
          && manifest == Some(Upgraded(entries[last].body.manifest))
          && uploaded.Keys == manifest.value.media.Keys && (forall k | k in uploaded :: !uploaded[k])
          && Indexes(fileNamesToMxcs, manifest.value.media, manifest.value.media.Keys)
      {
        var e := entries[i];
        if e.name == MANIFEST_NAME {
          assert e in entries;
          if !e.body.ManifestJson? { return manifest.Some?, false; }
          if !Acceptable(e.body.manifest) { return manifest.Some?, false; }
          var m := Upgraded(e.body.manifest);
          uploaded, fileNamesToMxcs := AddToIndex(m.media, uploaded, fileNamesToMxcs);
          manifest := Some(m);
          last := i;
        }
      }
      if last >= 0 { assert entries[last] in entries; }
      return manifest.Some?, true;
    }

    /** Offers the stream to one MXC; `left` is what remains of it. An MXC that is indexed
        but not in the manifest, as two manifests in one part can leave behind, ends it:
        there the code runs into a missing record. */
    method Offer(mxc: string, stream: seq<byte>, opts: Options) returns (ok: bool, left: seq<byte>)
      requires manifest.Some?
      modifies this
      ensures manifest.Some? && manifest.value.media.Keys == old(manifest.value.media.Keys)
      ensures fileNamesToMxcs == old(fileNamesToMxcs) && faults >= old(faults) && (ok ==> faults == old(faults))
      ensures !ok && faults == old(faults) ==> mxc !in manifest.value.media
      ensures ok ==> mxc in manifest.value.media || (mxc in uploaded && uploaded[mxc])
      ensures ok ==> (State(), left) == ImportOne(old(State()), mxc, stream, opts)
    {
      ok, left := true, stream;
      if mxc in uploaded && uploaded[mxc] { return; }
      if mxc !in manifest.value.media { return false, left; }
      var m := manifest.value.media[mxc];
      if MxcUri(MxcOf(m)) != mxc || Foreign(m) { return; }
      var c := Cleaned(m);
      manifest := Some(manifest.value.(media := manifest.value.media[mxc := c]));
      if LockedOut(opts, c) { return; }
      ok := *;
      if !ok {
        faults := faults + 1;
        return;
      }
      if MxcOf(c) in db {
        uploaded := uploaded[mxc := true];
        return;
      }
      if opts.checkUploadedOnly { return; }
      ok := *;
      if !ok {
        faults := faults + 1;
        return;
      }
      db := db[MxcOf(c) := Imported(stream, c.contentType, c.fileName, c.uploader)];
      log := log + [mxc];
      uploaded := uploaded[mxc := true];
      left := [];
    }

    method ImportFile(e: Entry, opts: Options) returns (ok: bool)
      requires manifest.Some?
      modifies this
      ensures manifest.Some? && manifest.value.media.Keys == old(manifest.value.media.Keys)
      ensures fileNamesToMxcs == old(fileNamesToMxcs) && faults >= old(faults) && (ok ==> faults == old(faults))
      ensures !ok && faults == old(faults) ==> !Whole(old(State()))
      ensures ok ==> State() == ImportEntry(old(State()), e, opts)
    {
      ok := true;
      if e.name !in fileNamesToMxcs { return; }
      var mxcs := fileNamesToMxcs[e.name];
      var stream := Stream(e.body);
      for i := 0 to |mxcs|
        invariant ok && manifest.Some? && faults == old(faults) && fileNamesToMxcs == old(fileNamesToMxcs)
        invariant manifest.value.media.Keys == old(manifest.value.media.Keys)
        invariant (State(), stream) == ImportNames(old(State()), mxcs[..i], Stream(e.body), opts)
      {
        assert mxcs[..i + 1][..i] == mxcs[..i];
        assert mxcs[i] in mxcs;
        ok, stream := Offer(mxcs[i], stream, opts);
        if !ok { return; }
      }
      assert mxcs[..|mxcs|] == mxcs;
    }

    method ProcessFile(entries: seq<Entry>, opts: Options) returns (ok: bool)
      modifies this
      ensures old(manifest).None? ==> !ok && manifest.None? && db == old(db)
      ensures ok ==> manifest.Some? && State() == ImportEntries(old(State()), entries, opts) && faults == old(faults)
      ensures old(manifest).Some? ==>
        && manifest.Some? && manifest.value.media.Keys == old(manifest.value.media.Keys)
        && fileNamesToMxcs == old(fileNamesToMxcs) && faults >= old(faults)
        && (!ok && faults == old(faults) ==> !Whole(old(State())))
    {
      if manifest.None? { return false; }
      for i := 0 to |entries|
        invariant manifest.Some? && old(manifest).Some? && faults == old(faults)
        invariant fileNamesToMxcs == old(fileNamesToMxcs)
        invariant manifest.value.media.Keys == old(manifest.value.media.Keys)
        invariant State() == ImportEntries(old(State()), entries[..i], opts)
      {
        assert entries[..i + 1][..i] == entries[..i];
        ok := ImportFile(entries[i], opts);
        if !ok { return; }
      }
      assert entries[..|entries|] == entries;
      ok := true;
    }

    method GetNotUploadedMxcUris() returns (uris: seq<string>)
      ensures forall u :: u in uris <==> u in uploaded && !uploaded[u]
    {
      uris := [];
      var rest := uploaded.Keys;
      while rest != {}
        invariant rest <= uploaded.Keys
        invariant forall u :: u in uris <==> u in uploaded && u !in rest && !uploaded[u]
        decreases rest
      {
        var u :| u in rest;
        rest := rest - {u};
        if !uploaded[u] { uris := uris + [u]; }
      }
    }
  }
}

/** Exporting and importing again. */
module ArchiveRoundTrip {
  import opened Bytes
  import opened Wrappers
  import opened Repository
  import opened ArchiveFormat
  import opened ArchiveWriting
  import opened ArchiveReading

  ghost predicate DifferentUris(files: seq<File>) {
    forall i, j | 0 <= i < j < |files| :: Uri(files[i]) != Uri(files[j])
  }

  ghost predicate DifferentNames(files: seq<File>) {
    forall i, j | 0 <= i < j < |files| :: ArchivedName(files[i]) != ArchivedName(files[j])
  }

  /** Different MXCs under different archived names. */
  ghost predicate Exportable(files: seq<File>) {
    DifferentUris(files) && DifferentNames(files)
  }

  function MxcOfFile(f: File): Mxc {
    Mxc(f.origin, f.mediaId)
  }

  /** A reader that has just found the manifest of these files. */
  ghost predicate Fresh(s: Importer, files: seq<File>) {
    && s.manifest.media == ManifestOf(files)
    && s.uploaded.Keys == s.manifest.media.Keys && (forall k | k in s.uploaded :: !s.uploaded[k])
    && Indexes(s.fileNamesToMxcs, s.manifest.media, s.manifest.media.Keys)
    && s.log == []
    && (forall f | f in files :: MxcOfFile(f) !in s.db)
  }

  /** What the options and the file's uploader allow. */
  predicate Importable(f: File, opts: Options) {
    !Foreign(RecordOf(f)) && !LockedOut(opts, Cleaned(RecordOf(f))) && !opts.checkUploadedOnly
  }

  function ResultOf(f: File): Imported {
    Imported(f.bytes, f.contentType, f.fileName, Cleaned(RecordOf(f)).uploader)
  }

  // ----- the manifest of the archive -----

  /** The manifest lists exactly these files. */
  ghost predicate Lists(media: map<string, ManifestRecord>, files: seq<File>) {
    && (forall f | f in files :: Uri(f) in media && media[Uri(f)] == RecordOf(f))
    && (forall k | k in media :: IsUriOf(k, files))
  }

  ghost predicate IsUriOf(u: string, files: seq<File>) {
    exists f :: f in files && u == Uri(f)
  }

  ghost predicate IsNameOf(n: string, files: seq<File>) {
    exists f :: f in files && n == ArchivedName(f)
  }

  lemma ListsGrow(media: map<string, ManifestRecord>, files: seq<File>, f: File, uri: string)
    requires Lists(media, files) && uri == Uri(f) && forall g | g in files :: Uri(g) != uri
    ensures Lists(media[uri := RecordOf(f)], files + [f])
  {
    var more := files + [f];
    assert f in more;
    forall k | k in media ensures IsUriOf(k, more) {
      var g :| g in files && k == Uri(g);
      assert g in more;
    }
  }

  lemma {:induction false} ManifestIsExact(files: seq<File>)
    requires DifferentUris(files)
    ensures Lists(ManifestOf(files), files)
  {
    if files != [] {
      var n := |files| - 1;
      var init, last := files[..n], files[n];
      NoneIsLast(files, init, last);
      ManifestIsExact(init);
      ListsGrow(ManifestOf(init), init, last, Uri(last));
    }
  }

  lemma NoneIsLast(files: seq<File>, init: seq<File>, last: File)
    requires files == init + [last] && DifferentUris(files)
    ensures DifferentUris(init) && forall f | f in init :: Uri(f) != Uri(last)
  {
    forall i, j | 0 <= i < j < |init| ensures Uri(init[i]) != Uri(init[j]) {
      assert files[i] == init[i] && files[j] == init[j];
    }
    forall f | f in init ensures Uri(f) != Uri(last) {
      var i :| 0 <= i < |init| && init[i] == f;
      assert files[i] == f && files[|init|] == last;
    }
  }

  lemma SameNameSameFile(files: seq<File>, f: File, g: File)
    requires Exportable(files) && f in files && g in files
    requires ArchivedName(f) == ArchivedName(g) || Uri(f) == Uri(g)
    ensures f == g
  {
    var i :| 0 <= i < |files| && files[i] == f;
    var j :| 0 <= j < |files| && files[j] == g;
    assert i == j;
  }

  lemma IndexIsSingle(names: map<string, seq<string>>, media: map<string, ManifestRecord>, files: seq<File>, f: File)
    requires Exportable(files) && Lists(media, files) && Indexes(names, media, media.Keys) && f in files
    ensures ArchivedName(f) in names && names[ArchivedName(f)] == [Uri(f)]
  {
    var uri, name := Uri(f), ArchivedName(f);
    assert media[uri].archivedName == name;
    var list := names[name];
    assert uri in list && NoRepeats(list);
    forall k | k in list ensures k == uri {
      assert media[k].archivedName == name;
      var g :| g in files && k == Uri(g);
      SameNameSameFile(files, f, g);
    }
    OnlyOne(list, uri);
  }

  lemma OnlyOne(list: seq<string>, x: string)
    requires x in list && NoRepeats(list) && forall k | k in list :: k == x
    ensures list == [x]
  {
    assert |list| > 1 ==> list[0] != list[1];
    forall i | 0 <= i < |list| ensures list[i] == x { assert list[i] in list; }
  }

  // ----- one entry at a time -----

  ghost predicate FileOk(s: Importer, f: File, finished: bool) {
    KeysOk(s, f, Uri(f), ArchivedName(f), finished)
  }

  ghost predicate KeysOk(s: Importer, f: File, uri: string, name: string, finished: bool) {
    && name in s.fileNamesToMxcs && s.fileNamesToMxcs[name] == [uri]
    && uri in s.manifest.media && s.manifest.media[uri] in {RecordOf(f), Cleaned(RecordOf(f))}
    && uri in s.uploaded && s.uploaded[uri] == finished
    && (if finished then MxcOfFile(f) in s.db && s.db[MxcOfFile(f)] == ResultOf(f) else MxcOfFile(f) !in s.db)
    && (uri in s.log <==> finished)
  }

  /** The files in `done` have passed by, and exactly the importable ones among them
      have been imported, each once. */
  ghost predicate Progress(s: Importer, files: seq<File>, done: set<File>, opts: Options) {
    && (forall f | f in files :: FileOk(s, f, f in done && Importable(f, opts)))
    && TablesOk(s, files)
  }

  ghost predicate TablesOk(s: Importer, files: seq<File>) {
    && (forall n | n in s.fileNamesToMxcs :: IsNameOf(n, files))
    && (forall u | u in s.uploaded :: IsUriOf(u, files))
    && NoRepeats(s.log)
  }

  /** At most the entries of one MXC differ. */
  ghost predicate OnlyTouches(s: Importer, t: Importer, uri: string, x: Mxc) {
    && t.fileNamesToMxcs == s.fileNamesToMxcs && t.uploaded.Keys == s.uploaded.Keys
    && (forall u | u in s.uploaded && u != uri :: t.uploaded[u] == s.uploaded[u])
    && (forall u | u != uri && u in s.manifest.media ::
          u in t.manifest.media && t.manifest.media[u] == s.manifest.media[u])
    && (forall y | y != x :: (y in t.db <==> y in s.db) && (y in s.db ==> t.db[y] == s.db[y]))
    && (t.log == s.log || (uri !in s.log && t.log == s.log + [uri]))
  }

  lemma ImportSingle(s: Importer, mxc: string, stream: seq<byte>, opts: Options)
    ensures ImportNames(s, [mxc], stream, opts) == ImportOne(s, mxc, stream, opts)
  {
    assert [mxc][..0] == [];
    assert ImportNames(s, [], stream, opts) == (s, stream);
  }

  lemma FileImports(s: Importer, f: File, finished: bool, opts: Options)
    requires FileOk(s, f, finished) && (finished ==> Importable(f, opts))
    ensures FileOk(ImportEntry(s, EntryOf(f), opts), f, Importable(f, opts))
    ensures OnlyTouches(s, ImportEntry(s, EntryOf(f), opts), Uri(f), MxcOfFile(f))
  {
    ImportSingle(s, Uri(f), f.bytes, opts);
  }

  lemma OtherFileStays(s: Importer, t: Importer, uri: string, x: Mxc, g: File, guri: string, name: string,
                       finished: bool)
    requires KeysOk(s, g, guri, name, finished) && OnlyTouches(s, t, uri, x) && guri != uri && MxcOfFile(g) != x
    ensures KeysOk(t, g, guri, name, finished)
  {}

  lemma TablesStay(s: Importer, t: Importer, files: seq<File>, uri: string, x: Mxc)
    requires TablesOk(s, files) && OnlyTouches(s, t, uri, x)
    ensures TablesOk(t, files)
  {}

  lemma FileAfterEntry(s: Importer, files: seq<File>, done: set<File>, f: File, opts: Options, g: File)
    requires Exportable(files) && f in files && g in files
    requires FileOk(s, f, f in done && Importable(f, opts)) && FileOk(s, g, g in done && Importable(g, opts))
    ensures FileOk(ImportEntry(s, EntryOf(f), opts), g, g in done + {f} && Importable(g, opts))
  {
    FileImports(s, f, f in done && Importable(f, opts), opts);
    if g != f {
      if Uri(g) == Uri(f) { SameNameSameFile(files, g, f); }
      OtherFileStays(s, ImportEntry(s, EntryOf(f), opts), Uri(f), MxcOfFile(f), g, Uri(g), ArchivedName(g),
                     g in done && Importable(g, opts));
    }
  }

  lemma EntryProgress(s: Importer, files: seq<File>, done: set<File>, f: File, opts: Options)
    requires Exportable(files) && Progress(s, files, done, opts) && f in files
    ensures Progress(ImportEntry(s, EntryOf(f), opts), files, done + {f}, opts)
  {
    var t := ImportEntry(s, EntryOf(f), opts);
    forall g | g in files ensures FileOk(t, g, g in done + {f} && Importable(g, opts)) {
      FileAfterEntry(s, files, done, f, opts, g);
    }
    FileImports(s, f, f in done && Importable(f, opts), opts);
    TablesStay(s, t, files, Uri(f), MxcOfFile(f));
  }

  ghost predicate FromArchive(e: Entry, files: seq<File>) {
    e.name == MANIFEST_NAME || e.name == INDEX_NAME || exists f :: f in files && e == EntryOf(f)
  }

  function Passed(files: seq<File>, entries: seq<Entry>): set<File> {
    set f | f in files && EntryOf(f) in entries
  }

  lemma PassedExtends(files: seq<File>, init: seq<Entry>, e: Entry)
    requires Exportable(files)
    ensures forall f | f in files && e == EntryOf(f) :: Passed(files, init + [e]) == Passed(files, init) + {f}
    ensures (forall f | f in files :: e != EntryOf(f)) ==> Passed(files, init + [e]) == Passed(files, init)
  {
    forall f, g | f in files && g in files && EntryOf(f) == EntryOf(g) ensures f == g { SameNameSameFile(files, f, g); }
  }

  /** The entries that are no files pass by without effect. */
  lemma OtherEntryIgnored(s: Importer, files: seq<File>, done: set<File>, e: Entry, opts: Options)
    requires Progress(s, files, done, opts) && (e.name == MANIFEST_NAME || e.name == INDEX_NAME)
    ensures ImportEntry(s, e, opts) == s
    ensures forall f | f in files :: e != EntryOf(f)
  {
    forall f | f in files ensures e.name != ArchivedName(f) { ArchivedNamesAreSpecial(f); }
  }

  lemma {:induction false} EntriesProgress(s: Importer, files: seq<File>, entries: seq<Entry>, opts: Options)
    requires Exportable(files) && Progress(s, files, {}, opts) && forall e | e in entries :: FromArchive(e, files)
    ensures Progress(ImportEntries(s, entries, opts), files, Passed(files, entries), opts)
    decreases |entries|
  {
    if entries == [] {
      assert Passed(files, entries) == {};
    } else {
      var n := |entries| - 1;
      var init, e := entries[..n], entries[n];
      assert entries == init + [e] && e in entries;
      EntriesProgress(s, files, init, opts);
      PassedExtends(files, init, e);
      var t := ImportEntries(s, init, opts);
      if e.name == MANIFEST_NAME || e.name == INDEX_NAME {
        OtherEntryIgnored(t, files, Passed(files, init), e, opts);
      } else {
        var f :| f in files && e == EntryOf(f);
        EntryProgress(t, files, Passed(files, init), f, opts);
      }
    }
  }

  lemma FreshFile(s: Importer, files: seq<File>, f: File)
    requires Exportable(files) && Fresh(s, files) && Lists(s.manifest.media, files) && f in files
    ensures FileOk(s, f, false)
  {
    IndexIsSingle(s.fileNamesToMxcs, s.manifest.media, files, f);
  }

  lemma FreshTables(s: Importer, files: seq<File>, names: map<string, seq<string>>, media: map<string, ManifestRecord>)
    requires Lists(media, files) && Indexes(names, media, media.Keys)
    requires s.fileNamesToMxcs == names && s.uploaded.Keys == media.Keys && s.log == []
    ensures TablesOk(s, files)
  {
    forall n | n in names ensures IsNameOf(n, files) {
      NameOfFile(names, media, files, n);
    }
  }

  lemma FreshIsProgress(s: Importer, files: seq<File>, opts: Options)
    requires Exportable(files) && Fresh(s, files)
    ensures Progress(s, files, {}, opts)
  {
    ManifestIsExact(files);
    forall f | f in files ensures FileOk(s, f, false) { FreshFile(s, files, f); }
    FreshTables(s, files, s.fileNamesToMxcs, s.manifest.media);
  }

  lemma NameOfFile(names: map<string, seq<string>>, media: map<string, ManifestRecord>, files: seq<File>, n: string)
    requires Lists(media, files) && Indexes(names, media, media.Keys) && n in names
    ensures IsNameOf(n, files)
  {
    var k := names[n][0];
    assert k in names[n] && media[k].archivedName == n;
    var f :| f in files && k == Uri(f);
    assert media[Uri(f)] == RecordOf(f);
  }

  // ----- whole archives -----

  function AllEntries(parts: seq<Part>): seq<Entry> {
    if parts == [] then [] else AllEntries(parts[..|parts| - 1]) + parts[|parts| - 1].entries
  }

  function ImportParts(s: Importer, parts: seq<Part>, opts: Options): Importer {
    if parts == [] then s
    else ImportEntries(ImportParts(s, parts[..|parts| - 1], opts), parts[|parts| - 1].entries, opts)
  }

  lemma {:induction false} ImportEntriesAppend(s: Importer, a: seq<Entry>, b: seq<Entry>, opts: Options)
    ensures ImportEntries(s, a + b, opts) == ImportEntries(ImportEntries(s, a, opts), b, opts)
    decreases |b|
  {
    if b == [] {
      assert a + b == a;
    } else {
      var n := |b| - 1;
      ImportEntriesAppend(s, a, b[..n], opts);
      assert (a + b)[..|a| + n] == a + b[..n];
    }
  }

  lemma {:induction false} PartsAreEntries(s: Importer, parts: seq<Part>, opts: Options)
    ensures ImportParts(s, parts, opts) == ImportEntries(s, AllEntries(parts), opts)
  {
    if parts != [] {
      var n := |parts| - 1;
      PartsAreEntries(s, parts[..n], opts);
      ImportEntriesAppend(s, AllEntries(parts[..n]), parts[n].entries, opts);
    }
  }

  lemma {:induction false} EntriesComeFromParts(parts: seq<Part>, e: Entry)
    ensures e in AllEntries(parts) <==> exists p :: p in parts && e in p.entries
  {
    if parts != [] {
      var n := |parts| - 1;
      EntriesComeFromParts(parts[..n], e);
      assert parts == parts[..n] + [parts[n]];
    }
  }

  lemma {:induction false} FlattenMembers(groups: seq<seq<File>>, f: File)
    ensures f in Flatten(groups) <==> exists g :: g in groups && f in g
  {
    if groups != [] {
      var n := |groups| - 1;
      FlattenMembers(groups[..n], f);
      assert groups == groups[..n] + [groups[n]];
    }
  }

  /** The entries of an archive are those of its files, the manifest and the index. */
  lemma ArchiveEntries(files: seq<File>, entity: string, partSize: int)
    ensures var parts := Archive(files, entity, partSize);
      && (forall p, e | p in parts && e in p.entries :: FromArchive(e, files))
      && (forall f | f in files :: exists i | 0 <= i < |parts| - 1 :: EntryOf(f) in parts[i].entries)
      && (forall i, e | 0 <= i < |parts| - 1 && e in parts[i].entries :: e.name != MANIFEST_NAME)
      && OneManifest(parts[|parts| - 1].entries)
  {
    PartsAreInOrder(files, entity, partSize);
    var parts := Archive(files, entity, partSize);
    var groups := Grouped(files, partSize).0 + [Grouped(files, partSize).1];
    forall i, e | 0 <= i < |parts| - 1 && e in parts[i].entries
      ensures (exists f :: f in files && e == EntryOf(f)) && e.name != MANIFEST_NAME
    {
      var k :| 0 <= k < |groups[i]| && e == EntryOf(groups[i][k]);
      FlattenMembers(groups, groups[i][k]);
      assert groups[i] in groups;
      ArchivedNamesAreSpecial(groups[i][k]);
    }
    forall f | f in files
      ensures exists i | 0 <= i < |parts| - 1 :: EntryOf(f) in parts[i].entries
    {
      FlattenMembers(groups, f);
      var i :| 0 <= i < |groups| && f in groups[i];
      var k :| 0 <= k < |groups[i]| && groups[i][k] == f;
      assert parts[i].entries[k] == EntryOf(f);
    }
  }

  // ----- what an import leaves alone -----

  predicate SameAt(a: map<Mxc, Imported>, b: map<Mxc, Imported>, x: Mxc) {
    (x in a <==> x in b) && (x in a ==> a[x] == b[x])
  }

  ghost predicate NotListed(s: Importer, x: Mxc) {
    forall k | k in s.manifest.media :: MxcOf(s.manifest.media[k]) != x
  }

  /** Nothing is logged that the manifest does not list, and an MXC that is not in the
      manifest is left alone. */
  ghost predicate Within(s: Importer, t: Importer, x: Mxc) {
    && t.manifest.media.Keys == s.manifest.media.Keys
    && (forall u | u in t.log :: u in s.log || u in s.manifest.media)
    && (NotListed(s, x) ==> NotListed(t, x) && SameAt(s.db, t.db, x))
  }

  lemma ImportOneKeepsMxcs(s: Importer, mxc: string, stream: seq<byte>, opts: Options)
    ensures var t := ImportOne(s, mxc, stream, opts).0;
      && t.manifest.media.Keys == s.manifest.media.Keys
      && forall k | k in s.manifest.media :: MxcOf(t.manifest.media[k]) == MxcOf(s.manifest.media[k])
  {}

  lemma ImportOneAdds(s: Importer, mxc: string, stream: seq<byte>, opts: Options)
    ensures var t := ImportOne(s, mxc, stream, opts).0;
      || (t.db == s.db && t.log == s.log)
      || (mxc in s.manifest.media && t.db.Keys == s.db.Keys + {MxcOf(s.manifest.media[mxc])} && t.log == s.log + [mxc]
          && forall x | x in s.db && x != MxcOf(s.manifest.media[mxc]) :: t.db[x] == s.db[x])
  {}

  lemma ImportOneWithin(s: Importer, mxc: string, stream: seq<byte>, opts: Options, x: Mxc)
    ensures Within(s, ImportOne(s, mxc, stream, opts).0, x)
  {
    ImportOneKeepsMxcs(s, mxc, stream, opts);
    ImportOneAdds(s, mxc, stream, opts);
  }

  lemma {:induction false} ImportNamesWithin(s: Importer, mxcs: seq<string>, stream: seq<byte>, opts: Options, x: Mxc)
    ensures Within(s, ImportNames(s, mxcs, stream, opts).0, x)
  {
    if mxcs != [] {
      var n := |mxcs| - 1;
      ImportNamesWithin(s, mxcs[..n], stream, opts, x);
      var (t, left) := ImportNames(s, mxcs[..n], stream, opts);
      ImportOneWithin(t, mxcs[n], left, opts, x);
    }
  }

  lemma {:induction false} ImportEntriesWithin(s: Importer, entries: seq<Entry>, opts: Options, x: Mxc)
    ensures Within(s, ImportEntries(s, entries, opts), x)
  {
    if entries != [] {
      var n := |entries| - 1;
      ImportEntriesWithin(s, entries[..n], opts, x);
      var t, e := ImportEntries(s, entries[..n], opts), entries[n];
      if e.name in t.fileNamesToMxcs { ImportNamesWithin(t, t.fileNamesToMxcs[e.name], Stream(e.body), opts, x); }
    }
  }

  ghost predicate IsMxcOf(x: Mxc, files: seq<File>) {
    exists f :: f in files && x == MxcOfFile(f)
  }

  /** Nothing but these files has been imported. */
  ghost predicate NothingElse(s: Importer, t: Importer, files: seq<File>) {
    && (forall u | u in t.log :: IsUriOf(u, files))
    && (forall x | !IsMxcOf(x, files) :: SameAt(s.db, t.db, x))
  }

  lemma OnlyFilesAreImported(s: Importer, files: seq<File>, entries: seq<Entry>, opts: Options)
    requires DifferentUris(files) && Fresh(s, files)
    ensures NothingElse(s, ImportEntries(s, entries, opts), files)
  {
    var t := ImportEntries(s, entries, opts);
    ManifestIsExact(files);
    forall u | u in t.log ensures IsUriOf(u, files) {
      ImportEntriesWithin(s, entries, opts, Mxc("", ""));
    }
    forall x | !IsMxcOf(x, files) ensures SameAt(s.db, t.db, x) {
      forall k | k in s.manifest.media ensures MxcOf(s.manifest.media[k]) != x {
        var f :| f in files && k == Uri(f);
        assert MxcOf(RecordOf(f)) == MxcOfFile(f);
      }
      ImportEntriesWithin(s, entries, opts, x);
    }
  }

  /** Nothing that is there is overwritten or forgotten, and a check imports nothing. */
  ghost predicate Keeps(s: Importer, t: Importer, opts: Options) {
    && (forall x | x in s.db :: x in t.db && t.db[x] == s.db[x])
    && (forall u | u in s.uploaded && s.uploaded[u] :: u in t.uploaded && t.uploaded[u])
    && s.log <= t.log
    && (opts.checkUploadedOnly ==> t.db == s.db && t.log == s.log)
  }

  lemma {:induction false} ImportNamesKeeps(s: Importer, mxcs: seq<string>, stream: seq<byte>, opts: Options)
    ensures Keeps(s, ImportNames(s, mxcs, stream, opts).0, opts)
  {
    if mxcs != [] { ImportNamesKeeps(s, mxcs[..|mxcs| - 1], stream, opts); }
  }

  /** Whatever an archive holds, an import only adds: media that is there stays as it is,
      and a run that is only to check what has been uploaded changes nothing. */
  lemma {:induction false} ImportsOnlyAdd(s: Importer, entries: seq<Entry>, opts: Options)
    ensures Keeps(s, ImportEntries(s, entries, opts), opts)
  {
    if entries != [] {
      var n := |entries| - 1;
      ImportsOnlyAdd(s, entries[..n], opts);
      var t, e := ImportEntries(s, entries[..n], opts), entries[n];
      if e.name in t.fileNamesToMxcs { ImportNamesKeeps(t, t.fileNamesToMxcs[e.name], Stream(e.body), opts); }
    }
  }

  /** Media that is there already is ticked off when its file comes by, in a check as well,
      and leaves the stream to the next MXC. */
  lemma KnownMediaIsTickedOff(s: Importer, f: File, opts: Options)
    requires FileOk(s.(db := s.db - {MxcOfFile(f)}), f, false) && MxcOfFile(f) in s.db
    requires Importable(f, opts.(checkUploadedOnly := false))
    ensures var t := ImportEntry(s, EntryOf(f), opts);
      && t.uploaded == s.uploaded[Uri(f) := true] && t.db == s.db && t.log == s.log
      && ImportOne(s, Uri(f), f.bytes, opts).1 == f.bytes
  {
    ImportSingle(s, Uri(f), f.bytes, opts);
  }

  // ----- archived names that collide -----

  /** Importing something else does not touch what is known about MXC `k`. */
  ghost predicate Leaves(s: Importer, t: Importer, k: string, x: Mxc) {
    && t.fileNamesToMxcs == s.fileNamesToMxcs
    && (k in s.manifest.media ==> k in t.manifest.media && t.manifest.media[k] == s.manifest.media[k])
    && (k in t.uploaded <==> k in s.uploaded) && (k in s.uploaded ==> t.uploaded[k] == s.uploaded[k])
    && SameAt(s.db, t.db, x)
  }

  lemma ImportOneLeaves(s: Importer, mxc: string, stream: seq<byte>, opts: Options, k: string, x: Mxc)
    requires k == MxcUri(x) && mxc != k
    ensures Leaves(s, ImportOne(s, mxc, stream, opts).0, k, x)
  {}

  lemma {:induction false} ImportNamesLeaves(s: Importer, mxcs: seq<string>, stream: seq<byte>, opts: Options,
                                             k: string, x: Mxc)
    requires k == MxcUri(x) && k !in mxcs
    ensures Leaves(s, ImportNames(s, mxcs, stream, opts).0, k, x)
  {
    if mxcs != [] {
      var n := |mxcs| - 1;
      ImportNamesLeaves(s, mxcs[..n], stream, opts, k, x);
      var (t, left) := ImportNames(s, mxcs[..n], stream, opts);
      ImportOneLeaves(t, mxcs[n], left, opts, k, x);
    }
  }

  /** The file is listed, allowed and not yet there. */
  ghost predicate Waiting(s: Importer, f: File, k: string, opts: Options) {
    && k == MxcUri(MxcOfFile(f)) && Importable(f, opts)
    && k in s.manifest.media && s.manifest.media[k] in {RecordOf(f), Cleaned(RecordOf(f))}
    && (k in s.uploaded ==> !s.uploaded[k])
    && MxcOfFile(f) !in s.db
  }

  /** The file has been imported without its bytes. */
  ghost predicate Hollow(s: Importer, f: File, k: string) {
    k in s.uploaded && s.uploaded[k] && MxcOfFile(f) in s.db && s.db[MxcOfFile(f)].bytes == []
  }

  lemma WaitingTakesTheStream(s: Importer, f: File, k: string, stream: seq<byte>, opts: Options)
    requires Waiting(s, f, k, opts)
    ensures var (t, left) := ImportOne(s, k, stream, opts);
      && left == [] && t.fileNamesToMxcs == s.fileNamesToMxcs
      && (stream == [] ==> Hollow(t, f, k))
  {}

  lemma HollowStays(s: Importer, f: File, k: string, mxc: string, stream: seq<byte>, opts: Options)
    requires Hollow(s, f, k) && k == MxcUri(MxcOfFile(f))
    ensures var t := ImportOne(s, mxc, stream, opts).0; Hollow(t, f, k) && t.fileNamesToMxcs == s.fileNamesToMxcs
  {
    if mxc != k { ImportOneLeaves(s, mxc, stream, opts, k, MxcOfFile(f)); }
  }

  lemma {:induction false} HollowStaysThrough(s: Importer, f: File, k: string, mxcs: seq<string>, stream: seq<byte>,
                                              opts: Options)
    requires Hollow(s, f, k) && k == MxcUri(MxcOfFile(f))
    ensures var t := ImportNames(s, mxcs, stream, opts).0; Hollow(t, f, k) && t.fileNamesToMxcs == s.fileNamesToMxcs
  {
    if mxcs != [] {
      var n := |mxcs| - 1;
      HollowStaysThrough(s, f, k, mxcs[..n], stream, opts);
      var (t, left) := ImportNames(s, mxcs[..n], stream, opts);
      HollowStays(t, f, k, mxcs[n], left, opts);
    }
  }

  /** The first MXC of a shared name takes the bytes, the second gets none. */
  lemma {:induction false} SecondGetsNothing(s: Importer, f: File, g: File, mxcs: seq<string>, stream: seq<byte>,
                                             opts: Options)
    requires |mxcs| >= 2 && mxcs[0] != mxcs[1] && Waiting(s, f, mxcs[0], opts) && Waiting(s, g, mxcs[1], opts)
    ensures var t := ImportNames(s, mxcs, stream, opts).0;
      Hollow(t, g, mxcs[1]) && t.fileNamesToMxcs == s.fileNamesToMxcs
    decreases |mxcs|
  {
    var n := |mxcs| - 1;
    var (t, left) := ImportNames(s, mxcs[..n], stream, opts);
    if n == 1 {
      assert mxcs[..1] == [mxcs[0]];
      ImportSingle(s, mxcs[0], stream, opts);
      WaitingTakesTheStream(s, f, mxcs[0], stream, opts);
      ImportOneLeaves(s, mxcs[0], stream, opts, mxcs[1], MxcOfFile(g));
      WaitingTakesTheStream(t, g, mxcs[1], left, opts);
    } else {
      SecondGetsNothing(s, f, g, mxcs[..n], stream, opts);
      HollowStays(t, g, mxcs[1], mxcs[n], left, opts);
    }
  }

  /** Two files head the list of the archived name `n`. */
  ghost predicate Collide(names: map<string, seq<string>>, n: string, f: File, g: File) {
    && n in names && |names[n]| >= 2 && names[n][0] == Uri(f) && names[n][1] == Uri(g) && Uri(f) != Uri(g)
    && (forall m | m in names && m != n :: Uri(f) !in names[m] && Uri(g) !in names[m])
  }

  lemma CollidingEntry(s: Importer, e: Entry, n: string, f: File, g: File, opts: Options)
    requires Collide(s.fileNamesToMxcs, n, f, g)
    ensures var t := ImportEntry(s, e, opts);
      && (Hollow(s, g, Uri(g)) ==> Hollow(t, g, Uri(g)) && t.fileNamesToMxcs == s.fileNamesToMxcs)
      && (Waiting(s, f, Uri(f), opts) && Waiting(s, g, Uri(g), opts) ==>
            && t.fileNamesToMxcs == s.fileNamesToMxcs
            && if e.name == n then Hollow(t, g, Uri(g)) else Waiting(t, f, Uri(f), opts) && Waiting(t, g, Uri(g), opts))
  {
    var names := s.fileNamesToMxcs;
    if e.name in names {
      var list, stream := names[e.name], Stream(e.body);
      if Hollow(s, g, Uri(g)) { HollowStaysThrough(s, g, Uri(g), list, stream, opts); }
      if Waiting(s, f, Uri(f), opts) && Waiting(s, g, Uri(g), opts) {
        if e.name == n {
          SecondGetsNothing(s, f, g, list, stream, opts);
        } else {
          ImportNamesLeaves(s, list, stream, opts, Uri(f), MxcOfFile(f));
          ImportNamesLeaves(s, list, stream, opts, Uri(g), MxcOfFile(g));
        }
      }
    }
  }

  /** Once an entry of the shared name has come by, the second file is hollow for good. */
  lemma {:induction false} CollidingEntries(s: Importer, entries: seq<Entry>, n: string, f: File, g: File,
                                            opts: Options)
    requires Collide(s.fileNamesToMxcs, n, f, g) && Waiting(s, f, Uri(f), opts) && Waiting(s, g, Uri(g), opts)
    ensures var t := ImportEntries(s, entries, opts);
      && t.fileNamesToMxcs == s.fileNamesToMxcs
      && if exists e :: e in entries && e.name == n then Hollow(t, g, Uri(g))
         else Waiting(t, f, Uri(f), opts) && Waiting(t, g, Uri(g), opts)
  {
    if entries != [] {
      var last := |entries| - 1;
      CollidingEntries(s, entries[..last], n, f, g, opts);
      CollidingEntry(ImportEntries(s, entries[..last], opts), entries[last], n, f, g, opts);
      assert entries == entries[..last] + [entries[last]];
    }
  }

  lemma FirstTwoOfAName(s: Importer, files: seq<File>, n: string, u: string, v: string) returns (f: File, g: File)
    requires DifferentUris(files) && Fresh(s, files) && u != v
    requires n in s.fileNamesToMxcs && u in s.fileNamesToMxcs[n] && v in s.fileNamesToMxcs[n]
    ensures f in files && g in files && ArchivedName(g) == n && Collide(s.fileNamesToMxcs, n, f, g)
  {
    ManifestIsExact(files);
    var names, media := s.fileNamesToMxcs, s.manifest.media;
    var a, b := names[n][0], names[n][1];
    assert a in names[n] && b in names[n];
    assert media[a].archivedName == n && media[b].archivedName == n;
    f :| f in files && a == Uri(f);
    g :| g in files && b == Uri(g);
    assert media[a] == RecordOf(f) && media[b] == RecordOf(g);
  }

  lemma FreshIsWaiting(s: Importer, files: seq<File>, f: File, opts: Options)
    requires DifferentUris(files) && Fresh(s, files) && f in files && Importable(f, opts)
    ensures Waiting(s, f, Uri(f), opts)
  {
    ManifestIsExact(files);
  }

  ghost predicate Arrived(t: Importer, f: File) {
    MxcOfFile(f) in t.db && t.db[MxcOfFile(f)] == ResultOf(f)
  }

  /** Export, find the manifest, then process parts in any order and any number of
      times, as long as every data part comes by. Each file is imported exactly once
      with its bytes, content type and name if it is importable at all, nothing is
      imported otherwise, and what is reported as not uploaded is exactly the rest. */
  lemma RoundTrip(files: seq<File>, entity: string, partSize: int, s: Importer, order: seq<Part>, opts: Options)
    requires Exportable(files) && Fresh(s, files)
    requires forall p | p in order :: p in Archive(files, entity, partSize)
    requires forall p | p in Archive(files, entity, partSize) && p.name != ExportManifest :: p in order
    ensures var t := ImportParts(s, order, opts);
      && (forall f | f in files :: FileOk(t, f, Importable(f, opts)))
      && NoRepeats(t.log)
      && NothingElse(s, t, files)
      && (forall u | u in t.uploaded && !t.uploaded[u] :: NotImportable(u, files, opts))
  {
    FreshIsProgress(s, files, opts);
    PartsAreEntries(s, order, opts);
    OnlyFilesAreImported(s, files, AllEntries(order), opts);
    AllPassed(files, Archive(files, entity, partSize), entity, partSize, order);
    EntriesProgress(s, files, AllEntries(order), opts);
    Settled(ImportParts(s, order, opts), files, Passed(files, AllEntries(order)), opts);
  }

  lemma Settled(t: Importer, files: seq<File>, done: set<File>, opts: Options)
    requires Progress(t, files, done, opts) && forall f | f in files :: f in done
    ensures forall f | f in files :: FileOk(t, f, Importable(f, opts))
    ensures forall u | u in t.uploaded && !t.uploaded[u] :: NotImportable(u, files, opts)
  {
    forall u | u in t.uploaded && !t.uploaded[u]
      ensures NotImportable(u, files, opts)
    {
      var f :| f in files && u == Uri(f);
      assert FileOk(t, f, Importable(f, opts));
    }
  }

  /** Every entry that comes by is the archive's, and every file comes by. */
  lemma AllPassed(files: seq<File>, parts: seq<Part>, entity: string, partSize: int, order: seq<Part>)
    requires parts == Archive(files, entity, partSize)
    requires forall p | p in order :: p in parts
    requires forall p | p in parts && p.name != ExportManifest :: p in order
    ensures forall e | e in AllEntries(order) :: FromArchive(e, files)
    ensures forall f | f in files :: f in Passed(files, AllEntries(order))
  {
    ArchiveEntries(files, entity, partSize);
    PartsAreInOrder(files, entity, partSize);
    forall e | e in AllEntries(order) ensures FromArchive(e, files) {
      EntriesComeFromParts(order, e);
    }
    forall f | f in files ensures f in Passed(files, AllEntries(order)) {
      var i :| 0 <= i < |parts| - 1 && EntryOf(f) in parts[i].entries;
      assert parts[i] in parts && parts[i] in order;
      EntriesComeFromParts(order, EntryOf(f));
    }
  }

  /** What the manifest of the archive says, file by file. */
  lemma ManifestSays(files: seq<File>, f: File)
    requires DifferentUris(files) && f in files
    ensures var uri := "mxc://" + f.origin + "/" + f.mediaId;
      uri in ManifestOf(files) && ManifestOf(files)[uri] == ManifestRecord(
        f.fileName, f.origin + "__" + f.mediaId + f.extension, |f.bytes|, f.contentType, f.origin, f.mediaId,
        f.createdTs, f.uploader)
    ensures forall k | k in ManifestOf(files) ::
      exists g: File :: g in files && k == "mxc://" + g.origin + "/" + g.mediaId
  {
    ManifestIsExact(files);
    forall k | k in ManifestOf(files)
      ensures exists g: File :: g in files && k == "mxc://" + g.origin + "/" + g.mediaId
    {
      assert IsUriOf(k, files);
    }
  }

  /** The file is in a data part, under the name the manifest gives, with its bytes. */
  lemma ArchiveHolds(files: seq<File>, entity: string, partSize: int, f: File)
    requires f in files
    ensures exists p :: p in Archive(files, entity, partSize) && p.name != ExportManifest
                        && Entry(f.origin + "__" + f.mediaId + f.extension, Data(f.bytes)) in p.entries
  {
    ArchiveEntries(files, entity, partSize);
    PartsAreInOrder(files, entity, partSize);
    var parts := Archive(files, entity, partSize);
    var i :| 0 <= i < |parts| - 1 && EntryOf(f) in parts[i].entries;
    assert parts[i] in parts;
  }

  /** What it takes to be imported: a real import; an uploader who, if that is a user ID at
      all, is a user of the MXC's server; and the locked user as the uploader, or the locked
      server as the origin, if there is a lock. */
  lemma ImportableIff(f: File, opts: Options)
    ensures Importable(f, opts) <==>
      && !opts.checkUploadedOnly
      && (IsUserId(f.uploader) ==> IsUserOn(f.uploader, f.origin))
      && (opts.lockedEntityId == ""
          || (if opts.lockedEntityId[0] == '@' then f.uploader == opts.lockedEntityId && IsUserId(f.uploader)
              else f.origin == opts.lockedEntityId))
  {
    ServerOfIff(f.uploader, f.origin);
  }

  /** What arrives: everything as it was, without an uploader that is no user ID. */
  lemma ArrivesAs(f: File)
    ensures ResultOf(f).bytes == f.bytes && ResultOf(f).contentType == f.contentType
      && ResultOf(f).fileName == f.fileName
    ensures ResultOf(f).uploader == if IsUserId(f.uploader) then f.uploader else ""
  {
    ServerOfIff(f.uploader, f.origin);
  }

  /** A file of a local user comes back with its uploader. */
  lemma LocalUploadersArrive(f: File, local: string)
    requires ':' !in local && f.uploader == "@" + local + ":" + f.origin
    ensures Importable(f, Options("", false)) && ResultOf(f).uploader == f.uploader
  {
    ServerOfUserId(local, f.origin);
  }

  /** With no lock and a real import, the uploader decides: it survives exactly when it
      is empty or a user of the MXC's server; anything that is not a user ID is dropped
      from the file; a user of another server keeps the file out. */
  lemma UploaderDecides(f: File)
    ensures var opts := Options("", false);
      && (Importable(f, opts) <==> !IsUserId(f.uploader) || IsUserOn(f.uploader, f.origin))
      && (Importable(f, opts) && ResultOf(f).uploader == f.uploader <==>
            f.uploader == "" || IsUserOn(f.uploader, f.origin))
  {
    ServerOfIff(f.uploader, f.origin);
    ImportableIff(f, Options("", false));
    ArrivesAs(f);
  }

  /** Why the archived names must differ: the stream is used up by the first MXC it is
      offered to, and the next one under the same name is imported empty. So for files
      that are all allowed and none of them empty, everything arrives if and only if no
      two archived names are the same. */
  lemma RoundTripIff(files: seq<File>, entity: string, partSize: int, s: Importer, order: seq<Part>, opts: Options)
    requires DifferentUris(files) && Fresh(s, files)
    requires forall f | f in files :: Importable(f, opts) && f.bytes != []
    requires forall p | p in order :: p in Archive(files, entity, partSize)
    requires forall p | p in Archive(files, entity, partSize) && p.name != ExportManifest :: p in order
    ensures (forall f | f in files :: Arrived(ImportParts(s, order, opts), f)) <==> DifferentNames(files)
  {
    var t := ImportParts(s, order, opts);
    if DifferentNames(files) {
      RoundTrip(files, entity, partSize, s, order, opts);
      forall f | f in files ensures Arrived(t, f) { assert FileOk(t, f, true); }
    } else {
      var i, j :| 0 <= i < j < |files| && ArchivedName(files[i]) == ArchivedName(files[j]);
      var g := SomethingIsHollow(files, entity, partSize, s, order, opts, files[i], files[j]);
      assert !Arrived(t, g);
    }
  }

  lemma SomethingIsHollow(files: seq<File>, entity: string, partSize: int, s: Importer, order: seq<Part>,
                          opts: Options, a: File, b: File)
    returns (g: File)
    requires DifferentUris(files) && Fresh(s, files) && forall f | f in files :: Importable(f, opts)
    requires forall p | p in order :: p in Archive(files, entity, partSize)
    requires forall p | p in Archive(files, entity, partSize) && p.name != ExportManifest :: p in order
    requires a in files && b in files && Uri(a) != Uri(b) && ArchivedName(a) == ArchivedName(b)
    ensures g in files && Hollow(ImportParts(s, order, opts), g, Uri(g))
  {
    var n, f := ArchivedName(a), a;
    ManifestIsExact(files);
    assert s.manifest.media[Uri(a)] == RecordOf(a) && s.manifest.media[Uri(b)] == RecordOf(b);
    f, g := FirstTwoOfAName(s, files, n, Uri(a), Uri(b));
    FreshIsWaiting(s, files, f, opts);
    FreshIsWaiting(s, files, g, opts);
    PartsAreEntries(s, order, opts);
    AllPassed(files, Archive(files, entity, partSize), entity, partSize, order);
    assert g in Passed(files, AllEntries(order)) && EntryOf(g).name == n;
    CollidingEntries(s, AllEntries(order), n, f, g, opts);
  }

  /** Such names are easy to come by: an extension that was part of one media ID is the
      detected extension of another. However the two files are exported and whatever
      the order of the parts, one of them does not come back. */
  lemma ExtensionsCollide(f: File, g: File, entity: string, partSize: int, s: Importer, order: seq<Part>, opts: Options)
    requires f.origin == g.origin && f.mediaId == "x.png" && f.extension == "" && g.mediaId == "x"
      && g.extension == ".png"
    requires f.bytes != [] && g.bytes != [] && Importable(f, opts) && Importable(g, opts) && Fresh(s, [f, g])
    requires forall p | p in order :: p in Archive([f, g], entity, partSize)
    requires forall p | p in Archive([f, g], entity, partSize) && p.name != ExportManifest :: p in order
    ensures !Arrived(ImportParts(s, order, opts), f) || !Arrived(ImportParts(s, order, opts), g)
  {
    var files := [f, g];
    assert ArchivedName(f) == f.origin + "__" + "x.png" && ArchivedName(g) == f.origin + "__" + "x.png";
    assert |Uri(f)| != |Uri(g)|;
    RoundTripIff(files, entity, partSize, s, order, opts);
    assert ArchivedName(files[0]) == ArchivedName(files[1]);
  }

  /** The part that holds the manifest, as the reader will see it. */
  lemma ManifestPartIsLast(files: seq<File>, entity: string, partSize: int)
    ensures var parts := Archive(files, entity, partSize);
      && |parts| >= 2
      && (forall i | 0 <= i < |parts| - 1 :: forall e | e in parts[i].entries :: e.name != MANIFEST_NAME)
      && OneManifest(parts[|parts| - 1].entries)
      && ManifestEntry(entity, files) in parts[|parts| - 1].entries
  {
    ArchiveEntries(files, entity, partSize);
    PartsAreInOrder(files, entity, partSize);
    var parts := Archive(files, entity, partSize);
    assert parts[|parts| - 1].entries[0] == ManifestEntry(entity, files);
  }

  method Export(files: seq<File>, entity: string, partSize: int) returns (parts: seq<Part>)
    ensures parts == Archive(files, entity, partSize)
  {
    var w := new ArchiveWriter(entity, partSize);
    for i := 0 to |files|
      invariant w.Holds(files[..i]) && w.entity == entity && w.partSize == partSize
      invariant fresh(w)
    {
      assert files[..i + 1] == files[..i] + [files[i]];
      w.AppendMedia(files[i], files[..i]);
    }
    assert files[..|files|] == files;
    w.Finish(files, 0, 0);
    parts := w.persisted;
  }

  /** Offers the parts to the reader until one of them has the manifest. */
  method FindManifest(r: ArchiveReader, parts: seq<Part>, ghost files: seq<File>, ghost entity: string,
                      ghost partSize: int) returns (found: bool)
    requires parts == Archive(files, entity, partSize) && r.Valid() && r.manifest.None? && r.log == []
    requires forall f | f in files :: MxcOfFile(f) !in r.db
    modifies r
    ensures found == r.manifest.Some? && (found <==> entity != "") && r.faults == old(r.faults)
    ensures r.db == old(r.db)
    ensures found ==> Fresh(r.State(), files)
  {
    ManifestPartIsLast(files, entity, partSize);
    found := false;
    for i := 0 to |parts|
      invariant r.Valid() && r.db == old(r.db) && r.log == [] && r.faults == old(r.faults)
      invariant !found && r.manifest.None?
      invariant i == |parts| ==> entity == ""
    {
      var ok;
      found, ok := r.TryGetManifestFrom(parts[i].entries);
      assert i < |parts| - 1 ==> !found;
      if found { return; }
    }
  }

  /** The reader has processed these parts since it was in state `s`. */
  ghost predicate Imports(r: ArchiveReader, s: Importer, order: seq<Part>, opts: Options)
    reads r
  {
    r.manifest.Some? && r.State() == ImportParts(s, order, opts) && Whole(r.State())
  }

  method ProcessNext(r: ArchiveReader, part: Part, opts: Options, ghost s: Importer, ghost order: seq<Part>)
    returns (ok: bool)
    requires Imports(r, s, order, opts)
    modifies r
    ensures r.faults >= old(r.faults) && (ok <==> r.faults == old(r.faults))
    ensures ok ==> Imports(r, s, order + [part], opts)
  {
    assert (order + [part])[..|order|] == order;
    ok := r.ProcessFile(part.entries, opts);
  }

  /** The whole way on the real objects: export, find the manifest, process any parts in
      any order, ask what is missing. Only a failed call can keep it from succeeding. */
  method ExportAndImport(files: seq<File>, entity: string, partSize: int, r: ArchiveReader, picks: seq<nat>,
                         opts: Options)
    returns (ok: bool, missing: seq<string>)
    requires Exportable(files) && entity != ""
    requires r.Valid() && r.manifest.None? && r.log == [] && forall f | f in files :: MxcOfFile(f) !in r.db
    requires forall p | p in picks :: p < |Archive(files, entity, partSize)|
    requires forall p: nat | p < |Archive(files, entity, partSize)| - 1 :: p in picks
    modifies r
    ensures ok <==> r.faults == old(r.faults)
    ensures ok ==>
      r.manifest.Some? && NoRepeats(r.log) && forall f | f in files :: FileOk(r.State(), f, Importable(f, opts))
    ensures ok ==> forall u :: u in missing <==> NotImportable(u, files, opts)
    ensures ok ==>
      (forall u | u in r.log :: IsUriOf(u, files)) && forall x | !IsMxcOf(x, files) :: SameAt(old(r.db), r.db, x)
  {
    missing := [];
    var parts := Export(files, entity, partSize);
    var found := FindManifest(r, parts, files, entity, partSize);
    ghost var s := r.State();
    ghost var order: seq<Part> := [];
    for i := 0 to |picks|
      invariant r.faults == old(r.faults) && Imports(r, s, order, opts)
      invariant |order| == i && forall k | 0 <= k < i :: picks[k] < |parts| && order[k] == parts[picks[k]]
    {
      assert picks[i] in picks;
      ok := ProcessNext(r, parts[picks[i]], opts, s, order);
      if !ok { return; }
      order := order + [parts[picks[i]]];
    }
    PicksCover(files, entity, partSize, parts, picks, order);
    RoundTrip(files, entity, partSize, s, order, opts);
    MissingAreLeft(r.State(), files, opts);
    missing := r.GetNotUploadedMxcUris();
    ok := true;
  }

  ghost predicate NotImportable(u: string, files: seq<File>, opts: Options) {
    exists f :: f in files && u == Uri(f) && !Importable(f, opts)
  }

  lemma MissingAreLeft(t: Importer, files: seq<File>, opts: Options)
    requires forall f | f in files :: FileOk(t, f, Importable(f, opts))
    requires forall u | u in t.uploaded && !t.uploaded[u] :: NotImportable(u, files, opts)
    ensures forall u :: u in t.uploaded && !t.uploaded[u] <==> NotImportable(u, files, opts)
  {
    forall u | NotImportable(u, files, opts) ensures u in t.uploaded && !t.uploaded[u] {
      var f :| f in files && u == Uri(f) && !Importable(f, opts);
      assert FileOk(t, f, Importable(f, opts));
    }
  }

  lemma PicksCover(files: seq<File>, entity: string, partSize: int, parts: seq<Part>, picks: seq<nat>, order: seq<Part>)
    requires parts == Archive(files, entity, partSize) && |order| == |picks|
    requires forall k | 0 <= k < |picks| :: picks[k] < |parts| && order[k] == parts[picks[k]]
    requires forall p: nat | p < |parts| - 1 :: p in picks
    ensures forall p | p in order :: p in parts
    ensures forall p | p in parts && p.name != ExportManifest :: p in order
  {
    PartsAreInOrder(files, entity, partSize);
    forall p | p in parts && p.name != ExportManifest ensures p in order {
      var i :| 0 <= i < |parts| && parts[i] == p;
      assert i in picks;
      var k :| 0 <= k < |picks| && picks[k] == i;
      assert order[k] == p;
    }
  }
}
