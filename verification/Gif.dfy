/** The pre-scan that decides whether a GIF is too expensive to animate
    (thumbnailing/i/gif.go), as functions of the stream and a position in it. */
module GifScan {
  import opened Wrappers
  import opened Bytes

  datatype Trouble = TooLarge | Broken

  /** Where in the stream the scanner is, how much it has counted, and what stopped it. */
  datatype State = State(pos: nat, read: int, trouble: Option<Trouble>)

  const MAX_FRAMES := 256

  const DEFAULT_PIXELS := 32000000

  datatype Limits = Limits(bytes: int, pixels: int)

  function Budget(limits: Limits): int {
    if limits.pixels <= 0 then DEFAULT_PIXELS else limits.pixels
  }

  function Min(a: nat, b: nat): nat {
    if a < b then a else b
  }

  /** Consumes up to `n` bytes, counting `counted`; the size limit is looked at first. */
  function Take(stream: seq<byte>, s: State, n: nat, counted: nat, limit: int): (t: State)
    requires s.pos <= |stream|
    ensures s.pos <= t.pos <= |stream|
  {
    var read := s.read + counted;
    State(s.pos + Min(n, |stream| - s.pos), read,
          if limit > 0 && read > limit then Some(TooLarge) else if |stream| - s.pos < n then Some(Broken) else None)
  }

  /** Counts the whole request even if the stream ends early. */
  function ReadFull(stream: seq<byte>, s: State, n: nat, limit: int): (t: State)
    requires s.pos <= |stream|
    ensures s.pos <= t.pos <= |stream|
  {
    Take(stream, s, n, n, limit)
  }

  /** Counts what was there. */
  function Skip(stream: seq<byte>, s: State, n: nat, limit: int): (t: State)
    requires s.pos <= |stream|
    ensures s.pos <= t.pos <= |stream|
  {
    Take(stream, s, n, Min(n, |stream| - s.pos), limit)
  }

  function SkipSubBlocks(stream: seq<byte>, s: State, limit: int): (t: State)
    requires s.pos <= |stream|
    ensures s.pos <= t.pos <= |stream|
    decreases |stream| - s.pos
  {
    var a := ReadFull(stream, s, 1, limit);
    if a.trouble.Some? || s.pos == |stream| || stream[s.pos] == 0 then a
    else
      var b := Skip(stream, a, stream[s.pos], limit);
      if b.trouble.Some? then b else SkipSubBlocks(stream, b, limit)
  }

  function Shl(k: nat): nat {
    if k == 0 then 1 else 2 * Shl(k - 1)
  }

  /** The size of the colour table announced by a packed field, and whether one is. */
  predicate HasTable(packed: byte) {
    packed >= 0x80
  }

  function TableBytes(packed: byte): nat {
    3 * Shl(packed % 8 + 1)
  }

  lemma TableBytesBound(packed: byte)
    ensures 6 <= TableBytes(packed) <= 768
  {
    assert Shl(1) == 2 && Shl(2) == 4 && Shl(3) == 8 && Shl(4) == 16;
    assert Shl(5) == 2 * Shl(4) && Shl(6) == 2 * Shl(5) && Shl(7) == 2 * Shl(6) && Shl(8) == 2 * Shl(7);
  }

  function MaybeSkipTable(stream: seq<byte>, s: State, packed: byte, limit: int): (t: State)
    requires s.pos <= |stream|
    ensures s.pos <= t.pos <= |stream|
  {
    if HasTable(packed) then Skip(stream, s, TableBytes(packed), limit) else s
  }

  datatype Verdict = TooComplex(end: State) | Acceptable(end: State) | Failed(end: State)

  /** The part of an image block that follows its descriptor. */
  function SkipImageData(stream: seq<byte>, s: State, packed: byte, limit: int): (t: State)
    requires s.pos <= |stream|
    ensures s.pos <= t.pos <= |stream|
  {
    var a := MaybeSkipTable(stream, s, packed, limit);
    if a.trouble.Some? then a
    else
      var b := Skip(stream, a, 1, limit);
      if b.trouble.Some? then b else SkipSubBlocks(stream, b, limit)
  }

  function SkipExtension(stream: seq<byte>, s: State, limit: int): (t: State)
    requires s.pos <= |stream|
    ensures s.pos <= t.pos <= |stream|
  {
    var a := Skip(stream, s, 1, limit);
    if a.trouble.Some? then a else SkipSubBlocks(stream, a, limit)
  }

  datatype Turn = Stop(verdict: Verdict) | Go(next: State, isFrame: bool)

  /** One block of the stream. */
  function NextBlock(stream: seq<byte>, s: State, frames: nat, pixels: int, canvas: nat, limits: Limits): (t: Turn)
    requires s.pos <= |stream|
    ensures t.Go? ==> t.next.trouble.None? && s.pos < t.next.pos <= |stream|
    ensures t.Stop? ==> t.verdict.end.pos <= |stream|
  {
    var a := ReadFull(stream, s, 1, limits.bytes);
    if a.trouble.Some? || s.pos == |stream| then Stop(Failed(a))
    else if stream[s.pos] == 0x2c then
      var d := ReadFull(stream, a, 9, limits.bytes);
      if d.trouble.Some? || |stream| - a.pos < 9 then Stop(Failed(d))
      else if frames + 1 > MAX_FRAMES || pixels + canvas > Budget(limits) then Stop(TooComplex(d))
      else
        var b := SkipImageData(stream, d, stream[a.pos + 8], limits.bytes);
        if b.trouble.Some? then Stop(Failed(b)) else Go(b, true)
    else if stream[s.pos] == 0x21 then
      var b := SkipExtension(stream, a, limits.bytes);
      if b.trouble.Some? then Stop(Failed(b)) else Go(b, false)
    else if stream[s.pos] == 0x3b then Stop(Acceptable(a))
    else Stop(Failed(a.(trouble := Some(Broken))))
  }

  function ScanBlocks(stream: seq<byte>, s: State, frames: nat, pixels: int, canvas: nat, limits: Limits): Verdict
    requires s.pos <= |stream|
    decreases |stream| - s.pos
  {
    match NextBlock(stream, s, frames, pixels, canvas, limits)
    case Stop(v) => v
    case Go(b, isFrame) =>
      if isFrame then ScanBlocks(stream, b, frames + 1, pixels + canvas, canvas, limits)
      else ScanBlocks(stream, b, frames, pixels, canvas, limits)
  }

  lemma ScanUnfolds(stream: seq<byte>, s: State, frames: nat, pixels: int, canvas: nat, limits: Limits)
    requires s.pos <= |stream|
    ensures ScanBlocks(stream, s, frames, pixels, canvas, limits) ==
      match NextBlock(stream, s, frames, pixels, canvas, limits)
      case Stop(v) => v
      case Go(b, isFrame) =>
        ScanBlocks(stream, b, if isFrame then frames + 1 else frames, if isFrame then pixels + canvas else pixels,
                   canvas, limits)
  {}

  function LittleEndian(lo: byte, hi: byte): nat {
    lo + 256 * hi
  }

  function Canvas(header: seq<byte>): nat
    requires |header| >= 13
  {
    LittleEndian(header[6], header[7]) * LittleEndian(header[8], header[9])
  }

  predicate IsGif(header: seq<byte>)
    requires |header| >= 13
  {
    header[0] == 0x47 && header[1] == 0x49 && header[2] == 0x46
  }

  function Scan(stream: seq<byte>, limits: Limits): Verdict {
    var a := ReadFull(stream, State(0, 0, None), 13, limits.bytes);
    if a.trouble.Some? || |stream| < 13 then Failed(a)
    else if !IsGif(stream) then Failed(a.(trouble := Some(Broken)))
    else
      var b := MaybeSkipTable(stream, a, stream[10], limits.bytes);
      if b.trouble.Some? then Failed(b) else ScanBlocks(stream, b, 0, 0, Canvas(stream), limits)
  }

  /** The guard's decision: a still frame for what is too complex or too large, the
      normal decoder for everything else, including streams it cannot follow. */
  predicate FallsBack(v: Verdict) {
    v.TooComplex? || (v.Failed? && v.end.trouble == Some(TooLarge))
  }

  // ----- any stream at all: how far the scanner reads -----

  /** What a step leaves: everything counted and within the limit, or stopped no further
      than one request past the limit. */
  ghost predicate Tame(t: State, limit: int) {
    if t.trouble.None? then t.read == t.pos <= limit else t.pos <= limit + 768
  }

  lemma TakeIsTame(stream: seq<byte>, s: State, n: nat, counted: nat, limit: int)
    requires s.pos <= |stream| && limit > 0 && s.trouble.None? && Tame(s, limit)
    requires n <= 768 && Min(n, |stream| - s.pos) <= counted <= n
    ensures Tame(Take(stream, s, n, counted, limit), limit)
  {}

  lemma {:induction false} SubBlocksAreTame(stream: seq<byte>, s: State, limit: int)
    requires s.pos <= |stream| && limit > 0 && s.trouble.None? && Tame(s, limit)
    ensures Tame(SkipSubBlocks(stream, s, limit), limit)
    decreases |stream| - s.pos
  {
    TakeIsTame(stream, s, 1, 1, limit);
    var a := ReadFull(stream, s, 1, limit);
    if a.trouble.None? && stream[s.pos] != 0 {
      TakeIsTame(stream, a, stream[s.pos], Min(stream[s.pos], |stream| - a.pos), limit);
      var b := Skip(stream, a, stream[s.pos], limit);
      if b.trouble.None? { SubBlocksAreTame(stream, b, limit); }
    }
  }

  lemma SkipsAreTame(stream: seq<byte>, s: State, packed: byte, limit: int)
    requires s.pos <= |stream| && limit > 0 && s.trouble.None? && Tame(s, limit)
    ensures Tame(MaybeSkipTable(stream, s, packed, limit), limit)
    ensures Tame(SkipImageData(stream, s, packed, limit), limit)
    ensures Tame(SkipExtension(stream, s, limit), limit)
  {
    TableBytesBound(packed);
    TakeIsTame(stream, s, TableBytes(packed), Min(TableBytes(packed), |stream| - s.pos), limit);
    var a := MaybeSkipTable(stream, s, packed, limit);
    if a.trouble.None? {
      TakeIsTame(stream, a, 1, Min(1, |stream| - a.pos), limit);
      if Skip(stream, a, 1, limit).trouble.None? { SubBlocksAreTame(stream, Skip(stream, a, 1, limit), limit); }
    }
    TakeIsTame(stream, s, 1, Min(1, |stream| - s.pos), limit);
    if Skip(stream, s, 1, limit).trouble.None? { SubBlocksAreTame(stream, Skip(stream, s, 1, limit), limit); }
  }

  lemma ImageIsTame(stream: seq<byte>, a: State, limit: int)
    requires a.pos <= |stream| && limit > 0 && a.trouble.None? && Tame(a, limit)
    ensures var d := ReadFull(stream, a, 9, limit);
      Tame(d, limit) && (d.trouble.None? ==> Tame(SkipImageData(stream, d, stream[a.pos + 8], limit), limit))
  {
    TakeIsTame(stream, a, 9, 9, limit);
    var d := ReadFull(stream, a, 9, limit);
    if d.trouble.None? { SkipsAreTame(stream, d, stream[a.pos + 8], limit); }
  }

  lemma NextBlockIsTame(stream: seq<byte>, s: State, frames: nat, pixels: int, canvas: nat, limits: Limits)
    requires s.pos <= |stream| && limits.bytes > 0 && s.trouble.None? && Tame(s, limits.bytes)
    ensures match NextBlock(stream, s, frames, pixels, canvas, limits)
      case Stop(v) => v.end.pos <= limits.bytes + 768
      case Go(b, _) => Tame(b, limits.bytes)
  {
    var limit := limits.bytes;
    TakeIsTame(stream, s, 1, 1, limit);
    var a := ReadFull(stream, s, 1, limit);
    if a.trouble.None? {
      if stream[s.pos] == 0x2c {
        ImageIsTame(stream, a, limit);
      } else if stream[s.pos] == 0x21 {
        SkipsAreTame(stream, a, 0, limit);
      }
    }
  }

  lemma {:induction false} BlocksAreTame(stream: seq<byte>, s: State, frames: nat, pixels: int, canvas: nat,
                                         limits: Limits)
    requires s.pos <= |stream| && limits.bytes > 0 && s.trouble.None? && Tame(s, limits.bytes)
    ensures ScanBlocks(stream, s, frames, pixels, canvas, limits).end.pos <= limits.bytes + 768
    decreases |stream| - s.pos
  {
    NextBlockIsTame(stream, s, frames, pixels, canvas, limits);
    match NextBlock(stream, s, frames, pixels, canvas, limits)
    case Stop(_) =>
    case Go(b, isFrame) =>
      if isFrame {
        BlocksAreTame(stream, b, frames + 1, pixels + canvas, canvas, limits);
      } else {
        BlocksAreTame(stream, b, frames, pixels, canvas, limits);
      }
  }

  /** For every stream, well-formed or not, a positive size limit bounds what the scan
      pulls from it, to within one colour table. */
  lemma ScanIsBounded(stream: seq<byte>, limits: Limits)
    requires limits.bytes > 0
    ensures Scan(stream, limits).end.pos <= limits.bytes + 768
  {
    var s := State(0, 0, None);
    TakeIsTame(stream, s, 13, 13, limits.bytes);
    var a := ReadFull(stream, s, 13, limits.bytes);
    if a.trouble.None? && IsGif(stream) {
      SkipsAreTame(stream, a, stream[10], limits.bytes);
      var b := MaybeSkipTable(stream, a, stream[10], limits.bytes);
      if b.trouble.None? { BlocksAreTame(stream, b, 0, 0, Canvas(stream), limits); }
    }
  }
}

/** What more bytes can change: nothing, once the scan has fallen back. */
module GifPrefixes {
  import opened Wrappers
  import opened Bytes
  import opened GifScan

  /** The scan of a prefix is where the scan of the whole stream is, or has run into the
      same limit, or into the end of the prefix. */
  ghost predicate Follows(a: State, b: State) {
    match a.trouble
    case None => b == a
    case Some(TooLarge) => b.trouble == Some(TooLarge)
    case Some(Broken) => true
  }

  lemma TakeFollows(p: seq<byte>, s: seq<byte>, at: State, n: nat, limit: int)
    requires p <= s && at.pos <= |p|
    ensures Follows(ReadFull(p, at, n, limit), ReadFull(s, at, n, limit))
    ensures Follows(Skip(p, at, n, limit), Skip(s, at, n, limit))
  {}

  lemma {:induction false} SubBlocksFollow(p: seq<byte>, s: seq<byte>, at: State, limit: int)
    requires p <= s && at.pos <= |p|
    ensures Follows(SkipSubBlocks(p, at, limit), SkipSubBlocks(s, at, limit))
    decreases |p| - at.pos
  {
    TakeFollows(p, s, at, 1, limit);
    var a := ReadFull(p, at, 1, limit);
    if a.trouble.None? && p[at.pos] != 0 {
      TakeFollows(p, s, a, p[at.pos], limit);
      var b := Skip(p, a, p[at.pos], limit);
      if b.trouble.None? { SubBlocksFollow(p, s, b, limit); }
    }
  }

  lemma SkipsFollow(p: seq<byte>, s: seq<byte>, at: State, packed: byte, limit: int)
    requires p <= s && at.pos <= |p| && at.trouble.None?
    ensures Follows(MaybeSkipTable(p, at, packed, limit), MaybeSkipTable(s, at, packed, limit))
    ensures Follows(SkipImageData(p, at, packed, limit), SkipImageData(s, at, packed, limit))
    ensures Follows(SkipExtension(p, at, limit), SkipExtension(s, at, limit))
  {
    TakeFollows(p, s, at, TableBytes(packed), limit);
    var a := MaybeSkipTable(p, at, packed, limit);
    TakeFollows(p, s, a, 1, limit);
    SubBlocksFollow(p, s, Skip(p, a, 1, limit), limit);
    TakeFollows(p, s, at, 1, limit);
    SubBlocksFollow(p, s, Skip(p, at, 1, limit), limit);
  }

  ghost predicate TurnFollows(a: Turn, b: Turn) {
    if a.Go? then b == a else FallsBack(a.verdict) ==> b.Stop? && FallsBack(b.verdict)
  }

  lemma ImageFollows(p: seq<byte>, s: seq<byte>, at: State, frames: nat, pixels: int, canvas: nat, limits: Limits)
    requires p <= s && at.pos < |p| && at.trouble.None? && p[at.pos] == 0x2c
    requires ReadFull(p, at, 1, limits.bytes).trouble.None?
    ensures TurnFollows(NextBlock(p, at, frames, pixels, canvas, limits),
                        NextBlock(s, at, frames, pixels, canvas, limits))
  {
    var a := ReadFull(p, at, 1, limits.bytes);
    TakeFollows(p, s, at, 1, limits.bytes);
    TakeFollows(p, s, a, 9, limits.bytes);
    var d := ReadFull(p, a, 9, limits.bytes);
    if d.trouble.None? { SkipsFollow(p, s, d, p[a.pos + 8], limits.bytes); }
  }

  lemma BlockFollows(p: seq<byte>, s: seq<byte>, at: State, frames: nat, pixels: int, canvas: nat, limits: Limits)
    requires p <= s && at.pos <= |p| && at.trouble.None?
    ensures TurnFollows(NextBlock(p, at, frames, pixels, canvas, limits),
                        NextBlock(s, at, frames, pixels, canvas, limits))
  {
    TakeFollows(p, s, at, 1, limits.bytes);
    var a := ReadFull(p, at, 1, limits.bytes);
    if a.trouble.None? {
      if p[at.pos] == 0x2c {
        ImageFollows(p, s, at, frames, pixels, canvas, limits);
      } else {
        SkipsFollow(p, s, a, 0, limits.bytes);
      }
    }
  }

  lemma {:induction false} BlocksFollow(p: seq<byte>, s: seq<byte>, at: State, frames: nat, pixels: int, canvas: nat,
                                        limits: Limits)
    requires p <= s && at.pos <= |p| && at.trouble.None?
    requires FallsBack(ScanBlocks(p, at, frames, pixels, canvas, limits))
    ensures FallsBack(ScanBlocks(s, at, frames, pixels, canvas, limits))
    decreases |p| - at.pos
  {
    BlockFollows(p, s, at, frames, pixels, canvas, limits);
    ScanUnfolds(p, at, frames, pixels, canvas, limits);
    ScanUnfolds(s, at, frames, pixels, canvas, limits);
    match NextBlock(p, at, frames, pixels, canvas, limits)
    case Stop(_) =>
    case Go(b, isFrame) =>
      BlocksFollow(p, s, b, if isFrame then frames + 1 else frames, if isFrame then pixels + canvas else pixels, canvas,
                   limits);
  }

  /** For every stream: wherever it is cut off, a stream that falls back as far as it goes
      falls back as a whole. A cut can make the guard miss a reason, but not invent one. */
  lemma PrefixesFallBackLess(p: seq<byte>, s: seq<byte>, limits: Limits)
    requires p <= s && FallsBack(Scan(p, limits))
    ensures FallsBack(Scan(s, limits))
  {
    var start := State(0, 0, None);
    TakeFollows(p, s, start, 13, limits.bytes);
    var a := ReadFull(p, start, 13, limits.bytes);
    if a.trouble.None? && IsGif(p) {
      SkipsFollow(p, s, a, p[10], limits.bytes);
      var b := MaybeSkipTable(p, a, p[10], limits.bytes);
      if b.trouble.None? { BlocksFollow(p, s, b, 0, 0, Canvas(p), limits); }
    }
  }
}

/** Well-formed block streams (sections 15, 18, 20, 24 and 27 of the GIF89a
    specification) and what the scan makes of them. */
module GifFormat {
  import opened Wrappers
  import opened Bytes
  import opened GifScan

  datatype Block =
    | Image(descriptor: seq<byte>, table: seq<byte>, codeSize: byte, data: seq<seq<byte>>)
    | Extension(label_: byte, data: seq<seq<byte>>)

  datatype Gif = Gif(header: seq<byte>, table: seq<byte>, blocks: seq<Block>)

  predicate SubBlocksOk(data: seq<seq<byte>>) {
    forall d | d in data :: 1 <= |d| <= 255
  }

  /** How long a colour table the packed field announces: none without the top bit, and
      otherwise three bytes for each of 2 to 256 colours. */
  function TableLength(packed: byte): nat {
    if packed < 128 then 0 else [6, 12, 24, 48, 96, 192, 384, 768][packed % 8]
  }

  lemma TableLengthIsSkipped(packed: byte)
    ensures TableLength(packed) == if HasTable(packed) then TableBytes(packed) else 0
  {
    assert Shl(1) == 2 && Shl(2) == 4 && Shl(3) == 8 && Shl(4) == 16;
    assert Shl(5) == 2 * Shl(4) && Shl(6) == 2 * Shl(5) && Shl(7) == 2 * Shl(6) && Shl(8) == 2 * Shl(7);
  }

  predicate TableOk(table: seq<byte>, packed: byte) {
    |table| == TableLength(packed)
  }

  /** The stream begins with the letters GIF. */
  predicate SignedGif(stream: seq<byte>) {
    [71, 73, 70] <= stream
  }

  predicate BlockOk(b: Block) {
    match b
    case Image(descriptor, table, _, data) => |descriptor| == 9 && TableOk(table, descriptor[8]) && SubBlocksOk(data)
    case Extension(_, data) => SubBlocksOk(data)
  }

  predicate GifOk(g: Gif) {
    |g.header| == 13 && SignedGif(g.header) && TableOk(g.table, g.header[10]) && forall b | b in g.blocks :: BlockOk(b)
  }

  // ----- writing -----

  function WriteSubBlocks(out: seq<byte>, data: seq<seq<byte>>): seq<byte>
    requires SubBlocksOk(data)
    decreases |data|
  {
    if data == [] then out + [0]
    else
      assert data[0] in data;
      WriteSubBlocks(out + [|data[0]|] + data[0], data[1..])
  }

  function WriteBlock(out: seq<byte>, b: Block): seq<byte>
    requires BlockOk(b)
  {
    match b
    case Image(descriptor, table, codeSize, data) =>
      WriteSubBlocks(out + [0x2c] + descriptor + table + [codeSize], data)
    case Extension(label_, data) => WriteSubBlocks(out + [0x21] + [label_], data)
  }

  function WriteBlocks(out: seq<byte>, bs: seq<Block>): seq<byte>
    requires forall b | b in bs :: BlockOk(b)
    decreases |bs|
  {
    if bs == [] then out + [0x3b]
    else
      assert bs[0] in bs;
      WriteBlocks(WriteBlock(out, bs[0]), bs[1..])
  }

  /** Header, global colour table, blocks and trailer. */
  function Encode(g: Gif): seq<byte>
    requires GifOk(g)
  {
    WriteBlocks(g.header + g.table, g.blocks)
  }

  function Frames(bs: seq<Block>): nat {
    if bs == [] then 0 else (if bs[0].Image? then 1 else 0) + Frames(bs[1..])
  }

  // ----- what is where in a stream -----

  ghost predicate Extends(s: seq<byte>, t: seq<byte>) {
    |s| <= |t| && forall i | 0 <= i < |s| :: t[i] == s[i]
  }

  lemma ExtendsTrans(s: seq<byte>, t: seq<byte>, u: seq<byte>)
    requires Extends(s, t) && Extends(t, u)
    ensures Extends(s, u)
  {}

  /** From `pos` to `end` there is a chain of sub-blocks of these sizes. */
  ghost predicate ChainAt(stream: seq<byte>, data: seq<seq<byte>>, pos: nat, end: nat) {
    if data == [] then pos < |stream| && stream[pos] == 0 && end == pos + 1
    else
      && 0 < |data[0]| && pos + 1 + |data[0]| <= |stream| && stream[pos] == |data[0]|
      && ChainAt(stream, data[1..], pos + 1 + |data[0]|, end)
  }

  lemma {:induction false} ChainStays(s: seq<byte>, t: seq<byte>, data: seq<seq<byte>>, pos: nat, end: nat)
    requires ChainAt(s, data, pos, end) && Extends(s, t)
    ensures ChainAt(t, data, pos, end)
    decreases |data|
  {
    if data != [] { ChainStays(s, t, data[1..], pos + 1 + |data[0]|, end); }
  }

  lemma {:induction false} ChainIsWritten(out: seq<byte>, data: seq<seq<byte>>)
    requires SubBlocksOk(data)
    ensures Extends(out, WriteSubBlocks(out, data))
    ensures ChainAt(WriteSubBlocks(out, data), data, |out|, |WriteSubBlocks(out, data)|)
    decreases |data|
  {
    if data != [] {
      var d := data[0];
      assert d in data;
      var next := out + [|d|] + d;
      ChainIsWritten(next, data[1..]);
      assert next[|out|] == |d|;
      ExtendsTrans(out, next, WriteSubBlocks(next, data[1..]));
    }
  }

  /** From `pos` to `end` there is such a block. */
  ghost predicate BlockAt(stream: seq<byte>, b: Block, pos: nat, end: nat) {
    match b
    case Image(descriptor, table, _, data) =>
      && pos + 10 + |table| < |stream| && stream[pos] == 0x2c && |descriptor| == 9 && stream[pos + 9] == descriptor[8]
      && TableOk(table, descriptor[8]) && ChainAt(stream, data, pos + 11 + |table|, end)
    case Extension(_, data) => pos + 1 < |stream| && stream[pos] == 0x21 && ChainAt(stream, data, pos + 2, end)
  }

  lemma BlockStays(s: seq<byte>, t: seq<byte>, b: Block, pos: nat, end: nat)
    requires BlockAt(s, b, pos, end) && Extends(s, t)
    ensures BlockAt(t, b, pos, end)
  {
    ChainStays(s, t, b.data, if b.Image? then pos + 11 + |b.table| else pos + 2, end);
  }

  lemma ImageHead(out: seq<byte>, descriptor: seq<byte>, table: seq<byte>, codeSize: byte)
    requires |descriptor| == 9
    ensures var head := out + [0x2c] + descriptor + table + [codeSize];
      |head| == |out| + 11 + |table| && head[|out|] == 0x2c && head[|out| + 9] == descriptor[8] && Extends(out, head)
  {}

  lemma BlockIsWritten(out: seq<byte>, b: Block)
    requires BlockOk(b)
    ensures Extends(out, WriteBlock(out, b)) && BlockAt(WriteBlock(out, b), b, |out|, |WriteBlock(out, b)|)
  {
    var head := if b.Image? then out + [0x2c] + b.descriptor + b.table + [b.codeSize] else out + [0x21] + [b.label_];
    if b.Image? { ImageHead(out, b.descriptor, b.table, b.codeSize); }
    ChainIsWritten(head, b.data);
    ChainIsLonger(WriteBlock(out, b), b.data, |head|, |WriteBlock(out, b)|);
    ExtendsTrans(out, head, WriteBlock(out, b));
  }

  /** Nothing is left, or something that is neither an image nor an extension comes: the
      trailer, as a rule. */
  predicate NoMoreBlocks(stream: seq<byte>, pos: nat) {
    pos == |stream| || (pos < |stream| && stream[pos] !in {0x2c, 0x21})
  }

  /** From `pos` to the byte before `end` there are these blocks, and no more. */
  ghost predicate BlocksAt(stream: seq<byte>, bs: seq<Block>, pos: nat, end: nat) {
    if bs == [] then NoMoreBlocks(stream, pos) && end == pos + 1
    else exists mid: nat :: BlockAt(stream, bs[0], pos, mid) && BlocksAt(stream, bs[1..], mid, end)
  }

  lemma {:induction false} BlocksStay(s: seq<byte>, t: seq<byte>, bs: seq<Block>, pos: nat, end: nat)
    requires BlocksAt(s, bs, pos, end) && Extends(s, t) && end <= |s|
    ensures BlocksAt(t, bs, pos, end)
    decreases |bs|
  {
    if bs != [] {
      var mid: nat :| BlockAt(s, bs[0], pos, mid) && BlocksAt(s, bs[1..], mid, end);
      BlockStays(s, t, bs[0], pos, mid);
      BlocksStay(s, t, bs[1..], mid, end);
    }
  }

  lemma {:induction false} BlocksAreWritten(out: seq<byte>, bs: seq<Block>)
    requires forall b | b in bs :: BlockOk(b)
    ensures Extends(out, WriteBlocks(out, bs)) && BlocksAt(WriteBlocks(out, bs), bs, |out|, |WriteBlocks(out, bs)|)
    decreases |bs|
  {
    if bs != [] {
      assert bs[0] in bs;
      var next, all := WriteBlock(out, bs[0]), WriteBlocks(out, bs);
      BlockIsWritten(out, bs[0]);
      BlocksAreWritten(next, bs[1..]);
      BlockStays(next, all, bs[0], |out|, |next|);
      ExtendsTrans(out, next, all);
    }
  }

  // ----- scanning what is there -----

  predicate Over(read: int, n: nat, limit: int) {
    limit > 0 && read + n > limit
  }

  /** `t` is what scanning exactly the bytes up to `end` must give: the size limit stops
      the scan if it falls within them, otherwise they are behind it. */
  ghost predicate Passed(t: State, pos: nat, end: nat, read: int, limit: int)
    requires pos <= end
  {
    if Over(read, end - pos, limit) then t.trouble == Some(TooLarge) else t == State(end, read + (end - pos), None)
  }

  lemma TakePasses(stream: seq<byte>, pos: nat, n: nat, read: int, limit: int)
    requires pos + n <= |stream|
    ensures Passed(ReadFull(stream, State(pos, read, None), n, limit), pos, pos + n, read, limit)
    ensures Passed(Skip(stream, State(pos, read, None), n, limit), pos, pos + n, read, limit)
  {}

  /** One sub-block, whatever comes after it. */
  lemma OneSubBlock(stream: seq<byte>, pos: nat, n: nat, read: int, limit: int)
    requires pos + 1 + n <= |stream| && n > 0 && stream[pos] == n
    ensures var t := SkipSubBlocks(stream, State(pos, read, None), limit);
      if Over(read, 1 + n, limit) then t.trouble == Some(TooLarge)
      else t == SkipSubBlocks(stream, State(pos + 1 + n, read + 1 + n, None), limit)
  {
    TakePasses(stream, pos, 1, read, limit);
    TakePasses(stream, pos + 1, n, read + 1, limit);
  }

  lemma {:induction false} ChainIsLonger(stream: seq<byte>, data: seq<seq<byte>>, pos: nat, end: nat)
    requires ChainAt(stream, data, pos, end)
    ensures pos < end <= |stream|
    decreases |data|
  {
    if data != [] { ChainIsLonger(stream, data[1..], pos + 1 + |data[0]|, end); }
  }

  /** Skipping a chain of sub-blocks consumes exactly the chain. */
  lemma {:induction false} ChainPasses(stream: seq<byte>, data: seq<seq<byte>>, pos: nat, end: nat, read: int,
                                       limit: int)
    requires ChainAt(stream, data, pos, end)
    ensures pos < end <= |stream|
    ensures Passed(SkipSubBlocks(stream, State(pos, read, None), limit), pos, end, read, limit)
    decreases |data|
  {
    ChainIsLonger(stream, data, pos, end);
    if data == [] {
      TakePasses(stream, pos, 1, read, limit);
    } else {
      var n := |data[0]|;
      OneSubBlock(stream, pos, n, read, limit);
      ChainIsLonger(stream, data[1..], pos + 1 + n, end);
      if !Over(read, 1 + n, limit) { ChainPasses(stream, data[1..], pos + 1 + n, end, read + 1 + n, limit); }
    }
  }

  lemma TablePasses(stream: seq<byte>, n: nat, packed: byte, pos: nat, read: int, limit: int)
    requires pos + n <= |stream| && !Over(read, 0, limit) && n == if HasTable(packed) then TableBytes(packed) else 0
    ensures Passed(MaybeSkipTable(stream, State(pos, read, None), packed, limit), pos, pos + n, read, limit)
  {
    TakePasses(stream, pos, n, read, limit);
  }

  lemma ImageDataPasses(stream: seq<byte>, table: nat, packed: byte, data: seq<seq<byte>>, pos: nat, end: nat,
                        read: int, limit: int)
    requires table == (if HasTable(packed) then TableBytes(packed) else 0) && !Over(read, 0, limit)
    requires ChainAt(stream, data, pos + table + 1, end)
    ensures pos < end <= |stream|
    ensures Passed(SkipImageData(stream, State(pos, read, None), packed, limit), pos, end, read, limit)
  {
    ChainPasses(stream, data, pos + table + 1, end, read + table + 1, limit);
    TablePasses(stream, table, packed, pos, read, limit);
    TakePasses(stream, pos + table, 1, read + table, limit);
  }

  lemma ExtensionPasses(stream: seq<byte>, data: seq<seq<byte>>, pos: nat, end: nat, read: int, limit: int)
    requires ChainAt(stream, data, pos + 1, end)
    ensures pos < end <= |stream|
    ensures Passed(SkipExtension(stream, State(pos, read, None), limit), pos, end, read, limit)
  {
    ChainPasses(stream, data, pos + 1, end, read + 1, limit);
    TakePasses(stream, pos, 1, read, limit);
  }

  predicate Exceeds(frames: nat, pixels: int, limits: Limits) {
    frames > MAX_FRAMES || pixels > Budget(limits)
  }

  /** One block from `pos` to `end`, an image or not: the scan goes on behind it, or has a
      reason to fall back. */
  ghost predicate BlockOutcome(turn: Turn, image: bool, pos: nat, end: nat, read: int, frames: nat, pixels: int,
                               canvas: nat, limits: Limits)
    requires pos <= end
  {
    var stop := image && Exceeds(frames + 1, pixels + canvas, limits);
    match turn
    case Stop(v) => FallsBack(v) && (stop || Over(read, end - pos, limits.bytes))
    case Go(t, isFrame) =>
      !stop && !Over(read, end - pos, limits.bytes) && isFrame == image && t == State(end, read + (end - pos), None)
  }

  lemma BlockIsLonger(stream: seq<byte>, b: Block, pos: nat, end: nat)
    requires BlockAt(stream, b, pos, end)
    ensures pos < end <= |stream|
  {
    ChainIsLonger(stream, b.data, if b.Image? then pos + 11 + |b.table| else pos + 2, end);
  }

  /** The descriptor, whatever the rest of the image. */
  lemma DescriptorPasses(stream: seq<byte>, pos: nat, read: int, frames: nat, pixels: int, canvas: nat, limits: Limits)
    requires pos + 10 <= |stream| && stream[pos] == 0x2c
    ensures var turn := NextBlock(stream, State(pos, read, None), frames, pixels, canvas, limits);
      var t := SkipImageData(stream, State(pos + 10, read + 10, None), stream[pos + 9], limits.bytes);
      if Over(read, 10, limits.bytes) then turn.Stop? && FallsBack(turn.verdict)
      else if Exceeds(frames + 1, pixels + canvas, limits) then turn.Stop? && turn.verdict.TooComplex?
      else turn == if t.trouble.Some? then Stop(Failed(t)) else Go(t, true)
  {
    TakePasses(stream, pos, 1, read, limits.bytes);
    TakePasses(stream, pos + 1, 9, read + 1, limits.bytes);
  }

  lemma ImagePasses(stream: seq<byte>, table: nat, data: seq<seq<byte>>, pos: nat, end: nat, read: int, frames: nat,
                    pixels: int, canvas: nat, limits: Limits)
    requires pos + 10 <= |stream| && stream[pos] == 0x2c
    requires table == if HasTable(stream[pos + 9]) then TableBytes(stream[pos + 9]) else 0
    requires ChainAt(stream, data, pos + 11 + table, end)
    ensures pos < end <= |stream|
    ensures BlockOutcome(NextBlock(stream, State(pos, read, None), frames, pixels, canvas, limits),
                         true, pos, end, read, frames, pixels, canvas, limits)
  {
    ChainIsLonger(stream, data, pos + 11 + table, end);
    DescriptorPasses(stream, pos, read, frames, pixels, canvas, limits);
    if !Over(read, 10, limits.bytes) {
      ImageDataPasses(stream, table, stream[pos + 9], data, pos + 10, end, read + 10, limits.bytes);
    }
  }

  lemma BlockPasses(stream: seq<byte>, b: Block, pos: nat, end: nat, read: int, frames: nat, pixels: int, canvas: nat,
                    limits: Limits)
    requires BlockAt(stream, b, pos, end)
    ensures pos < end <= |stream|
    ensures BlockOutcome(NextBlock(stream, State(pos, read, None), frames, pixels, canvas, limits),
                         b.Image?, pos, end, read, frames, pixels, canvas, limits)
  {
    if b.Image? {
      TableLengthIsSkipped(b.descriptor[8]);
      ImagePasses(stream, |b.table|, b.data, pos, end, read, frames, pixels, canvas, limits);
    } else {
      TakePasses(stream, pos, 1, read, limits.bytes);
      ExtensionPasses(stream, b.data, pos + 1, end, read + 1, limits.bytes);
    }
  }

  // ----- the decision -----

  function Pixels(bs: seq<Block>, canvas: nat): nat {
    if bs == [] then 0 else (if bs[0].Image? then canvas else 0) + Pixels(bs[1..], canvas)
  }

  lemma {:induction false} PixelsAreFramesTimesCanvas(bs: seq<Block>, canvas: nat)
    ensures Pixels(bs, canvas) == Frames(bs) * canvas
  {
    if bs != [] {
      PixelsAreFramesTimesCanvas(bs[1..], canvas);
      assert (1 + Frames(bs[1..])) * canvas == canvas + Frames(bs[1..]) * canvas;
    }
  }

  /** The decision with so many frames, pixels and bytes still to come. */
  ghost predicate Decides(v: Verdict, read: int, frames: nat, pixels: int, limits: Limits, moreFrames: nat,
                          morePixels: nat, n: nat) {
    FallsBack(v) <==> Exceeds(frames + moreFrames, pixels + morePixels, limits) || Over(read, n, limits.bytes)
  }

  /** From the verdict behind a block to the verdict in front of it. */
  lemma BlockDecides(turn: Turn, v: Verdict, image: bool, pos: nat, mid: nat, end: nat, read: int, frames: nat,
                     pixels: int, canvas: nat, limits: Limits, later: Verdict, moreFrames: nat, morePixels: nat)
    requires pos <= mid <= end && BlockOutcome(turn, image, pos, mid, read, frames, pixels, canvas, limits)
    requires !Exceeds(frames, pixels, limits) && v == if turn.Stop? then turn.verdict else later
    requires turn.Go? ==> Decides(later, read + (mid - pos), if image then frames + 1 else frames,
                                  if image then pixels + canvas else pixels, limits,
                                  moreFrames, morePixels, end - mid)
    ensures Decides(v, read, frames, pixels, limits, (if image then 1 else 0) + moreFrames,
                    (if image then canvas else 0) + morePixels, end - pos)
  {}

  lemma {:induction false} BlocksAreLonger(stream: seq<byte>, bs: seq<Block>, pos: nat, end: nat)
    requires BlocksAt(stream, bs, pos, end)
    ensures pos < end <= |stream| + 1
    decreases |bs|
  {
    if bs != [] {
      var mid: nat :| BlockAt(stream, bs[0], pos, mid) && BlocksAt(stream, bs[1..], mid, end);
      BlockIsLonger(stream, bs[0], pos, mid);
      BlocksAreLonger(stream, bs[1..], mid, end);
    }
  }

  /** One round of the scan. */
  lemma RoundDecides(stream: seq<byte>, b: Block, pos: nat, mid: nat, end: nat, read: int, frames: nat, pixels: int,
                     canvas: nat, limits: Limits, moreFrames: nat, morePixels: nat)
    requires pos < mid <= |stream| && mid <= end && !Exceeds(frames, pixels, limits)
    requires var turn := NextBlock(stream, State(pos, read, None), frames, pixels, canvas, limits);
      && BlockOutcome(turn, b.Image?, pos, mid, read, frames, pixels, canvas, limits)
      && var f, p := if b.Image? then frames + 1 else frames, if b.Image? then pixels + canvas else pixels;
         turn.Go? ==> Decides(ScanBlocks(stream, State(mid, read + (mid - pos), None), f, p, canvas, limits),
                              read + (mid - pos), f, p, limits, moreFrames, morePixels, end - mid)
    ensures Decides(ScanBlocks(stream, State(pos, read, None), frames, pixels, canvas, limits), read, frames, pixels,
                    limits, (if b.Image? then 1 else 0) + moreFrames,
                    (if b.Image? then canvas else 0) + morePixels, end - pos)
  {
    var s := State(pos, read, None);
    var f, p := if b.Image? then frames + 1 else frames, if b.Image? then pixels + canvas else pixels;
    var turn, v := NextBlock(stream, s, frames, pixels, canvas, limits),
      ScanBlocks(stream, s, frames, pixels, canvas, limits);
    var later := ScanBlocks(stream, State(mid, read + (mid - pos), None), f, p, canvas, limits);
    ScanUnfolds(stream, s, frames, pixels, canvas, limits);
    BlockDecides(turn, v, b.Image?, pos, mid, end, read, frames, pixels, canvas, limits, later, moreFrames, morePixels);
  }

  lemma EndDecides(stream: seq<byte>, pos: nat, read: int, frames: nat, pixels: int, canvas: nat, limits: Limits)
    requires NoMoreBlocks(stream, pos) && !Exceeds(frames, pixels, limits)
    ensures Decides(ScanBlocks(stream, State(pos, read, None), frames, pixels, canvas, limits), read, frames, pixels,
                    limits, 0, 0, 1)
  {
    if pos < |stream| { TakePasses(stream, pos, 1, read, limits.bytes); }
  }

  lemma BlockGoesOn(stream: seq<byte>, b: Block, pos: nat, end: nat, read: int, frames: nat, pixels: int, canvas: nat,
                    limits: Limits)
    requires BlockAt(stream, b, pos, end)
    ensures pos < end <= |stream|
    ensures var turn := NextBlock(stream, State(pos, read, None), frames, pixels, canvas, limits);
      && BlockOutcome(turn, b.Image?, pos, end, read, frames, pixels, canvas, limits)
      && (turn.Go? ==> !Exceeds(frames, pixels, limits) ==>
            !Exceeds(if b.Image? then frames + 1 else frames, if b.Image? then pixels + canvas else pixels, limits))
  {
    BlockPasses(stream, b, pos, end, read, frames, pixels, canvas, limits);
  }

  /** The scan from `pos` on decides by what these blocks add. */
  ghost predicate Settled(stream: seq<byte>, bs: seq<Block>, pos: nat, end: nat, read: int, frames: nat, pixels: int,
                          canvas: nat, limits: Limits)
    requires pos <= |stream| && pos <= end
  {
    Decides(ScanBlocks(stream, State(pos, read, None), frames, pixels, canvas, limits), read, frames, pixels,
            limits, Frames(bs), Pixels(bs, canvas), end - pos)
  }

  lemma FirstBlockSettles(stream: seq<byte>, bs: seq<Block>, pos: nat, mid: nat, end: nat, read: int, frames: nat,
                          pixels: int, canvas: nat, limits: Limits)
    requires bs != [] && BlockAt(stream, bs[0], pos, mid) && !Exceeds(frames, pixels, limits)
    requires pos < mid <= |stream| && mid <= end
    requires
      var f, p := if bs[0].Image? then frames + 1 else frames, if bs[0].Image? then pixels + canvas else pixels;
      !Exceeds(f, p, limits) ==> Settled(stream, bs[1..], mid, end, read + (mid - pos), f, p, canvas, limits)
    ensures Settled(stream, bs, pos, end, read, frames, pixels, canvas, limits)
  {
    BlockGoesOn(stream, bs[0], pos, mid, read, frames, pixels, canvas, limits);
    RoundDecides(stream, bs[0], pos, mid, end, read, frames, pixels, canvas, limits, Frames(bs[1..]),
                 Pixels(bs[1..], canvas));
  }

  lemma {:induction false} BlocksDecide(stream: seq<byte>, bs: seq<Block>, pos: nat, end: nat, read: int, frames: nat,
                                        pixels: int, canvas: nat, limits: Limits)
    requires BlocksAt(stream, bs, pos, end) && !Exceeds(frames, pixels, limits)
    ensures pos < end <= |stream| + 1 && Settled(stream, bs, pos, end, read, frames, pixels, canvas, limits)
    decreases |bs|
  {
    BlocksAreLonger(stream, bs, pos, end);
    if bs == [] {
      EndDecides(stream, pos, read, frames, pixels, canvas, limits);
    } else {
      var b := bs[0];
      var mid: nat :| BlockAt(stream, b, pos, mid) && BlocksAt(stream, bs[1..], mid, end);
      BlocksAreLonger(stream, bs[1..], mid, end);
      BlockIsLonger(stream, b, pos, mid);
      var f, p := if b.Image? then frames + 1 else frames, if b.Image? then pixels + canvas else pixels;
      if !Exceeds(f, p, limits) { BlocksDecide(stream, bs[1..], mid, end, read + (mid - pos), f, p, canvas, limits); }
      FirstBlockSettles(stream, bs, pos, mid, end, read, frames, pixels, canvas, limits);
    }
  }

  /** Header and global colour table, whatever comes after them. */
  lemma HeaderPasses(stream: seq<byte>, table: nat, limits: Limits)
    requires 13 + table <= |stream| && IsGif(stream)
      && table == if HasTable(stream[10]) then TableBytes(stream[10]) else 0
    ensures var v := Scan(stream, limits);
      if Over(0, 13 + table, limits.bytes) then FallsBack(v)
      else v == ScanBlocks(stream, State(13 + table, 13 + table, None), 0, 0, Canvas(stream), limits)
  {
    TakePasses(stream, 0, 13, 0, limits.bytes);
    if !Over(0, 13, limits.bytes) { TablePasses(stream, table, stream[10], 13, 13, limits.bytes); }
  }

  /** A header, a table of this length, these blocks, and then anything. */
  ghost predicate StreamOf(stream: seq<byte>, table: nat, bs: seq<Block>, end: nat) {
    && 13 + table <= |stream| && SignedGif(stream) && table == TableLength(stream[10])
    && BlocksAt(stream, bs, 13 + table, end)
  }

  lemma StreamDecides(stream: seq<byte>, table: nat, bs: seq<Block>, end: nat, canvas: nat, limits: Limits)
    requires StreamOf(stream, table, bs, end) && canvas == Canvas(stream)
    ensures FallsBack(Scan(stream, limits)) <==>
      Exceeds(Frames(bs), Pixels(bs, canvas), limits) || Over(0, end, limits.bytes)
  {
    TableLengthIsSkipped(stream[10]);
    HeaderPasses(stream, table, limits);
    BlocksDecide(stream, bs, 13 + table, end, 13 + table, 0, 0, canvas, limits);
  }

  lemma EncodedIsStream(g: Gif, trailing: seq<byte>)
    requires GifOk(g)
    ensures StreamOf(Encode(g) + trailing, |g.table|, g.blocks, |Encode(g)|)
      && Canvas(Encode(g) + trailing) == Canvas(g.header)
  {
    var out, stream := g.header + g.table, Encode(g) + trailing;
    BlocksAreWritten(out, g.blocks);
    BlocksStay(Encode(g), stream, g.blocks, |out|, |Encode(g)|);
    ExtendsTrans(out, Encode(g), stream);
    SameHeader(g.header, g.table, stream);
  }

  lemma SameHeader(header: seq<byte>, table: seq<byte>, stream: seq<byte>)
    requires |header| == 13 && Extends(header + table, stream)
    ensures |stream| >= 13 && forall i | 0 <= i < 13 :: stream[i] == header[i]
    ensures Canvas(stream) == Canvas(header)
  {
    forall i | 0 <= i < 13 ensures stream[i] == header[i] { assert (header + table)[i] == header[i]; }
  }

  /** Something else, or nothing, after the same blocks. */
  lemma {:induction false} BlocksBreakOff(s: seq<byte>, t: seq<byte>, bs: seq<Block>, pos: nat, end: nat)
    requires BlocksAt(s, bs, pos, end) && end >= 1 && end - 1 <= |s| && end - 1 <= |t| && s[..end - 1] == t[..end - 1]
    requires NoMoreBlocks(t, end - 1)
    ensures BlocksAt(t, bs, pos, end)
    decreases |bs|
  {
    if bs != [] {
      var mid: nat :| BlockAt(s, bs[0], pos, mid) && BlocksAt(s, bs[1..], mid, end);
      BlockIsLonger(s, bs[0], pos, mid);
      BlocksAreLonger(s, bs[1..], mid, end);
      BlockIsLocal(s, t, bs[0], pos, mid);
      BlocksBreakOff(s, t, bs[1..], mid, end);
    }
  }

  lemma {:induction false} ChainIsLocal(s: seq<byte>, t: seq<byte>, data: seq<seq<byte>>, pos: nat, end: nat)
    requires ChainAt(s, data, pos, end) && end <= |s| && end <= |t| && s[..end] == t[..end]
    ensures ChainAt(t, data, pos, end)
    decreases |data|
  {
    ChainIsLonger(s, data, pos, end);
    assert s[pos] == s[..end][pos] && t[pos] == t[..end][pos];
    if data != [] {
      ChainIsLonger(s, data[1..], pos + 1 + |data[0]|, end);
      ChainIsLocal(s, t, data[1..], pos + 1 + |data[0]|, end);
    }
  }

  lemma BlockIsLocal(s: seq<byte>, t: seq<byte>, b: Block, pos: nat, end: nat)
    requires BlockAt(s, b, pos, end) && end <= |s| && end <= |t| && s[..end] == t[..end]
    ensures BlockAt(t, b, pos, end)
  {
    var at := if b.Image? then pos + 11 + |b.table| else pos + 2;
    ChainIsLonger(s, b.data, at, end);
    ChainIsLocal(s, t, b.data, at, end);
    assert s[pos] == s[..end][pos] && t[pos] == t[..end][pos];
    if b.Image? { assert s[pos + 9] == s[..end][pos + 9] && t[pos + 9] == t[..end][pos + 9]; }
  }

  /** A GIF whose trailer is missing, with nothing or something unknown in its place, is
      judged by the blocks it has, as if the trailer were there. */
  lemma BrokenOffIff(g: Gif, front: seq<byte>, tail: seq<byte>, limits: Limits)
    requires GifOk(g) && Encode(g) == front + [0x3b] && (tail == [] || tail[0] !in {0x2c, 0x21})
    ensures FallsBack(Scan(front + tail, limits)) <==> FallsBack(Scan(Encode(g), limits))
  {
    var out, whole, stream := g.header + g.table, Encode(g), front + tail;
    BlocksAreWritten(out, g.blocks);
    BlocksAreLonger(whole, g.blocks, |out|, |whole|);
    assert whole[..|whole| - 1] == front == stream[..|whole| - 1];
    BlocksBreakOff(whole, stream, g.blocks, |out|, |whole|);
    EncodedIsStream(g, []);
    assert whole + [] == whole;
    forall i | 0 <= i < 13 ensures stream[i] == whole[i] { assert front[i] == whole[i]; }
    StreamDecides(stream, |g.table|, g.blocks, |whole|, Canvas(stream), limits);
    StreamDecides(whole, |g.table|, g.blocks, |whole|, Canvas(stream), limits);
  }

  /** What is no GIF at all, or too short to tell, goes on to the normal decoder, unless the
      size limit does not even allow for a header. */
  lemma NoGifFallsBackIff(stream: seq<byte>, limits: Limits)
    requires |stream| < 13 || !SignedGif(stream)
    ensures FallsBack(Scan(stream, limits)) <==> 0 < limits.bytes < 13
  {
    if |stream| >= 13 { assert SignedGif(stream) <==> stream[0] == 71 && stream[1] == 73 && stream[2] == 70; }
  }

  lemma EncodedDecides(g: Gif, trailing: seq<byte>, canvas: nat, limits: Limits)
    requires GifOk(g) && canvas == Canvas(g.header)
    ensures FallsBack(Scan(Encode(g) + trailing, limits)) <==>
      Exceeds(Frames(g.blocks), Frames(g.blocks) * canvas, limits) || Over(0, |Encode(g)|, limits.bytes)
  {
    EncodedIsStream(g, trailing);
    StreamDecides(Encode(g) + trailing, |g.table|, g.blocks, |Encode(g)|, canvas, limits);
    PixelsAreFramesTimesCanvas(g.blocks, canvas);
  }

  /** A scan that does not fall back goes on behind the block. */
  lemma BlockIsBehind(stream: seq<byte>, b: Block, pos: nat, end: nat, read: int, frames: nat, pixels: int,
                      canvas: nat, limits: Limits)
    returns (f: nat, p: int)
    requires BlockAt(stream, b, pos, end) && pos <= |stream|
    requires !FallsBack(ScanBlocks(stream, State(pos, read, None), frames, pixels, canvas, limits))
    ensures pos < end <= |stream|
    ensures ScanBlocks(stream, State(pos, read, None), frames, pixels, canvas, limits) ==
      ScanBlocks(stream, State(end, read + (end - pos), None), f, p, canvas, limits)
  {
    BlockPasses(stream, b, pos, end, read, frames, pixels, canvas, limits);
    ScanUnfolds(stream, State(pos, read, None), frames, pixels, canvas, limits);
    f, p := if b.Image? then frames + 1 else frames, if b.Image? then pixels + canvas else pixels;
  }

  /** With the trailer in its place the scan goes to the end of it, if it goes that far. */
  lemma {:induction false} BlocksAreAccepted(stream: seq<byte>, bs: seq<Block>, pos: nat, end: nat, read: int,
                                             frames: nat, pixels: int, canvas: nat, limits: Limits)
    requires BlocksAt(stream, bs, pos, end) && 0 < end <= |stream| && stream[end - 1] == 0x3b && pos <= |stream|
    requires !FallsBack(ScanBlocks(stream, State(pos, read, None), frames, pixels, canvas, limits))
    ensures ScanBlocks(stream, State(pos, read, None), frames, pixels, canvas, limits) ==
      Acceptable(State(end, read + (end - pos), None))
    decreases |bs|
  {
    if bs == [] {
      TakePasses(stream, pos, 1, read, limits.bytes);
    } else {
      var mid: nat :| BlockAt(stream, bs[0], pos, mid) && BlocksAt(stream, bs[1..], mid, end);
      var f, p := BlockIsBehind(stream, bs[0], pos, mid, read, frames, pixels, canvas, limits);
      BlocksAreAccepted(stream, bs[1..], mid, end, read + (mid - pos), f, p, canvas, limits);
    }
  }

  lemma {:induction false} WritingEndsWithTrailer(out: seq<byte>, bs: seq<Block>)
    requires forall b | b in bs :: BlockOk(b)
    ensures var all := WriteBlocks(out, bs); |all| > 0 && all[|all| - 1] == 0x3b
    decreases |bs|
  {
    if bs != [] {
      assert bs[0] in bs;
      WritingEndsWithTrailer(WriteBlock(out, bs[0]), bs[1..]);
    }
  }

  lemma WholeStreamIsRead(stream: seq<byte>, table: nat, bs: seq<Block>, end: nat, limits: Limits)
    requires StreamOf(stream, table, bs, end) && 0 < end <= |stream| && stream[end - 1] == 0x3b
    requires !FallsBack(Scan(stream, limits))
    ensures Scan(stream, limits) == Acceptable(State(end, end, None))
  {
    TableLengthIsSkipped(stream[10]);
    HeaderPasses(stream, table, limits);
    BlocksAreAccepted(stream, bs, 13 + table, end, 13 + table, 0, 0, Canvas(stream), limits);
  }

  /** A well-formed GIF for which the guard does not fall back is read exactly to the end
      of its trailer, and found acceptable. */
  lemma WholeGifIsRead(g: Gif, trailing: seq<byte>, limits: Limits)
    requires GifOk(g) && !FallsBack(Scan(Encode(g) + trailing, limits))
    ensures Scan(Encode(g) + trailing, limits) == Acceptable(State(|Encode(g)|, |Encode(g)|, None))
  {
    var whole, out := Encode(g), g.header + g.table;
    EncodedIsStream(g, trailing);
    WritingEndsWithTrailer(out, g.blocks);
    assert (whole + trailing)[|whole| - 1] == whole[|whole| - 1];
    WholeStreamIsRead(whole + trailing, |g.table|, g.blocks, |whole|, limits);
  }

  /** For every well-formed GIF, whatever follows its trailer, the guard chooses the
      still frame if and only if there are more than 256 frames, or frames times canvas
      exceeds the pixel budget, or the encoding exceeds a positive size limit. */
  lemma FallsBackIff(g: Gif, trailing: seq<byte>, limits: Limits)
    requires GifOk(g)
    ensures var width, height := g.header[6] as int + 256 * g.header[7] as int,
      g.header[8] as int + 256 * g.header[9] as int;
      FallsBack(Scan(Encode(g) + trailing, limits)) <==>
        || Frames(g.blocks) > 256
        || Frames(g.blocks) * (width * height) > (if limits.pixels <= 0 then 32000000 else limits.pixels)
        || (limits.bytes > 0 && |Encode(g)| > limits.bytes)
  {
    EncodedDecides(g, trailing, Canvas(g.header), limits);
  }
}

/** The reader that remembers what it has handed out (util/readers/buffer_reads_reader.go)
    and the scanner that reads through it. */
module GifGuard {
  import opened Wrappers
  import opened Bytes
  import opened GifScan

  /** The reader a rewind hands out; `rest` is what it has not delivered yet. */
  class RewoundReader {
    var rest: seq<byte>

    constructor (rest: seq<byte>)
      ensures this.rest == rest
    {
      this.rest := rest;
    }

    method Read(max: nat) returns (data: seq<byte>)
      modifies this
      ensures |data| <= max && data + rest == old(rest)
      ensures data == [] ==> max == 0 || rest == []
    {
      var n: nat := if max < |rest| then max else |rest|;
      if n > 0 { n :| 1 <= n <= max && n <= |rest|; }
      data, rest := rest[..n], rest[n..];
    }
  }

  /** `content` is what the wrapped stream delivers, in pieces of any size, before it ends
      or fails for the first time; neither the scan nor the rewind tells the two apart. */
  class BufferReadsReader {
    const content: seq<byte>
    var pos: nat
    var buffer: seq<byte>
    var pr: RewoundReader?

    ghost predicate Valid()
      reads this
    {
      pos <= |content| && buffer == content[..pos]
    }

    constructor (content: seq<byte>)
      ensures Valid() && this.content == content && pos == 0 && pr == null
    {
      this.content := content;
      pos, buffer, pr := 0, [], null;
    }

    /** Up to `max` bytes, at least one unless the stream is at its end. */
    method Read(max: nat) returns (ok: bool, data: seq<byte>)
      requires Valid()
      modifies this
      ensures Valid() && pr == old(pr) && ok == (pr == null)
      ensures !ok ==> pos == old(pos)
      ensures ok ==> |data| <= max && pos == old(pos) + |data| && data == content[old(pos)..pos]
      ensures ok && data == [] ==> max == 0 || pos == |content|
    {
      data := [];
      if pr != null { return false, []; }
      var left := |content| - pos;
      var n: nat := if max < left then max else left;
      if n > 0 { n :| 1 <= n <= max && n <= left; }
      data := content[pos..pos + n];
      buffer := buffer + data;
      assert content[..pos + n] == content[..pos] + data;
      pos := pos + n;
      ok := true;
    }

    /** The first rewind makes a reader for the remembered bytes and then the rest of the
        wrapped stream; every later one hands out that same reader, with an error. */
    method MakeRewoundReader() returns (ok: bool, r: RewoundReader)
      requires Valid()
      modifies this
      ensures Valid() && pr == r && pos == old(pos) && ok == (old(pr) == null)
      ensures old(pr) == null ==> fresh(r) && r.rest == content
      ensures old(pr) != null ==> r == old(pr) && r.rest == old(pr.rest)
    {
      if pr != null { return false, pr; }
      r := new RewoundReader(buffer + content[pos..]);
      pr, ok := r, true;
    }

    method GetRewoundReader() returns (r: RewoundReader)
      requires Valid()
      modifies this
      ensures Valid() && pr == r && pos == old(pos)
      ensures old(pr) == null ==> fresh(r) && r.rest == content
      ensures old(pr) != null ==> r == old(pr)
    {
      var ok;
      ok, r := MakeRewoundReader();
    }
  }

  class Scanner {
    const r: BufferReadsReader
    var bytesRead: int
    const limit: int

    ghost predicate Valid()
      reads this, r
    {
      r.Valid() && r.pr == null
    }

    ghost function At(): (s: State)
      requires Valid()
      reads this, r
      ensures s.pos <= |r.content|
    {
      State(r.pos, bytesRead, None)
    }

    constructor (r: BufferReadsReader, limit: int)
      requires r.Valid() && r.pr == null
      ensures Valid() && this.r == r && this.limit == limit && bytesRead == 0
    {
      this.r, this.limit, bytesRead := r, limit, 0;
    }

    /** Reads until `n` bytes have arrived or the stream ends. */
    method Pull(n: nat) returns (data: seq<byte>)
      requires Valid()
      modifies r
      ensures Valid() && bytesRead == old(bytesRead)
      ensures |data| == Min(n, |r.content| - old(r.pos))
      ensures r.pos == old(r.pos) + |data| && data == r.content[old(r.pos)..r.pos]
    {
      data := [];
      while |data| < n
        invariant Valid() && |data| <= n
        invariant r.pos == old(r.pos) + |data| && data == r.content[old(r.pos)..r.pos]
        decreases |r.content| - r.pos
      {
        var ok, piece := r.Read(n - |data|);
        if piece == [] { break; }
        data := data + piece;
      }
    }

    method Check(short: bool) returns (trouble: Option<Trouble>)
      ensures trouble == if limit > 0 && bytesRead > limit then Some(TooLarge) else if short then Some(Broken) else None
    {
      if limit > 0 && bytesRead > limit { return Some(TooLarge); }
      if short { return Some(Broken); }
      return None;
    }

    method ReadFull(n: nat) returns (data: seq<byte>, trouble: Option<Trouble>)
      requires Valid()
      modifies this, r
      ensures Valid() && At().(trouble := trouble) == GifScan.ReadFull(r.content, old(At()), n, limit)
      ensures trouble.None? ==> |data| == n <= |r.content| - old(r.pos) && data == r.content[old(r.pos)..old(r.pos) + n]
    {
      data := Pull(n);
      bytesRead := bytesRead + n;
      trouble := Check(|data| < n);
    }

    method SkipBytes(n: nat) returns (trouble: Option<Trouble>)
      requires Valid()
      modifies this, r
      ensures Valid() && At().(trouble := trouble) == GifScan.Skip(r.content, old(At()), n, limit)
    {
      var data := Pull(n);
      bytesRead := bytesRead + |data|;
      trouble := Check(|data| < n);
    }

    method SkipSubBlocks() returns (trouble: Option<Trouble>)
      requires Valid()
      modifies this, r
      ensures Valid() && At().(trouble := trouble) == GifScan.SkipSubBlocks(r.content, old(At()), limit)
    {
      while true
        invariant Valid()
        invariant GifScan.SkipSubBlocks(r.content, At(), limit) == GifScan.SkipSubBlocks(r.content, old(At()), limit)
        decreases |r.content| - r.pos
      {
        var size: seq<byte>;
        size, trouble := ReadFull(1);
        if trouble.Some? || size[0] == 0 { return; }
        trouble := SkipBytes(size[0]);
        if trouble.Some? { return; }
      }
    }

    method SkipTable(packed: byte) returns (trouble: Option<Trouble>)
      requires Valid()
      modifies this, r
      ensures Valid() && At().(trouble := trouble) == MaybeSkipTable(r.content, old(At()), packed, limit)
    {
      trouble := None;
      if HasTable(packed) { trouble := SkipBytes(TableBytes(packed)); }
    }

    method ImageData(packed: byte) returns (trouble: Option<Trouble>)
      requires Valid()
      modifies this, r
      ensures Valid() && At().(trouble := trouble) == SkipImageData(r.content, old(At()), packed, limit)
    {
      trouble := SkipTable(packed);
      if trouble.Some? { return; }
      trouble := SkipBytes(1);
      if trouble.Some? { return; }
      trouble := SkipSubBlocks();
    }

    method ExtensionData() returns (trouble: Option<Trouble>)
      requires Valid()
      modifies this, r
      ensures Valid() && At().(trouble := trouble) == SkipExtension(r.content, old(At()), limit)
    {
      trouble := SkipBytes(1);
      if trouble.Some? { return; }
      trouble := SkipSubBlocks();
    }

    /** What the loop over the blocks has to report. */
    ghost predicate Reports(v: Verdict, exceeds: bool, trouble: Option<Trouble>)
      requires Valid()
      reads this, r
    {
      && exceeds == v.TooComplex?
      && (if v.Failed? then trouble == v.end.trouble && trouble.Some? else trouble == None)
      && r.pos == v.end.pos
    }

    method Block(frames: nat, pixels: int, canvas: nat, limits: Limits)
      returns (more: bool, isFrame: bool, exceeds: bool, trouble: Option<Trouble>, ghost turn: Turn)
      requires Valid() && limit == limits.bytes
      modifies this, r
      ensures Valid() && turn == NextBlock(r.content, old(At()), frames, pixels, canvas, limits)
      ensures more == turn.Go?
      ensures turn.Stop? ==> Reports(turn.verdict, exceeds, trouble)
      ensures turn.Go? ==> isFrame == turn.isFrame && At() == turn.next
    {
      turn := NextBlock(r.content, At(), frames, pixels, canvas, limits);
      more, isFrame, exceeds := false, false, false;
      var kind: seq<byte>;
      kind, trouble := ReadFull(1);
      if trouble.Some? { return; }
      if kind[0] == 0x2c {
        var descriptor: seq<byte>;
        descriptor, trouble := ReadFull(9);
        if trouble.Some? { return; }
        if frames + 1 > MAX_FRAMES || pixels + canvas > Budget(limits) {
          exceeds := true;
          return;
        }
        trouble := ImageData(descriptor[8]);
        more, isFrame := trouble.None?, true;
      } else if kind[0] == 0x21 {
        trouble := ExtensionData();
        more := trouble.None?;
      } else if kind[0] != 0x3b {
        trouble := Some(Broken);
      }
    }

    /** One round of the loop over the blocks, on the way to the verdict `v`. */
    method Round(frames: nat, pixels: int, canvas: nat, limits: Limits, ghost v: Verdict)
      returns (more: bool, frames': nat, pixels': int, exceeds: bool, trouble: Option<Trouble>)
      requires Valid() && limit == limits.bytes && v == ScanBlocks(r.content, At(), frames, pixels, canvas, limits)
      modifies this, r
      ensures Valid()
      ensures !more ==> Reports(v, exceeds, trouble)
      ensures more ==> v == ScanBlocks(r.content, At(), frames', pixels', canvas, limits) && r.pos > old(r.pos)
    {
      ScanUnfolds(r.content, At(), frames, pixels, canvas, limits);
      var isFrame; ghost var turn;
      more, isFrame, exceeds, trouble, turn := Block(frames, pixels, canvas, limits);
      frames', pixels' := if isFrame then frames + 1 else frames, if isFrame then pixels + canvas else pixels;
    }

    method Blocks(canvas: nat, limits: Limits) returns (exceeds: bool, trouble: Option<Trouble>)
      requires Valid() && limit == limits.bytes
      modifies this, r
      ensures Valid() && Reports(ScanBlocks(r.content, old(At()), 0, 0, canvas, limits), exceeds, trouble)
    {
      var frames: nat, pixels := 0, 0;
      ghost var v := ScanBlocks(r.content, At(), 0, 0, canvas, limits);
      var more := true;
      exceeds, trouble := false, None;
      while more
        invariant Valid()
        invariant more ==> v == ScanBlocks(r.content, At(), frames, pixels, canvas, limits)
        invariant !more ==> Reports(v, exceeds, trouble)
        decreases more, |r.content| - r.pos
      {
        more, frames, pixels, exceeds, trouble := Round(frames, pixels, canvas, limits, v);
      }
    }

    method ExceedsAnimationComplexity(limits: Limits) returns (exceeds: bool, trouble: Option<Trouble>)
      requires Valid() && limit == limits.bytes && bytesRead == 0 && r.pos == 0
      modifies this, r
      ensures Valid() && Reports(Scan(r.content, limits), exceeds, trouble)
    {
      exceeds := false;
      var header: seq<byte>;
      header, trouble := ReadFull(13);
      if trouble.Some? { return; }
      if !IsGif(header) { return false, Some(Broken); }
      trouble := SkipTable(header[10]);
      if trouble.Some? { return; }
      exceeds, trouble := Blocks(Canvas(header), limits);
    }
  }

  /** The guard as a whole: the decision of the scan, and a reader that still delivers
      every byte, of which at most the limit and one colour table have been pulled. */
  method GuardAnimatedGif(r: BufferReadsReader, limits: Limits) returns (all: RewoundReader, fallBack: bool)
    requires r.Valid() && r.pr == null && r.pos == 0
    modifies r
    ensures fresh(all) && all.rest == r.content
    ensures fallBack == FallsBack(Scan(r.content, limits))
    ensures limits.bytes > 0 ==> r.pos <= limits.bytes + 768
  {
    var scanner := new Scanner(r, limits.bytes);
    var exceeds, trouble := scanner.ExceedsAnimationComplexity(limits);
    if limits.bytes > 0 { ScanIsBounded(r.content, limits); }
    fallBack := if trouble.Some? then trouble.value == TooLarge else exceeds;
    all := r.GetRewoundReader();
  }
}
