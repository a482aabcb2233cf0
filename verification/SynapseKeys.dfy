/** Synapse signing key files: one line a key, and back
    (homeserver_interop/synapse/signing_key.go,
    homeserver_interop/internal/signing_key_encode.go). */
module SynapseKeys {
  import opened Bytes
  import opened Wrappers
  import opened Text
  import Base64

  /** An ed25519 private key is determined by its seed. */
  type Seed = s: seq<byte> | |s| == 32 witness seq(32, _ => 0)

  datatype SigningKey = SigningKey(version: string, seed: Seed)

  datatype Fault = WrongPartCount(count: nat) | NotEd25519(algorithm: string) | NotBase64 | SeedTooShort

  datatype Decoded = Keys(keys: seq<SigningKey>) | Failed(line: nat, fault: Fault)

  // ----- writing -----

  function EncodeKey(key: SigningKey): string {
    "ed25519 " + key.version + " " + Base64.Encode(key.seed)
  }

  function Lines(keys: seq<SigningKey>): (lines: seq<string>)
    ensures |lines| == |keys|
  {
    seq(|keys|, i requires 0 <= i < |keys| => EncodeKey(keys[i]))
  }

  /** The whole file: the lines with one newline between each two. */
  function File(keys: seq<SigningKey>): string {
    if keys == [] then "" else Join(Lines(keys), '\n')
  }

  lemma {:induction false} JoinLast(parts: seq<string>, p: string, sep: char)
    requires |parts| >= 1
    ensures Join(parts + [p], sep) == Join(parts, sep) + [sep] + p
  {
    if |parts| == 1 {
      assert (parts + [p])[1..] == [p];
    } else {
      JoinLast(parts[1..], p, sep);
      assert (parts + [p])[1..] == parts[1..] + [p];
    }
  }

  /** Whatever the version holds, an encoded key ends in a base64 character, so the rule
      that spares a second newline never applies to it. */
  lemma EncodedKeyEnd(key: SigningKey)
    ensures EncodeKey(key) != "" && EncodeKey(key)[|EncodeKey(key)| - 1] != '\n'
  {
    var s := Base64.Encode(key.seed);
    Base64.EncodeIsClean(key.seed);
    assert s[|s| - 1] in s;
    assert EncodeKey(key)[|EncodeKey(key)| - 1] == s[|s| - 1];
  }

  lemma FileGrows(keys: seq<SigningKey>, i: nat)
    requires i < |keys|
    ensures File(keys[..i + 1]) == (if i == 0 then "" else File(keys[..i]) + "\n") + EncodeKey(keys[i])
  {
    var b := EncodeKey(keys[i]);
    assert Lines(keys[..i + 1]) == Lines(keys[..i]) + [b];
    if i == 0 {
      assert Lines(keys[..i + 1]) == [b];
      assert "" + b == b;
    } else {
      JoinLast(Lines(keys[..i]), b, '\n');
    }
  }

  method EncodeAll(keys: seq<SigningKey>) returns (file: string)
    ensures file == File(keys)
  {
    file := "";
    for i := 0 to |keys|
      invariant file == if 0 < i < |keys| then File(keys[..i]) + "\n" else File(keys[..i])
    {
      var b := EncodeKey(keys[i]);
      EncodedKeyEnd(keys[i]);
      FileGrows(keys, i);
      file := file + b;
      if b[|b| - 1] != '\n' && i != |keys| - 1 {
        file := file + "\n";
      }
    }
    assert keys[..|keys|] == keys;
  }

  // ----- reading -----

  datatype Line = Blank | Key(key: SigningKey) | Bad(fault: Fault)

  function DecodeLine(line: string): Line {
    if line == "" then Blank
    else
      var parts := Split(line, ' ');
      if |parts| != 3 then Bad(WrongPartCount(|parts|))
      else if parts[0] != "ed25519" then Bad(NotEd25519(parts[0]))
      else
        var bytes := Base64.Decode(parts[2]);
        if bytes.None? then Bad(NotBase64)
        else if |bytes.value| < 32 then Bad(SeedTooShort)
        else Key(SigningKey(parts[1], bytes.value[..32]))
  }

  /** Three parts without spaces, one space between each two. */
  ghost predicate HasParts(line: string, algorithm: string, version: string, b64: string) {
    && ' ' !in algorithm && ' ' !in version && ' ' !in b64
    && line == algorithm + " " + version + " " + b64
  }

  lemma {:induction false} SplitCounts(s: string, sep: char)
    ensures |Split(s, sep)| == multiset(s)[sep] + 1
  {
    if s != "" {
      SplitCounts(s[1..], sep);
      assert s == [s[0]] + s[1..];
    }
  }

  lemma PartsAre(line: string, a: string, b: string, c: string)
    ensures Split(line, ' ') == [a, b, c] <==> HasParts(line, a, b, c)
  {
    assert [a, b, c][1..] == [b, c] && [b, c][1..] == [c];
    assert Join([b, c], ' ') == b + " " + c;
    assert Join([a, b, c], ' ') == a + " " + (b + " " + c) == a + " " + b + " " + c;
    if Split(line, ' ') == [a, b, c] {
      JoinSplit(line, ' ');
      SplitPartsAreClean(line, ' ');
      assert a in [a, b, c] && b in [a, b, c] && c in [a, b, c];
    }
    if HasParts(line, a, b, c) { SplitJoin([a, b, c], ' '); }
  }

  /** A line of three parts is a key if the first names ed25519 and the last is base64 of
      at least 32 bytes, of which the first 32 are the seed. */
  lemma LineWithParts(line: string, algorithm: string, version: string, b64: string)
    requires HasParts(line, algorithm, version, b64)
    ensures var bytes := Base64.Decode(b64);
      DecodeLine(line) ==
        if algorithm != "ed25519" then Bad(NotEd25519(algorithm))
        else if bytes == None then Bad(NotBase64)
        else if |bytes.value| < 32 then Bad(SeedTooShort)
        else Key(SigningKey(version, bytes.value[..32]))
  {
    PartsAre(line, algorithm, version, b64);
  }

  /** Any other line is empty, and passed over, or has the wrong number of parts: one more
      than it has spaces. */
  lemma LineWithoutParts(line: string)
    requires forall a, b, c :: !HasParts(line, a, b, c)
    ensures multiset(line)[' '] + 1 != 3
    ensures DecodeLine(line) == if line == "" then Blank else Bad(WrongPartCount(multiset(line)[' '] + 1))
  {
    SplitCounts(line, ' ');
    var parts := Split(line, ' ');
    if |parts| == 3 {
      var a, b, c := parts[0], parts[1], parts[2];
      assert parts == [a, b, c];
      PartsAre(line, a, b, c);
      assert false;
    }
  }

  /** The keys of the lines in order, or the first line that is no key. */
  function DecodeLines(lines: seq<string>): Decoded {
    if lines == [] then Keys([])
    else
      var init, last := DecodeLines(lines[..|lines| - 1]), DecodeLine(lines[|lines| - 1]);
      if init.Failed? then init
      else match last
        case Blank => init
        case Key(key) => Keys(init.keys + [key])
        case Bad(fault) => Failed(|lines| - 1, fault)
  }

  lemma {:induction false} FailureSticks(lines: seq<string>, i: nat)
    requires i <= |lines| && DecodeLines(lines[..i]).Failed?
    ensures DecodeLines(lines) == DecodeLines(lines[..i])
    decreases |lines|
  {
    if i == |lines| {
      assert lines[..i] == lines;
    } else {
      var init := lines[..|lines| - 1];
      assert init[..i] == lines[..i];
      FailureSticks(init, i);
    }
  }

  /** Lines read one after the other, stopping at the first bad one. */
  method DecodeAll(file: string) returns (result: Decoded)
    ensures result == DecodeLines(Split(file, '\n'))
  {
    var lines := Split(file, '\n');
    var keys: seq<SigningKey> := [];
    for i := 0 to |lines|
      invariant DecodeLines(lines[..i]) == Keys(keys)
    {
      assert lines[..i + 1][..i] == lines[..i];
      match DecodeLine(lines[i])
      case Blank =>
      case Key(key) => keys := keys + [key];
      case Bad(fault) =>
        FailureSticks(lines, i + 1);
        return Failed(i, fault);
    }
    assert lines[..|lines|] == lines;
    return Keys(keys);
  }

  // ----- there and back -----

  predicate Clean(version: string) {
    ' ' !in version && '\n' !in version
  }

  lemma KeyParts(key: SigningKey)
    requires ' ' !in key.version
    ensures Split(EncodeKey(key), ' ') == ["ed25519", key.version, Base64.Encode(key.seed)]
  {
    var parts := ["ed25519", key.version, Base64.Encode(key.seed)];
    Base64.EncodeIsClean(key.seed);
    assert Base64.Value(' ').None?;
    SplitJoin(parts, ' ');
    assert parts[1..] == [key.version, Base64.Encode(key.seed)];
    assert parts[1..][1..] == [Base64.Encode(key.seed)];
    var seed := parts[2];
    assert Join(parts[1..], ' ') == key.version + [' '] + seed;
    assert Join(parts, ' ') == "ed25519" + [' '] + (key.version + [' '] + seed);
    assert EncodeKey(key) == "ed25519" + [' '] + (key.version + [' '] + seed);
  }

  lemma KeyLineDecodes(key: SigningKey)
    requires Clean(key.version)
    ensures DecodeLine(EncodeKey(key)) == Key(key) && '\n' !in EncodeKey(key)
  {
    KeyParts(key);
    Base64.EncodeIsClean(key.seed);
    assert Base64.Value('\n').None?;
    Base64.DecodeInvertsEncode(key.seed);
    assert key.seed[..32] == key.seed;
  }

  lemma KeyLineAdds(lines: seq<string>, line: string, key: SigningKey)
    requires DecodeLines(lines).Keys? && DecodeLine(line) == Key(key)
    ensures DecodeLines(lines + [line]) == Keys(DecodeLines(lines).keys + [key])
  {
    assert (lines + [line])[..|lines|] == lines;
  }

  lemma {:induction false} LinesDecode(lines: seq<string>, keys: seq<SigningKey>)
    requires |lines| == |keys| && forall i | 0 <= i < |keys| :: DecodeLine(lines[i]) == Key(keys[i])
    ensures DecodeLines(lines) == Keys(keys)
  {
    if keys != [] {
      var n := |keys| - 1;
      LinesDecode(lines[..n], keys[..n]);
      KeyLineAdds(lines[..n], lines[n], keys[n]);
      assert lines == lines[..n] + [lines[n]] && keys == keys[..n] + [keys[n]];
    }
  }

  /** Whatever a file holds, the versions read from it are clean. */
  lemma {:induction false} DecodedVersionsAreClean(lines: seq<string>)
    requires forall l | l in lines :: '\n' !in l
    ensures DecodeLines(lines).Keys? ==> forall k | k in DecodeLines(lines).keys :: Clean(k.version)
  {
    if lines != [] {
      var last := lines[|lines| - 1];
      DecodedVersionsAreClean(lines[..|lines| - 1]);
      assert last in lines;
      SplitPartsAreClean(last, ' ');
      if DecodeLine(last).Key? { assert Split(last, ' ')[1] in Split(last, ' '); }
    }
  }

  /** Reading back a written list of keys gives the same list in the same order if and
      only if no version contains a space or a newline. */
  lemma RoundTripIff(keys: seq<SigningKey>)
    ensures DecodeLines(Split(File(keys), '\n')) == Keys(keys) <==> forall k | k in keys :: Clean(k.version)
  {
    SplitPartsAreClean(File(keys), '\n');
    DecodedVersionsAreClean(Split(File(keys), '\n'));
    if keys == [] {
      assert [""][..0] == [];
    } else if forall k | k in keys :: Clean(k.version) {
      forall i | 0 <= i < |keys| ensures DecodeLine(Lines(keys)[i]) == Key(keys[i]) && '\n' !in Lines(keys)[i] {
        assert keys[i] in keys;
        KeyLineDecodes(keys[i]);
      }
      SplitJoin(Lines(keys), '\n');
      LinesDecode(Lines(keys), keys);
    }
  }

  function Prepend(c: char, parts: seq<string>, sep: char): seq<string>
    requires |parts| >= 1
  {
    if c == sep then [""] + parts else [[c] + parts[0]] + parts[1..]
  }

  lemma SplitCons(c: char, s: string, sep: char)
    ensures Split([c] + s, sep) == Prepend(c, Split(s, sep), sep)
  {
    assert ([c] + s)[1..] == s;
  }

  lemma PrependConcatenates(c: char, parts: seq<string>, more: seq<string>, sep: char)
    requires |parts| >= 1
    ensures Prepend(c, parts + more, sep) == Prepend(c, parts, sep) + more
  {}

  lemma {:induction false} SplitTwo(a: string, b: string, sep: char)
    ensures Split(a + [sep] + b, sep) == Split(a, sep) + Split(b, sep)
  {
    if a == "" {
      SplitCons(sep, b, sep);
    } else {
      var c, rest := a[0], a[1..];
      SplitTwo(rest, b, sep);
      SplitCons(c, rest + [sep] + b, sep);
      SplitCons(c, rest, sep);
      PrependConcatenates(c, Split(rest, sep), Split(b, sep), sep);
      assert a == [c] + rest;
      assert a + [sep] + b == [c] + (rest + [sep] + b);
    }
  }

  lemma {:induction false} LinesConcatenate(a: seq<string>, b: seq<string>)
    requires DecodeLines(a).Keys? && DecodeLines(b).Keys?
    ensures DecodeLines(a + b) == Keys(DecodeLines(a).keys + DecodeLines(b).keys)
  {
    if b == [] {
      assert a + b == a;
    } else {
      assert (a + b)[..|a + b| - 1] == a + b[..|b| - 1];
      LinesConcatenate(a, b[..|b| - 1]);
    }
  }

  /** Two key files pasted together hold the keys of both; with an empty file this says
      that trailing and leading newlines change nothing. */
  lemma FilesConcatenate(a: string, b: string)
    requires DecodeLines(Split(a, '\n')).Keys? && DecodeLines(Split(b, '\n')).Keys?
    ensures DecodeLines(Split(a + "\n" + b, '\n')) ==
      Keys(DecodeLines(Split(a, '\n')).keys + DecodeLines(Split(b, '\n')).keys)
  {
    SplitTwo(a, b, '\n');
    LinesConcatenate(Split(a, '\n'), Split(b, '\n'));
  }
}
