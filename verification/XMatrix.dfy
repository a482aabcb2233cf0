/** The X-Matrix authorization header (the "Request Authentication" section of the Matrix
    Server-Server API): printing it, parsing it and checking it (matrix/xmatrix.go,
    util/http.go). */
module XMatrix {
  import opened Bytes
  import opened Wrappers
  import opened Text
  import Base64

  // ----- trimming -----

  /** White space as the Go function `unicode.IsSpace` has it. */
  predicate IsSpace(c: char) {
    || c in {'\t', '\n', '\U{000B}', '\U{000C}', '\r', ' ', '\U{0085}', '\U{00A0}', '\U{1680}'}
    || '\U{2000}' <= c <= '\U{200A}'
    || c in {'\U{2028}', '\U{2029}', '\U{202F}', '\U{205F}', '\U{3000}'}
  }

  predicate IsQuote(c: char) {
    c == '"'
  }

  function TrimLeft(s: string, cut: char -> bool): string {
    if s != "" && cut(s[0]) then TrimLeft(s[1..], cut) else s
  }

  function TrimRight(s: string, cut: char -> bool): string {
    if s != "" && cut(s[|s| - 1]) then TrimRight(s[..|s| - 1], cut) else s
  }

  function Trim(s: string, cut: char -> bool): string {
    TrimRight(TrimLeft(s, cut), cut)
  }

  predicate Trimmed(s: string, cut: char -> bool) {
    s != "" ==> !cut(s[0]) && !cut(s[|s| - 1])
  }

  lemma {:induction false} TrimLeftTrims(s: string, cut: char -> bool)
    ensures TrimLeft(s, cut) != "" ==> !cut(TrimLeft(s, cut)[0])
    ensures forall c | c in TrimLeft(s, cut) :: c in s
  {
    if s != "" && cut(s[0]) { TrimLeftTrims(s[1..], cut); }
  }

  lemma {:induction false} TrimRightTrims(s: string, cut: char -> bool)
    requires s != "" ==> !cut(s[0])
    ensures Trimmed(TrimRight(s, cut), cut)
    ensures forall c | c in TrimRight(s, cut) :: c in s
  {
    if s != "" && cut(s[|s| - 1]) { TrimRightTrims(s[..|s| - 1], cut); }
  }

  lemma TrimTrims(s: string, cut: char -> bool)
    ensures Trimmed(Trim(s, cut), cut)
    ensures forall c | c in Trim(s, cut) :: c in s
    ensures Trimmed(s, cut) ==> Trim(s, cut) == s
  {
    TrimLeftTrims(s, cut);
    TrimRightTrims(TrimLeft(s, cut), cut);
  }

  function Quoted(v: string): string {
    "\"" + v + "\""
  }

  /** Quotes come off again, unless the value brings its own at an edge. */
  lemma UnquoteInverts(v: string)
    requires Trimmed(v, IsQuote)
    ensures Trim(Trim(Quoted(v), IsSpace), IsQuote) == v
  {
    var q := Quoted(v);
    TrimTrims(q, IsSpace);
    assert q[1..] == v + "\"";
    assert TrimLeft(q, IsQuote) == TrimLeft(v + "\"", IsQuote);
    if v == "" {
      assert (v + "\"")[1..] == "";
      assert TrimLeft(v + "\"", IsQuote) == "";
    } else {
      assert TrimLeft(v + "\"", IsQuote) == v + "\"";
      assert (v + "\"")[..|v|] == v;
      assert TrimRight(v + "\"", IsQuote) == TrimRight(v, IsQuote);
    }
  }

  /** Lower case; only the ASCII letters change here. */
  function Lower(s: string): string {
    seq(|s|, i requires 0 <= i < |s| => if 'A' <= s[i] <= 'Z' then (s[i] as int + 32) as char else s[i])
  }

  // ----- one pair -----

  /** Cuts at the first '='. */
  function Cut(pair: string): Option<(string, string)> {
    if pair == "" then None
    else if pair[0] == '=' then Some(("", pair[1..]))
    else
      var rest := Cut(pair[1..]);
      if rest.None? then None else Some(([pair[0]] + rest.value.0, rest.value.1))
  }

  lemma {:induction false} CutFirst(a: string, b: string)
    requires '=' !in a
    ensures Cut(a + "=" + b) == Some((a, b))
  {
    var s := a + "=" + b;
    if a == "" {
      assert s[1..] == b;
    } else {
      CutFirst(a[1..], b);
      assert s[1..] == a[1..] + "=" + b;
      assert a == [a[0]] + a[1..];
    }
  }

  lemma {:induction false} CutKeepsCharacters(pair: string)
    ensures Cut(pair).Some? ==> forall c | c in Cut(pair).value.1 :: c in pair
  {
    if pair != "" && pair[0] != '=' { CutKeepsCharacters(pair[1..]); }
  }

  function KeyOf(raw: string): string {
    Trim(Lower(raw), IsSpace)
  }

  function ValueOf(raw: string): string {
    Trim(Trim(raw, IsSpace), IsQuote)
  }

  // ----- a header -----

  datatype Auth = Auth(origin: string, destination: string, keyId: string, signature: seq<byte>)

  datatype Outcome = Skipped | Malformed | Parsed(auth: Auth)

  const PREFIX := "X-Matrix "

  function ParsePairs(pairs: seq<string>): Option<map<string, string>> {
    if pairs == [] then Some(map[])
    else
      var params, cut := ParsePairs(pairs[..|pairs| - 1]), Cut(pairs[|pairs| - 1]);
      if params.None? || cut.None? then None
      else if KeyOf(cut.value.0) in params.value then None
      else Some(params.value[KeyOf(cut.value.0) := ValueOf(cut.value.1)])
  }

  function Get(params: map<string, string>, key: string): string {
    if key in params then params[key] else ""
  }

  function AuthOf(params: map<string, string>): Outcome {
    var sig := Base64.Decode(Get(params, "sig"));
    if sig.None? then Malformed
    else
      var auth := Auth(Get(params, "origin"), Get(params, "destination"), Get(params, "key"), sig.value);
      if auth.origin == "" || auth.keyId == "" || auth.signature == [] then Skipped else Parsed(auth)
  }

  function Parse(h: string): Outcome {
    if !HasPrefix(h, PREFIX) then Skipped
    else
      var params := ParsePairs(Split(h[|PREFIX|..], ','));
      if params.None? then Malformed else AuthOf(params.value)
  }

  // ----- printing and parsing -----

  function Fields(origin: string, destination: string, keyId: string, sig: string): seq<string> {
    ["origin=" + Quoted(origin), "destination=" + Quoted(destination), "key=" + Quoted(keyId), "sig=" + Quoted(sig)]
  }

  function Create(origin: string, destination: string, version: string, signature: seq<byte>): string {
    PREFIX + Join(Fields(origin, destination, "ed25519:" + version, Base64.Encode(signature)), ',')
  }

  /** What a value must be like to survive: no comma, no quote at either edge. Spaces at
      the edges are fine. */
  predicate Plain(v: string) {
    ',' !in v && Trimmed(v, IsQuote)
  }

  predicate IsName(name: string) {
    name != "" && '=' !in name && forall c | c in name :: 'a' <= c <= 'z'
  }

  lemma NamesAreKept(name: string)
    requires IsName(name)
    ensures KeyOf(name) == name
  {
    forall i | 0 <= i < |name| ensures Lower(name)[i] == name[i] { assert name[i] in name; }
    assert Lower(name) == name;
    assert name[0] in name && name[|name| - 1] in name;
    TrimTrims(name, IsSpace);
  }

  ghost predicate IsField(field: string, name: string, v: string) {
    IsName(name) && Trimmed(v, IsQuote) && field == name + "=" + Quoted(v)
  }

  lemma FieldParses(pairs: seq<string>, params: map<string, string>, field: string, name: string, v: string)
    requires ParsePairs(pairs) == Some(params) && name !in params && IsField(field, name, v)
    ensures ParsePairs(pairs + [field]) == Some(params[name := v])
  {
    var all := pairs + [field];
    assert all[..|all| - 1] == pairs;
    CutFirst(name, Quoted(v));
    NamesAreKept(name);
    UnquoteInverts(v);
  }

  lemma TwoFieldsParse(pairs: seq<string>, params: map<string, string>, f: string, m: string, v: string, g: string,
                       n: string, w: string)
    requires ParsePairs(pairs) == Some(params) && m !in params && n !in params && m != n && IsField(f, m, v)
      && IsField(g, n, w)
    ensures ParsePairs(pairs + [f, g]) == Some(params[m := v][n := w])
  {
    FieldParses(pairs, params, f, m, v);
    FieldParses(pairs + [f], params[m := v], g, n, w);
    assert pairs + [f] + [g] == pairs + [f, g];
  }

  lemma FieldsParse(origin: string, destination: string, keyId: string, sig: string)
    requires forall v | v in {origin, destination, keyId, sig} :: Trimmed(v, IsQuote)
    ensures ParsePairs(Fields(origin, destination, keyId, sig)) ==
      Some(map["origin" := origin, "destination" := destination, "key" := keyId, "sig" := sig])
  {
    var f := Fields(origin, destination, keyId, sig);
    var o, d, k, s := "origin", "destination", "key", "sig";
    assert o[0] == 'o' && d[0] == 'd' && k[0] == 'k' && s[0] == 's';
    assert IsField(f[0], o, origin) && IsField(f[1], d, destination) && IsField(f[2], k, keyId)
      && IsField(f[3], s, sig);
    var params := map[o := origin][d := destination];
    TwoFieldsParse([], map[], f[0], o, origin, f[1], d, destination);
    assert [] + [f[0], f[1]] == [f[0], f[1]] && map[][o := origin][d := destination] == params;
    TwoFieldsParse([f[0], f[1]], params, f[2], k, keyId, f[3], s, sig);
    assert [f[0], f[1]] + [f[2], f[3]] == f;
  }

  lemma FieldsHaveNoComma(origin: string, destination: string, keyId: string, sig: string)
    requires forall v | v in {origin, destination, keyId, sig} :: ',' !in v
    ensures forall p | p in Fields(origin, destination, keyId, sig) :: ',' !in p
  {}

  lemma SignaturesArePlain(signature: seq<byte>)
    ensures Plain(Base64.Encode(signature))
  {
    Base64.EncodeIsClean(signature);
    var sig := Base64.Encode(signature);
    assert Base64.Value(',').None? && Base64.Value('"').None?;
    if sig != "" { assert sig[0] in sig && sig[|sig| - 1] in sig; }
  }

  /** Parsed values are plain, whatever the header looks like. */
  lemma {:induction false} ParsedValuesArePlain(pairs: seq<string>)
    requires forall p | p in pairs :: ',' !in p
    ensures ParsePairs(pairs).Some? ==> forall k | k in ParsePairs(pairs).value :: Plain(ParsePairs(pairs).value[k])
  {
    if pairs != [] {
      var init, last := pairs[..|pairs| - 1], pairs[|pairs| - 1];
      ParsedValuesArePlain(init);
      assert last in pairs;
      CutKeepsCharacters(last);
      if Cut(last).Some? {
        TrimTrims(Cut(last).value.1, IsSpace);
        TrimTrims(Trim(Cut(last).value.1, IsSpace), IsQuote);
      }
    }
  }

  lemma ParsedAuthIsPlain(h: string)
    ensures Parse(h).Parsed? ==>
      var a := Parse(h).auth;
      && Plain(a.origin) && Plain(a.destination) && Plain(a.keyId)
      && a.origin != "" && a.keyId != "" && a.signature != []
  {
    if HasPrefix(h, PREFIX) {
      SplitPartsAreClean(h[|PREFIX|..], ',');
      ParsedValuesArePlain(Split(h[|PREFIX|..], ','));
    }
  }

  /** The round trip, exactly: parsing a created header gives back origin, destination,
      key ID and signature if and only if there is an origin and a signature and the
      three values are plain. */
  lemma RoundTripIff(origin: string, destination: string, version: string, signature: seq<byte>)
    ensures var auth := Auth(origin, destination, "ed25519:" + version, signature);
      Parse(Create(origin, destination, version, signature)) == Parsed(auth) <==>
        origin != "" && signature != [] && Plain(origin) && Plain(destination) && Plain("ed25519:" + version)
  {
    var keyId, sig := "ed25519:" + version, Base64.Encode(signature);
    var h := Create(origin, destination, version, signature);
    var fields := Fields(origin, destination, keyId, sig);
    ParsedAuthIsPlain(h);
    if origin != "" && signature != [] && Plain(origin) && Plain(destination) && Plain(keyId) {
      SignaturesArePlain(signature);
      FieldsHaveNoComma(origin, destination, keyId, sig);
      assert h[|PREFIX|..] == Join(fields, ',');
      SplitJoin(fields, ',');
      FieldsParse(origin, destination, keyId, sig);
      Base64.DecodeInvertsEncode(signature);
    }
  }

  // ----- what the texts are -----

  /** White space by code point. */
  lemma SpacesAre(c: char)
    ensures IsSpace(c) <==>
      c as int in {9, 10, 11, 12, 13, 32, 133, 160, 5760, 8232, 8233, 8239, 8287, 12288} || 8192 <= c as int <= 8202
  {}

  lemma {:induction false} TrimLeftDrops(front: string, rest: string, cut: char -> bool)
    requires forall c | c in front :: cut(c)
    ensures TrimLeft(front + rest, cut) == TrimLeft(rest, cut)
  {
    if front == "" {
      assert front + rest == rest;
    } else {
      assert (front + rest)[1..] == front[1..] + rest && front[0] in front;
      TrimLeftDrops(front[1..], rest, cut);
    }
  }

  lemma {:induction false} TrimRightDrops(rest: string, back: string, cut: char -> bool)
    requires forall c | c in back :: cut(c)
    ensures TrimRight(rest + back, cut) == TrimRight(rest, cut)
  {
    if back == "" {
      assert rest + back == rest;
    } else {
      var n := |back| - 1;
      assert (rest + back)[..|rest| + n] == rest + back[..n] && back[n] in back;
      TrimRightDrops(rest, back[..n], cut);
    }
  }

  /** Trimming takes off just the characters to cut at both ends. */
  lemma TrimIs(front: string, core: string, back: string, cut: char -> bool)
    requires (forall c | c in front :: cut(c)) && forall c | c in back :: cut(c)
    requires Trimmed(core, cut)
    ensures Trim(front + core + back, cut) == core
  {
    assert front + core + back == front + (core + back);
    TrimLeftDrops(front, core + back, cut);
    if core == "" {
      assert core + back == back && back + "" == back;
      TrimLeftDrops(back, "", cut);
    } else {
      TrimRightDrops(core, back, cut);
    }
  }

  /** The same letters, each in upper or lower case. */
  ghost predicate SameLetters(s: string, name: string) {
    |s| == |name| && forall i | 0 <= i < |s| ::
      'a' <= name[i] <= 'z' && (s[i] == name[i] || s[i] as int + 32 == name[i] as int)
  }

  /** Names are read in any case, with any spaces and tabs around them. */
  lemma NameIs(left: string, s: string, right: string, name: string)
    requires SameLetters(s, name) && forall c | c in left + right :: c == ' ' || c == '\t'
    ensures KeyOf(left + s + right) == name
  {
    assert forall c | c in left :: c in left + right;
    assert forall c | c in right :: c in left + right;
    LowerLeaves(left);
    LowerLeaves(right);
    assert Lower(s) == name;
    assert Lower(left + s + right) == left + name + right;
    TrimIs(left, name, right, IsSpace);
  }

  lemma LowerLeaves(s: string)
    requires forall c | c in s :: c == ' ' || c == '\t'
    ensures Lower(s) == s
  {
    forall i | 0 <= i < |s| ensures Lower(s)[i] == s[i] { assert s[i] in s; }
  }

  /** Values lose the spaces around them, and then any number of quotes at both ends. */
  lemma ValueIs(left: string, quotes: string, v: string, more: string, right: string)
    requires (forall c | c in left + right :: c == ' ' || c == '\t') && (forall c | c in quotes + more :: c == '"')
    requires Trimmed(v, IsQuote) && Trimmed(quotes + v + more, IsSpace)
    ensures ValueOf(left + (quotes + v + more) + right) == v
  {
    assert forall c | c in left :: c in left + right;
    assert forall c | c in right :: c in left + right;
    assert forall c | c in quotes :: c in quotes + more;
    assert forall c | c in more :: c in quotes + more;
    TrimIs(left, quotes + v + more, right, IsSpace);
    TrimIs(quotes, v, more, IsQuote);
  }

  lemma {:induction false} CutNoneIff(pair: string)
    ensures Cut(pair).None? <==> '=' !in pair
    ensures Cut(pair).Some? ==> '=' !in Cut(pair).value.0 && pair == Cut(pair).value.0 + "=" + Cut(pair).value.1
  {
    if pair != "" {
      assert pair == [pair[0]] + pair[1..];
      if pair[0] != '=' { CutNoneIff(pair[1..]); }
    }
  }

  /** A pair is cut at its first equals sign, if it has one. */
  lemma CutIff(pair: string, name: string, v: string)
    ensures Cut(pair) == Some((name, v)) <==> '=' !in name && pair == name + "=" + v
  {
    CutNoneIff(pair);
    if '=' !in name { CutFirst(name, v); }
  }

  lemma JoinFour(a: string, b: string, c: string, d: string)
    ensures Join([a, b, c, d], ',') == a + "," + b + "," + c + "," + d
  {
    assert [a, b, c, d][1..] == [b, c, d] && [b, c, d][1..] == [c, d] && [c, d][1..] == [d];
    assert Join([c, d], ',') == c + [','] + d;
    assert Join([b, c, d], ',') == b + [','] + Join([c, d], ',');
    assert Join([a, b, c, d], ',') == a + [','] + Join([b, c, d], ',');
  }

  /** The created header, part by part. */
  lemma CreateIs(origin: string, destination: string, version: string, signature: seq<byte>)
    ensures var q := "\"";
      Create(origin, destination, version, signature) ==
        "X-Matrix " + (("origin=" + (q + origin + q)) + "," + ("destination=" + (q + destination + q)) + ","
                       + ("key=" + (q + ("ed25519:" + version) + q)) + ","
                       + ("sig=" + (q + Base64.Encode(signature) + q)))
  {
    var f := Fields(origin, destination, "ed25519:" + version, Base64.Encode(signature));
    JoinFour(f[0], f[1], f[2], f[3]);
  }

  // ----- what a header says -----

  function NameOf(pair: string): string {
    if Cut(pair).None? then "" else KeyOf(Cut(pair).value.0)
  }

  /** Every pair has an equals sign, and no two have the same name. */
  ghost predicate WellFormed(pairs: seq<string>) {
    && (forall p | p in pairs :: '=' in p)
    && (forall i, j | 0 <= i < j < |pairs| :: NameOf(pairs[i]) != NameOf(pairs[j]))
  }

  /** The value the pairs give for a name; nothing is as good as the empty value. */
  ghost predicate Gives(pairs: seq<string>, name: string, v: string) {
    || (exists p :: p in pairs && NameOf(p) == name && Cut(p).Some? && v == ValueOf(Cut(p).value.1))
    || (v == "" && forall p | p in pairs :: NameOf(p) != name)
  }

  ghost predicate Reads(params: map<string, string>, pairs: seq<string>) {
    forall name, v :: Gives(pairs, name, v) <==> v == Get(params, name)
  }

  lemma GivesMore(pairs: seq<string>, p: string, name: string, v: string)
    requires Cut(p).Some? && forall q | q in pairs :: NameOf(q) != NameOf(p)
    ensures Gives(pairs + [p], name, v) <==>
      if name == NameOf(p) then v == ValueOf(Cut(p).value.1) else Gives(pairs, name, v)
  {
    assert p in pairs + [p];
    assert forall q | q in pairs :: q in pairs + [p];
  }

  lemma WellFormedSoFar(pairs: seq<string>, p: string)
    ensures WellFormed(pairs + [p]) <==>
      WellFormed(pairs) && '=' in p && forall q | q in pairs :: NameOf(q) != NameOf(p)
  {
    var all := pairs + [p];
    if WellFormed(all) {
      forall q | q in pairs ensures '=' in q && NameOf(q) != NameOf(p) {
        var i :| 0 <= i < |pairs| && pairs[i] == q;
        assert all[i] == q && all[|pairs|] == p && q in all;
      }
      forall i, j | 0 <= i < j < |pairs| ensures NameOf(pairs[i]) != NameOf(pairs[j]) {
        assert all[i] == pairs[i] && all[j] == pairs[j];
      }
      assert p in all;
    }
  }

  /** Which lists of pairs are accepted, and what they are read as. */
  lemma {:induction false} ParsePairsIff(pairs: seq<string>)
    ensures ParsePairs(pairs).Some? <==> WellFormed(pairs)
    ensures ParsePairs(pairs).Some? ==>
      && Reads(ParsePairs(pairs).value, pairs)
      && forall k :: k in ParsePairs(pairs).value <==> exists p :: p in pairs && NameOf(p) == k
  {
    if pairs != [] {
      var n := |pairs| - 1;
      var init, p := pairs[..n], pairs[n];
      assert pairs == init + [p];
      ParsePairsIff(init);
      WellFormedSoFar(init, p);
      CutNoneIff(p);
      if ParsePairs(pairs).Some? { ReadsMore(ParsePairs(init).value, init, p); }
    }
  }

  lemma ReadsMore(params: map<string, string>, pairs: seq<string>, p: string)
    requires Cut(p).Some? && Reads(params, pairs) && NameOf(p) !in params
    requires forall k :: k in params <==> exists q :: q in pairs && NameOf(q) == k
    ensures var more := params[NameOf(p) := ValueOf(Cut(p).value.1)];
      && Reads(more, pairs + [p])
      && forall k :: k in more <==> exists q :: q in pairs + [p] && NameOf(q) == k
  {
    var more := params[NameOf(p) := ValueOf(Cut(p).value.1)];
    forall name, v ensures Gives(pairs + [p], name, v) <==> v == Get(more, name) {
      GivesMore(pairs, p, name, v);
      assert Gives(pairs, name, v) <==> v == Get(params, name);
    }
    assert forall q | q in pairs + [p] :: q in pairs || q == p;
    assert p in pairs + [p];
    assert forall q | q in pairs :: q in pairs + [p];
  }

  lemma AuthMeans(params: map<string, string>, pairs: seq<string>, auth: Auth)
    requires Reads(params, pairs)
    ensures AuthOf(params) == Malformed <==> exists v :: Gives(pairs, "sig", v) && Base64.Decode(v).None?
    ensures AuthOf(params) == Parsed(auth) <==>
      && auth.origin != "" && auth.keyId != "" && auth.signature != []
      && Gives(pairs, "origin", auth.origin) && Gives(pairs, "destination", auth.destination)
      && Gives(pairs, "key", auth.keyId)
      && exists v :: Gives(pairs, "sig", v) && Base64.Decode(v) == Some(auth.signature)
  {
    assert Gives(pairs, "sig", Get(params, "sig"));
  }

  /** A header is malformed if its pairs are, or if what they give as the signature is no
      base64. It is skipped if it is for another scheme or gives no origin, key or
      signature. Otherwise it is what its pairs give. */
  lemma HeaderMeans(pairs: seq<string>, auth: Auth)
    requires |pairs| >= 1 && forall p | p in pairs :: ',' !in p
    ensures var h := "X-Matrix " + Join(pairs, ',');
      && (Parse(h) == Malformed <==>
            !WellFormed(pairs) || exists v :: Gives(pairs, "sig", v) && Base64.Decode(v).None?)
      && (Parse(h) == Parsed(auth) <==>
            && WellFormed(pairs) && auth.origin != "" && auth.keyId != "" && auth.signature != []
            && Gives(pairs, "origin", auth.origin) && Gives(pairs, "destination", auth.destination)
            && Gives(pairs, "key", auth.keyId)
            && exists v :: Gives(pairs, "sig", v) && Base64.Decode(v) == Some(auth.signature))
  {
    HeaderIsItsPairs(pairs);
    ParsePairsIff(pairs);
    if WellFormed(pairs) { AuthMeans(ParsePairs(pairs).value, pairs, auth); }
  }

  lemma HeaderIsItsPairs(pairs: seq<string>)
    requires |pairs| >= 1 && forall p | p in pairs :: ',' !in p
    ensures Parse("X-Matrix " + Join(pairs, ',')) ==
      if ParsePairs(pairs).None? then Malformed else AuthOf(ParsePairs(pairs).value)
  {
    var h := "X-Matrix " + Join(pairs, ',');
    assert h[|PREFIX|..] == Join(pairs, ',');
    SplitJoin(pairs, ',');
  }

  lemma OtherSchemesAreSkipped(h: string)
    requires !("X-Matrix " <= h)
    ensures Parse(h) == Skipped
  {}

  // ----- the header list -----

  /** All X-Matrix headers of a request; one malformed header fails the whole request. */
  ghost function ParseAll(headers: seq<string>): Option<seq<Auth>> {
    if headers == [] then Some([])
    else
      var init, last := ParseAll(headers[..|headers| - 1]), Parse(headers[|headers| - 1]);
      if init.None? || last.Malformed? then None
      else if last.Parsed? then Some(init.value + [last.auth])
      else init
  }

  /** One malformed header spoils them all; otherwise the usable ones are there, in order. */
  lemma {:induction false} ParseAllIff(headers: seq<string>)
    ensures ParseAll(headers).None? <==> exists h :: h in headers && Parse(h) == Malformed
    ensures ParseAll(headers).Some? ==>
      forall a :: a in ParseAll(headers).value <==> exists h :: h in headers && Parse(h) == Parsed(a)
  {
    if headers != [] {
      var n := |headers| - 1;
      ParseAllIff(headers[..n]);
      assert headers == headers[..n] + [headers[n]];
    }
  }

  lemma ParseAllLast(headers: seq<string>, h: string)
    ensures ParseAll(headers + [h]) ==
      if ParseAll(headers).None? || Parse(h).Malformed? then None
      else Some(ParseAll(headers).value + if Parse(h).Parsed? then [Parse(h).auth] else [])
  {
    assert (headers + [h])[..|headers|] == headers;
    if ParseAll(headers).Some? { assert ParseAll(headers).value + [] == ParseAll(headers).value; }
  }

  lemma {:induction false} ParseAllInOrder(front: seq<string>, back: seq<string>)
    ensures ParseAll(front + back) ==
      if ParseAll(front).None? || ParseAll(back).None? then None
      else Some(ParseAll(front).value + ParseAll(back).value)
    decreases |back|
  {
    if back == [] {
      assert front + back == front;
      if ParseAll(front).Some? { assert ParseAll(front).value + [] == ParseAll(front).value; }
    } else {
      var n := |back| - 1;
      ParseAllInOrder(front, back[..n]);
      ParseAllLast(back[..n], back[n]);
      ParseAllLast(front + back[..n], back[n]);
      assert back == back[..n] + [back[n]] && front + back == front + back[..n] + [back[n]];
      if ParseAll(front).Some? && ParseAll(back).Some? {
        var f, b, t := ParseAll(front).value, ParseAll(back[..n]).value, Parse(back[n]);
        var last := if t.Parsed? then [t.auth] else [];
        assert f + b + last == f + (b + last);
      }
    }
  }

  method ParsePairList(pairs: seq<string>) returns (params: Option<map<string, string>>)
    ensures params == ParsePairs(pairs)
  {
    var m: map<string, string> := map[];
    for i := 0 to |pairs|
      invariant ParsePairs(pairs[..i]) == Some(m)
    {
      assert pairs[..i + 1][..i] == pairs[..i];
      var cut := Cut(pairs[i]);
      if cut.None? || KeyOf(cut.value.0) in m {
        FailureSticks(pairs, i + 1);
        return None;
      }
      m := m[KeyOf(cut.value.0) := ValueOf(cut.value.1)];
    }
    assert pairs[..|pairs|] == pairs;
    return Some(m);
  }

  lemma {:induction false} FailureSticks(pairs: seq<string>, i: nat)
    requires i <= |pairs| && ParsePairs(pairs[..i]).None?
    ensures ParsePairs(pairs).None?
    decreases |pairs|
  {
    if i == |pairs| {
      assert pairs[..i] == pairs;
    } else {
      var init := pairs[..|pairs| - 1];
      assert init[..i] == pairs[..i];
      FailureSticks(init, i);
    }
  }

  method GetXMatrixAuth(headers: seq<string>) returns (auths: Option<seq<Auth>>)
    ensures auths == ParseAll(headers)
  {
    var list: seq<Auth> := [];
    for i := 0 to |headers|
      invariant ParseAll(headers[..i]) == Some(list)
    {
      var h := headers[i];
      assert headers[..i + 1][..i] == headers[..i];
      if !HasPrefix(h, PREFIX) { continue; }
      var params := ParsePairList(Split(h[|PREFIX|..], ','));
      if params.None? || AuthOf(params.value).Malformed? {
        MalformedSticks(headers, i + 1);
        return None;
      }
      if AuthOf(params.value).Parsed? { list := list + [AuthOf(params.value).auth]; }
    }
    assert headers[..|headers|] == headers;
    return Some(list);
  }

  lemma {:induction false} MalformedSticks(headers: seq<string>, i: nat)
    requires i <= |headers| && ParseAll(headers[..i]).None?
    ensures ParseAll(headers).None?
    decreases |headers|
  {
    if i == |headers| {
      assert headers[..i] == headers;
    } else {
      var init := headers[..|headers| - 1];
      assert init[..i] == headers[..i];
      MalformedSticks(init, i);
    }
  }

  // ----- checking the signatures -----

  /** What is signed. */
  datatype Request = Request(method_: string, uri: string, origin: string, destination: string,
                             content: Option<seq<byte>>)

  /** The cryptography and the JSON encoder, whatever they are. */
  datatype Crypto<!PK, !SK> = Crypto(
    canonical: Request -> Option<string>,
    verify: (PK, string, seq<byte>) -> bool,
    sign: (SK, string) -> seq<byte>,
    publicKey: SK -> PK)

  datatype Verdict =
    | Valid | NoAuth | NotEncodable
    | MultipleOrigins | MultipleDestinations | WrongDestination
    | BadSignature | UnknownKey

  /** The server as its peers address it. */
  datatype Self = Self(ours: set<string>, host: string)

  function Check<PK, SK>(c: Crypto<PK, SK>, first: Auth, h: Auth, message: string, keys: map<string, PK>,
                         self: Self): Verdict {
    if h.origin != first.origin then MultipleOrigins
    else if h.destination != first.destination then MultipleDestinations
    else if h.destination != "" && (h.destination !in self.ours || self.host != h.destination) then WrongDestination
    else if h.keyId !in keys then UnknownKey
    else if !c.verify(keys[h.keyId], message, h.signature) then BadSignature
    else Valid
  }

  /** Acceptance means: one origin, one destination, which if named is this server, and
      every signature verifies, with a known key of that origin, over the same canonical
      form of this very request. */
  ghost predicate Accepts<PK, SK>(c: Crypto<PK, SK>, method_: string, uri: string, content: Option<seq<byte>>,
                                  headers: seq<Auth>, keys: map<string, PK>, self: Self) {
    && headers != []
    && var o, d := headers[0].origin, headers[0].destination;
       var message := c.canonical(Request(method_, uri, o, d, content));
       && message.Some?
       && (d == "" || (d in self.ours && self.host == d))
       && forall h | h in headers ::
          h.origin == o && h.destination == d && h.keyId in keys && c.verify(keys[h.keyId], message.value, h.signature)
  }

  /** The header is from and for the same servers as the first one, and for nobody else. */
  ghost predicate Addressed(first: Auth, h: Auth, self: Self) {
    && h.origin == first.origin && h.destination == first.destination
    && (h.destination == "" || (h.destination in self.ours && self.host == h.destination))
  }

  ghost predicate Good<PK, SK>(c: Crypto<PK, SK>, first: Auth, h: Auth, message: string, keys: map<string, PK>,
                               self: Self) {
    Addressed(first, h, self) && h.keyId in keys && c.verify(keys[h.keyId], message, h.signature)
  }

  /** What is wrong with a header, in the order in which it is looked at. */
  ghost predicate FaultIs<PK, SK>(c: Crypto<PK, SK>, first: Auth, h: Auth, message: string, keys: map<string, PK>,
                                  self: Self, v: Verdict) {
    match v
    case MultipleOrigins => h.origin != first.origin
    case MultipleDestinations => h.origin == first.origin && h.destination != first.destination
    case WrongDestination =>
      && h.origin == first.origin && h.destination == first.destination && h.destination != ""
      && !(h.destination in self.ours && h.destination == self.host)
    case UnknownKey => Addressed(first, h, self) && h.keyId !in keys
    case BadSignature =>
      Addressed(first, h, self) && h.keyId in keys && !c.verify(keys[h.keyId], message, h.signature)
    case _ => false
  }

  /** The verdict is that of the first header at fault. */
  ghost predicate FirstFault<PK, SK>(c: Crypto<PK, SK>, message: string, headers: seq<Auth>, keys: map<string, PK>,
                                     self: Self, v: Verdict) {
    exists i | 0 <= i < |headers| ::
      && FaultIs(c, headers[0], headers[i], message, keys, self, v)
      && forall k | 0 <= k < i :: Good(c, headers[0], headers[k], message, keys, self)
  }

  method ValidateHeaders<PK, SK>(c: Crypto<PK, SK>, method_: string, uri: string, content: Option<seq<byte>>,
                                 headers: seq<Auth>, keys: map<string, PK>, self: Self)
    returns (v: Verdict)
    ensures v == Valid <==> Accepts(c, method_, uri, content, headers, keys, self)
    ensures v == NoAuth <==> headers == []
    ensures v == NotEncodable <==>
      headers != [] && c.canonical(Request(method_, uri, headers[0].origin, headers[0].destination, content)).None?
    ensures v in {MultipleOrigins, MultipleDestinations, WrongDestination, BadSignature, UnknownKey} ==>
      var message := c.canonical(Request(method_, uri, headers[0].origin, headers[0].destination, content));
      message.Some? && FirstFault(c, message.value, headers, keys, self, v)
  {
    if headers == [] { return NoAuth; }
    var first := headers[0];
    assert first in headers;
    var message := c.canonical(Request(method_, uri, first.origin, first.destination, content));
    if message.None? { return NotEncodable; }
    for i := 0 to |headers|
      invariant forall k | 0 <= k < i :: Good(c, first, headers[k], message.value, keys, self)
    {
      v := Check(c, first, headers[i], message.value, keys, self);
      if v != Valid {
        assert headers[i] in headers;
        return;
      }
    }
    return Valid;
  }

  lemma OneHeader(h: string)
    requires Parse(h).Parsed?
    ensures ParseAll([h]) == Some([Parse(h).auth])
  {
    assert [h][..0] == [] && [h][0] == h;
    assert ParseAll([h][..0]) == Some([]);
    assert [] + [Parse(h).auth] == [Parse(h).auth];
  }

  lemma OneIsAccepted<PK, SK>(c: Crypto<PK, SK>, method_: string, uri: string, content: Option<seq<byte>>, h: Auth,
                              keys: map<string, PK>, self: Self)
    requires h.keyId in keys && (h.destination == "" || (h.destination in self.ours && self.host == h.destination))
    requires var message := c.canonical(Request(method_, uri, h.origin, h.destination, content));
      message.Some? && c.verify(keys[h.keyId], message.value, h.signature)
    ensures Accepts(c, method_, uri, content, [h], keys, self)
  {}

  /** A header this server's peer creates for it is accepted: parsing gives back what
      went in, and the signature verifies under the matching key. */
  lemma CreatedHeadersAreAccepted<PK, SK>(c: Crypto<PK, SK>, sk: SK, origin: string, destination: string,
                                          version: string, method_: string, uri: string,
                                          content: Option<seq<byte>>, keys: map<string, PK>, self: Self)
    requires forall k, m :: c.verify(c.publicKey(k), m, c.sign(k, m)) && c.sign(k, m) != []
    requires origin != "" && Plain(origin) && Plain(destination) && Plain("ed25519:" + version)
    requires "ed25519:" + version in keys && keys["ed25519:" + version] == c.publicKey(sk)
    requires destination == "" || (destination in self.ours && self.host == destination)
    requires c.canonical(Request(method_, uri, origin, destination, content)).Some?
    ensures var message := c.canonical(Request(method_, uri, origin, destination, content)).value;
      var h := Create(origin, destination, version, c.sign(sk, message));
      ParseAll([h]).Some? && Accepts(c, method_, uri, content, ParseAll([h]).value, keys, self)
  {
    var message := c.canonical(Request(method_, uri, origin, destination, content)).value;
    var h := Create(origin, destination, version, c.sign(sk, message));
    var auth := Auth(origin, destination, "ed25519:" + version, c.sign(sk, message));
    RoundTripIff(origin, destination, version, c.sign(sk, message));
    OneHeader(h);
    OneIsAccepted(c, method_, uri, content, auth, keys, self);
  }
}
