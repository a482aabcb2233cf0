/** Unpadded base64 (sections 3.2 and 4 of RFC 4648), as util/unpadded_base64.go uses it:
    the decoder skips line breaks and ignores left-over bits. */
module Base64 {
  import opened Bytes
  import opened Wrappers

  type sextet = x: int | 0 <= x < 64

  function Symbol(v: sextet): char {
    if v < 26 then ('A' as int + v) as char
    else if v < 52 then ('a' as int + v - 26) as char
    else if v < 62 then ('0' as int + v - 52) as char
    else if v == 62 then '+'
    else '/'
  }

  function Value(c: char): Option<sextet> {
    if 'A' <= c <= 'Z' then Some(c as int - 'A' as int)
    else if 'a' <= c <= 'z' then Some(c as int - 'a' as int + 26)
    else if '0' <= c <= '9' then Some(c as int - '0' as int + 52)
    else if c == '+' then Some(62)
    else if c == '/' then Some(63)
    else None
  }

  function Encode(b: seq<byte>): string {
    if b == [] then ""
    else if |b| == 1 then [Symbol(b[0] / 4), Symbol(b[0] % 4 * 16)]
    else if |b| == 2 then [Symbol(b[0] / 4), Symbol(b[0] % 4 * 16 + b[1] / 16), Symbol(b[1] % 16 * 4)]
    else
      [Symbol(b[0] / 4), Symbol(b[0] % 4 * 16 + b[1] / 16), Symbol(b[1] % 16 * 4 + b[2] / 64),
       Symbol(b[2] % 64)] + Encode(b[3..])
  }

  function WithoutBreaks(s: string): string {
    if s == "" then ""
    else if s[0] == '\n' || s[0] == '\r' then WithoutBreaks(s[1..])
    else [s[0]] + WithoutBreaks(s[1..])
  }

  function First(a: int, b: int): byte
    requires 0 <= a < 64 && 0 <= b < 64
  {
    a * 4 + b / 16
  }

  function Second(b: int, c: int): byte
    requires 0 <= b < 64 && 0 <= c < 64
  {
    b % 16 * 16 + c / 4
  }

  function Third(c: int, d: int): byte
    requires 0 <= c < 64 && 0 <= d < 64
  {
    c % 4 * 64 + d
  }

  function DecodeSymbols(v: seq<sextet>): Option<seq<byte>> {
    if v == [] then Some([])
    else if |v| == 1 then None
    else if |v| == 2 then Some([First(v[0], v[1])])
    else if |v| == 3 then Some([First(v[0], v[1]), Second(v[1], v[2])])
    else
      var rest := DecodeSymbols(v[4..]);
      if rest.None? then None else Some([First(v[0], v[1]), Second(v[1], v[2]), Third(v[2], v[3])] + rest.value)
  }

  function Values(s: string): Option<seq<sextet>> {
    if s == "" then Some([])
    else
      var v, rest := Value(s[0]), Values(s[1..]);
      if v.None? || rest.None? then None else Some([v.value] + rest.value)
  }

  function Decode(s: string): Option<seq<byte>> {
    var v := Values(WithoutBreaks(s));
    if v.None? then None else DecodeSymbols(v.value)
  }

  /** The symbols of an encoding, as numbers. */
  function Sextets(b: seq<byte>): seq<sextet> {
    if b == [] then []
    else if |b| == 1 then [b[0] / 4, b[0] % 4 * 16]
    else if |b| == 2 then [b[0] / 4, b[0] % 4 * 16 + b[1] / 16, b[1] % 16 * 4]
    else [b[0] / 4, b[0] % 4 * 16 + b[1] / 16, b[1] % 16 * 4 + b[2] / 64, b[2] % 64] + Sextets(b[3..])
  }

  lemma SymbolInverts(v: sextet)
    ensures Value(Symbol(v)) == Some(v)
  {}

  /** Three bytes survive being cut into four sextets. */
  lemma GroupInverts(x: byte, y: byte, z: byte)
    ensures First(x / 4, x % 4 * 16 + y / 16) == x
    ensures Second(x % 4 * 16 + y / 16, y % 16 * 4 + z / 64) == y
    ensures Third(y % 16 * 4 + z / 64, z % 64) == z
  {}

  lemma TwoDecode(v: seq<sextet>, x: byte)
    requires |v| == 2 && First(v[0], v[1]) == x
    ensures DecodeSymbols(v) == Some([x])
  {}

  lemma ThreeDecode(v: seq<sextet>, x: byte, y: byte)
    requires |v| == 3 && First(v[0], v[1]) == x && Second(v[1], v[2]) == y
    ensures DecodeSymbols(v) == Some([x, y])
  {}

  lemma FourDecode(v: seq<sextet>, x: byte, y: byte, z: byte, rest: seq<byte>)
    requires |v| >= 4 && First(v[0], v[1]) == x && Second(v[1], v[2]) == y && Third(v[2], v[3]) == z
    requires DecodeSymbols(v[4..]) == Some(rest)
    ensures DecodeSymbols(v) == Some([x, y, z] + rest)
  {}

  lemma {:induction false} SextetsDecode(b: seq<byte>)
    ensures DecodeSymbols(Sextets(b)) == Some(b)
  {
    if |b| == 1 {
      GroupInverts(b[0], 0, 0);
      TwoDecode(Sextets(b), b[0]);
      assert b == [b[0]];
    } else if |b| == 2 {
      GroupInverts(b[0], b[1], 0);
      ThreeDecode(Sextets(b), b[0], b[1]);
      assert b == [b[0], b[1]];
    } else if |b| >= 3 {
      SextetsDecode(b[3..]);
      GroupInverts(b[0], b[1], b[2]);
      assert Sextets(b)[4..] == Sextets(b[3..]);
      FourDecode(Sextets(b), b[0], b[1], b[2], b[3..]);
      assert b == [b[0], b[1], b[2]] + b[3..];
    }
  }

  /** Every character of an encoding belongs to the alphabet. */
  lemma {:induction false} EncodeIsClean(b: seq<byte>)
    ensures forall c | c in Encode(b) :: Value(c).Some?
    ensures b != [] ==> Encode(b) != ""
  {
    if |b| >= 3 {
      EncodeIsClean(b[3..]);
      SymbolInverts(b[0] / 4);
      SymbolInverts(b[0] % 4 * 16 + b[1] / 16);
      SymbolInverts(b[1] % 16 * 4 + b[2] / 64);
      SymbolInverts(b[2] % 64);
    }
  }

  function Symbols(v: seq<sextet>): string {
    seq(|v|, i requires 0 <= i < |v| => Symbol(v[i]))
  }

  lemma {:induction false} EncodeIsSymbols(b: seq<byte>)
    ensures Encode(b) == Symbols(Sextets(b))
  {
    if |b| >= 3 {
      EncodeIsSymbols(b[3..]);
    }
  }

  lemma {:induction false} ValuesOfSymbols(v: seq<sextet>, s: string)
    requires |s| == |v| && forall i | 0 <= i < |v| :: Value(s[i]) == Some(v[i])
    ensures Values(s) == Some(v)
  {
    if v != [] {
      ValuesOfSymbols(v[1..], s[1..]);
      assert v == [v[0]] + v[1..];
    }
  }

  lemma {:induction false} NoBreaks(s: string)
    requires forall c | c in s :: Value(c).Some?
    ensures WithoutBreaks(s) == s
  {
    if s != "" {
      assert s[0] in s;
      NoBreaks(s[1..]);
      assert s == [s[0]] + s[1..];
    }
  }

  lemma DecodeInvertsEncode(b: seq<byte>)
    ensures Decode(Encode(b)) == Some(b)
  {
    var v := Sextets(b);
    EncodeIsSymbols(b);
    forall i | 0 <= i < |v| ensures Value(Symbols(v)[i]) == Some(v[i]) { SymbolInverts(v[i]); }
    ValuesOfSymbols(v, Symbols(v));
    EncodeIsClean(b);
    NoBreaks(Encode(b));
    SextetsDecode(b);
  }

  // ----- what the symbols and the groups are -----

  const UPPER := "ABCDEFGHIJKLMNOPQRSTUVWXYZ"
  const LOWER := "abcdefghijklmnopqrstuvwxyz"
  const DIGITS := "0123456789"

  /** The alphabet of section 4 of RFC 4648. */
  const ALPHABET := UPPER + LOWER + DIGITS + "+/"

  lemma UpperIs(i: nat)
    requires i < 26
    ensures Symbol(i) == UPPER[i]
  {}

  lemma LowerIs(i: nat)
    requires i < 26
    ensures Symbol(26 + i) == LOWER[i]
  {}

  lemma DigitIs(i: nat)
    requires i < 10
    ensures Symbol(52 + i) == DIGITS[i]
  {}

  lemma AlphabetIs(v: sextet)
    ensures |ALPHABET| == 64 && Symbol(v) == ALPHABET[v]
  {
    if v < 26 {
      UpperIs(v);
    } else if v < 52 {
      LowerIs(v - 26);
    } else if v < 62 {
      DigitIs(v - 52);
    }
  }

  lemma SymbolOfValue(c: char)
    ensures Value(c).Some? ==> Symbol(Value(c).value) == c
  {}

  /** The values are those of the standard alphabet, and no other character has one. */
  lemma ValueIff(c: char, v: sextet)
    ensures |ALPHABET| == 64 && (Value(c) == Some(v) <==> c == ALPHABET[v])
  {
    AlphabetIs(v);
    SymbolInverts(v);
    SymbolOfValue(c);
  }

  lemma FourSextets(x: byte, y: byte, z: byte)
    ensures x / 4 * 262144 + (x % 4 * 16 + y / 16) * 4096 + (y % 16 * 4 + z / 64) * 64 + z % 64 ==
      x * 65536 + y * 256 + z
  {
    assert x == 4 * (x / 4) + x % 4 && y == 16 * (y / 16) + y % 16 && z == 64 * (z / 64) + z % 64;
  }

  /** A group of three bytes and its four sextets are the same number of 24 bits; at the
      end one byte makes two and two bytes make three sextets, filled up with zero bits. */
  lemma SextetsSpellTheBytes(b: seq<byte>)
    ensures var v := Sextets(b);
      match |b|
      case 0 => v == []
      case 1 => |v| == 2 && v[0] as int * 64 + v[1] as int == b[0] as int * 16
      case 2 => |v| == 3 && v[0] as int * 4096 + v[1] as int * 64 + v[2] as int == (b[0] as int * 256 + b[1] as int) * 4
      case _ =>
        && |v| >= 4 && v[4..] == Sextets(b[3..])
        && v[0] as int * 262144 + v[1] as int * 4096 + v[2] as int * 64 + v[3] as int ==
           b[0] as int * 65536 + b[1] as int * 256 + b[2] as int
  {
    if |b| == 1 {
      FourSextets(b[0], 0, 0);
    } else if |b| == 2 {
      FourSextets(b[0], b[1], 0);
    } else if |b| >= 3 {
      FourSextets(b[0], b[1], b[2]);
    }
  }

  lemma {:induction false} BreaksGoAnywhere(a: string, b: string)
    ensures WithoutBreaks(a + b) == WithoutBreaks(a) + WithoutBreaks(b)
  {
    if a == "" {
      assert a + b == b;
    } else {
      BreaksGoAnywhere(a[1..], b);
      assert (a + b)[1..] == a[1..] + b && (a + b)[0] == a[0];
    }
  }

  /** Line breaks do not matter, wherever they are. */
  lemma BreaksAreSkipped(a: string, b: string)
    ensures Decode(a + "\n" + b) == Decode(a + b) && Decode(a + "\r" + b) == Decode(a + b)
  {
    forall c | c in {"\n", "\r"} ensures Decode(a + c + b) == Decode(a + b) {
      BreaksGoAnywhere(a + c, b);
      BreaksGoAnywhere(a, c);
      BreaksGoAnywhere(a, b);
      assert c[1..] == "";
      assert WithoutBreaks(c) == "" && WithoutBreaks(a) + "" == WithoutBreaks(a);
    }
  }

  lemma SymbolsDecode(v: seq<sextet>)
    ensures Decode(Symbols(v)) == DecodeSymbols(v)
  {
    forall i | 0 <= i < |v| ensures Value(Symbols(v)[i]) == Some(v[i]) { SymbolInverts(v[i]); }
    ValuesOfSymbols(v, Symbols(v));
    NoBreaks(Symbols(v));
  }

  lemma ThreeBytes(a: sextet, b: sextet, c: sextet, d: sextet)
    ensures First(a, b) * 65536 + Second(b, c) * 256 + Third(c, d) == a * 262144 + b * 4096 + c * 64 + d
    ensures a * 64 + b == First(a, b) * 16 + b % 16
    ensures a * 4096 + b * 64 + c == (First(a, b) * 256 + Second(b, c)) * 4 + c % 4
  {
    assert b == 16 * (b / 16) + b % 16 && c == 4 * (c / 4) + c % 4;
  }

  /** What a list of sextets is read as, if it is not one too long: four of them and three
      bytes are the same number; of two or three at the end, the four or two bits that are
      left over are not looked at. */
  lemma SextetsAreRead(v: seq<sextet>)
    ensures |v| == 1 ==> DecodeSymbols(v) == None
    ensures DecodeSymbols(v).Some? ==>
      var b := DecodeSymbols(v).value;
      match |v|
      case 0 => b == []
      case 2 => |b| == 1 && (v[0] as int * 64 + v[1] as int) / 16 == b[0] as int
      case 3 =>
        |b| == 2 && (v[0] as int * 4096 + v[1] as int * 64 + v[2] as int) / 4 == b[0] as int * 256 + b[1] as int
      case _ =>
        && |b| >= 3 && |v| >= 4 && DecodeSymbols(v[4..]) == Some(b[3..])
        && v[0] as int * 262144 + v[1] as int * 4096 + v[2] as int * 64 + v[3] as int ==
           b[0] as int * 65536 + b[1] as int * 256 + b[2] as int
  {
    if |v| == 2 {
      ThreeBytes(v[0], v[1], 0, 0);
    } else if |v| == 3 {
      ThreeBytes(v[0], v[1], v[2], 0);
    } else if |v| >= 4 {
      ThreeBytes(v[0], v[1], v[2], v[3]);
    }
  }

  lemma {:induction false} ValuesIff(s: string)
    ensures Values(s).Some? <==> forall c | c in s :: Value(c).Some?
    ensures Values(s).Some? ==> |Values(s).value| == |s|
  {
    if s != "" {
      ValuesIff(s[1..]);
      assert s == [s[0]] + s[1..];
    }
  }

  lemma {:induction false} OnlyBreaksGo(s: string, c: char)
    ensures c in WithoutBreaks(s) <==> c in s && c != '\n' && c != '\r'
  {
    if s != "" {
      OnlyBreaksGo(s[1..], c);
      assert s == [s[0]] + s[1..];
    }
  }

  lemma GroupIff(v: seq<sextet>)
    requires |v| >= 4
    ensures DecodeSymbols(v).Some? <==> DecodeSymbols(v[4..]).Some?
  {}

  lemma {:induction false} SymbolsIff(v: seq<sextet>, k: nat)
    requires 4 * k <= |v| < 4 * k + 4
    ensures DecodeSymbols(v).Some? <==> |v| != 4 * k + 1
    decreases k
  {
    if k > 0 {
      GroupIff(v);
      SymbolsIff(v[4..], k - 1);
    }
  }

  /** What can be decoded: symbols of the alphabet and line breaks, and not one symbol more
      than a multiple of four. */
  lemma DecodesIff(s: string)
    ensures Decode(s).Some? <==>
      (forall c | c in s :: Value(c).Some? || c == '\n' || c == '\r') && |WithoutBreaks(s)| % 4 != 1
  {
    ValuesIff(WithoutBreaks(s));
    forall c ensures c in WithoutBreaks(s) <==> c in s && c != '\n' && c != '\r' { OnlyBreaksGo(s, c); }
    if Values(WithoutBreaks(s)).Some? {
      SymbolsIff(Values(WithoutBreaks(s)).value, |WithoutBreaks(s)| / 4);
    }
  }
}
