/** base64url without padding: the alphabet of section 5 of RFC 4648, decoding strict
    about the unused bits of the last character (section 3.5). */
module Base64Url {
  import opened Machine

  type Sextet = x: int | 0 <= x < 64

  function CharOf(v: Sextet): char {
    if v < 26 then ('A' as int + v) as char
    else if v < 52 then ('a' as int + (v - 26)) as char
    else if v < 62 then ('0' as int + (v - 52)) as char
    else if v == 62 then '-'
    else '_'
  }

  function SextetOf(c: char): Option<Sextet> {
    if 'A' <= c <= 'Z' then Some(c as int - 'A' as int)
    else if 'a' <= c <= 'z' then Some(c as int - 'a' as int + 26)
    else if '0' <= c <= '9' then Some(c as int - '0' as int + 52)
    else if c == '-' then Some(62)
    else if c == '_' then Some(63)
    else None
  }

  lemma AlphabetIsBijective(v: Sextet, c: char)
    ensures SextetOf(CharOf(v)) == Some(v)
    ensures SextetOf(c).Some? ==> CharOf(SextetOf(c).value) == c
  {
  }

  /** Table 2 of RFC 4648: upper case, lower case, digits, each in order, then `-` and `_`. */
  lemma AlphabetInOrder(v: Sextet)
    ensures CharOf(0) == 'A' && CharOf(25) == 'Z' && CharOf(26) == 'a' && CharOf(51) == 'z'
    ensures CharOf(52) == '0' && CharOf(61) == '9' && CharOf(62) == '-' && CharOf(63) == '_'
    ensures v < 63 && v !in {25, 51, 61, 62} ==> CharOf(v + 1) as int == CharOf(v) as int + 1
  {
  }

  function Encode(bytes: Bytes): string {
    if bytes == [] then ""
    else if |bytes| == 1 then [CharOf(bytes[0] / 4), CharOf((bytes[0] % 4) * 16)]
    else if |bytes| == 2 then
      [CharOf(bytes[0] / 4), CharOf((bytes[0] % 4) * 16 + bytes[1] / 16), CharOf((bytes[1] % 16) * 4)]
    else
      [CharOf(bytes[0] / 4),
       CharOf((bytes[0] % 4) * 16 + bytes[1] / 16),
       CharOf((bytes[1] % 16) * 4 + bytes[2] / 64),
       CharOf(bytes[2] % 64)] + Encode(bytes[3..])
  }

  /** The sextets of a text, or none when a character is outside the alphabet. */
  function Sextets(s: string): Option<seq<Sextet>> {
    if s == "" then Some([])
    else
      match (SextetOf(s[0]), Sextets(s[1..]))
      case (Some(v), Some(rest)) => Some([v] + rest)
      case _ => None
  }

  // The three bytes that four sextets make.

  function FirstByte(a: Sextet, b: Sextet): u8 {
    var x: int, y: int := a, b;
    x * 4 + y / 16
  }

  function SecondByte(b: Sextet, c: Sextet): u8 {
    var x: int, y: int := b, c;
    (x % 16) * 16 + y / 4
  }

  function ThirdByte(c: Sextet, d: Sextet): u8 {
    var x: int, y: int := c, d;
    (x % 4) * 64 + y
  }

  function Join(v: seq<Sextet>): Option<Bytes> {
    if v == [] then Some([])
    else if |v| == 1 then None
    else if |v| == 2 then
      if v[1] % 16 == 0 then Some([FirstByte(v[0], v[1])]) else None
    else if |v| == 3 then
      if v[2] % 4 == 0 then Some([FirstByte(v[0], v[1]), SecondByte(v[1], v[2])]) else None
    else
      match Join(v[4..])
      case None => None
      case Some(rest) =>
        Some([FirstByte(v[0], v[1]), SecondByte(v[1], v[2]), ThirdByte(v[2], v[3])] + rest)
  }

  function Decode(s: string): Option<Bytes> {
    match Sextets(s)
    case None => None
    case Some(v) => Join(v)
  }

  /** The sextets of some bytes, unused low bits zero. */
  function Split(bytes: Bytes): seq<Sextet> {
    if bytes == [] then []
    else if |bytes| == 1 then [bytes[0] / 4, (bytes[0] % 4) * 16]
    else if |bytes| == 2 then [bytes[0] / 4, (bytes[0] % 4) * 16 + bytes[1] / 16, (bytes[1] % 16) * 4]
    else
      [bytes[0] / 4, (bytes[0] % 4) * 16 + bytes[1] / 16, (bytes[1] % 16) * 4 + bytes[2] / 64, bytes[2] % 64]
      + Split(bytes[3..])
  }

  function Chars(v: seq<Sextet>): string {
    if v == [] then "" else [CharOf(v[0])] + Chars(v[1..])
  }

  lemma {:induction false} CharsAppend(a: seq<Sextet>, b: seq<Sextet>)
    ensures Chars(a + b) == Chars(a) + Chars(b)
  {
    hide CharOf;
    if a == [] {
      assert a + b == b;
    } else {
      CharsAppend(a[1..], b);
      assert (a + b)[0] == a[0] && (a + b)[1..] == a[1..] + b;
      var head := [CharOf(a[0])];
      assert head + (Chars(a[1..]) + Chars(b)) == (head + Chars(a[1..])) + Chars(b);
    }
  }

  lemma {:induction false} EncodeIsCharsOfSplit(bytes: Bytes)
    ensures Encode(bytes) == Chars(Split(bytes))
  {
    if |bytes| >= 3 {
      EncodeIsCharsOfSplit(bytes[3..]);
      CharsAppend(Split(bytes)[..4], Split(bytes[3..]));
      var v := Split(bytes)[..4];
      assert Chars(v) == [CharOf(v[0])] + Chars(v[1..]);
      assert Chars(v[1..]) == [CharOf(v[1])] + Chars(v[2..]);
      assert Chars(v[2..]) == [CharOf(v[2])] + Chars(v[3..]);
      assert Chars(v[3..]) == [CharOf(v[3])];
      assert Split(bytes) == v + Split(bytes[3..]);
    } else if |bytes| == 2 {
      var v := Split(bytes);
      assert Chars(v[1..]) == [CharOf(v[1])] + Chars(v[2..]);
      assert Chars(v[2..]) == [CharOf(v[2])];
    } else if |bytes| == 1 {
      var v := Split(bytes);
      assert Chars(v[1..]) == [CharOf(v[1])];
    }
  }

  lemma {:induction false} SextetsOfChars(v: seq<Sextet>)
    ensures Sextets(Chars(v)) == Some(v)
  {
    if v != [] {
      SextetsOfChars(v[1..]);
      AlphabetIsBijective(v[0], 'A');
      assert Chars(v)[1..] == Chars(v[1..]);
      assert v == [v[0]] + v[1..];
    }
  }

  lemma {:induction false} CharsOfSextets(s: string)
    requires Sextets(s).Some?
    ensures Chars(Sextets(s).value) == s
  {
    if s != "" {
      CharsOfSextets(s[1..]);
      AlphabetIsBijective(0, s[0]);
      assert Sextets(s).value[1..] == Sextets(s[1..]).value;
    }
  }

  lemma Ungroup(x: u8, y: u8, z: u8)
    ensures FirstByte(x / 4, (x % 4) * 16 + y / 16) == x
    ensures SecondByte((x % 4) * 16 + y / 16, (y % 16) * 4 + z / 64) == y
    ensures ThirdByte((y % 16) * 4 + z / 64, z % 64) == z
  {
  }

  lemma JoinTriple(x: u8, y: u8, z: u8, rest: seq<Sextet>)
    requires Join(rest).Some?
    ensures Join([x / 4, (x % 4) * 16 + y / 16, (y % 16) * 4 + z / 64, z % 64] + rest)
            == Some([x, y, z] + Join(rest).value)
  {
    hide FirstByte, SecondByte, ThirdByte;
    Ungroup(x, y, z);
    var v: seq<Sextet> := [x / 4, (x % 4) * 16 + y / 16, (y % 16) * 4 + z / 64, z % 64] + rest;
    assert v[4..] == rest;
  }

  lemma {:induction false} JoinUndoesSplit(bytes: Bytes)
    ensures Join(Split(bytes)) == Some(bytes)
  {
    if |bytes| >= 3 {
      JoinUndoesSplit(bytes[3..]);
      JoinTriple(bytes[0], bytes[1], bytes[2], Split(bytes[3..]));
      assert bytes == [bytes[0], bytes[1], bytes[2]] + bytes[3..];
    } else if |bytes| == 2 {
      assert bytes == [bytes[0], bytes[1]];
    } else if |bytes| == 1 {
      assert bytes == [bytes[0]];
    }
  }

  lemma Regroup(a: Sextet, b: Sextet, c: Sextet, d: Sextet)
    ensures FirstByte(a, b) / 4 == a
    ensures (FirstByte(a, b) % 4) * 16 + SecondByte(b, c) / 16 == b
    ensures (SecondByte(b, c) % 16) * 4 + ThirdByte(c, d) / 64 == c
    ensures ThirdByte(c, d) % 64 == d
  {
  }

  lemma SplitQuartet(a: Sextet, b: Sextet, c: Sextet, d: Sextet, rest: Bytes)
    ensures Split([FirstByte(a, b), SecondByte(b, c), ThirdByte(c, d)] + rest) == [a, b, c, d] + Split(rest)
  {
    hide FirstByte, SecondByte, ThirdByte;
    var bytes: Bytes := [FirstByte(a, b), SecondByte(b, c), ThirdByte(c, d)] + rest;
    assert bytes[3..] == rest;
    Regroup(a, b, c, d);
  }

  lemma {:induction false} SplitUndoesJoin(v: seq<Sextet>)
    requires Join(v).Some?
    ensures Split(Join(v).value) == v
  {
    if |v| >= 4 {
      SplitUndoesJoin(v[4..]);
      SplitQuartet(v[0], v[1], v[2], v[3], Join(v[4..]).value);
      assert v == [v[0], v[1], v[2], v[3]] + v[4..];
    } else if |v| == 3 {
      Regroup(v[0], v[1], v[2], 0);
      assert v == [v[0], v[1], v[2]];
    } else if |v| == 2 {
      assert v == [v[0], v[1]];
    }
  }

  /** Every byte string survives encoding. */
  lemma DecodeUndoesEncode(bytes: Bytes)
    ensures Decode(Encode(bytes)) == Some(bytes)
  {
    EncodeIsCharsOfSplit(bytes);
    SextetsOfChars(Split(bytes));
    JoinUndoesSplit(bytes);
  }

  /** The strict decoder accepts one text per byte string: the encoder's. */
  lemma EncodeUndoesDecode(s: string)
    requires Decode(s).Some?
    ensures Encode(Decode(s).value) == s
  {
    SplitUndoesJoin(Sextets(s).value);
    EncodeIsCharsOfSplit(Decode(s).value);
    CharsOfSextets(s);
  }

  /** Section 4 of RFC 4648: three bytes are a number of 24 bits, first byte first, and are
      written as its four digits to the base 64; one or two bytes at the end are filled up
      with zero bits to two or three digits. */
  lemma EncodeIsBigEndian(bytes: Bytes) returns (v: seq<Sextet>)
    requires bytes != []
    ensures |v| == (if |bytes| == 1 then 2 else if |bytes| == 2 then 3 else 4) <= |Encode(bytes)|
    ensures forall i :: 0 <= i < |v| ==> Encode(bytes)[i] == CharOf(v[i])
    ensures Encode(bytes)[|v|..] == if |bytes| <= 3 then "" else Encode(bytes[3..])
    ensures if |bytes| == 1 then DigitsValue(v, 64) == DigitsValue(bytes, 256) * 16
            else if |bytes| == 2 then DigitsValue(v, 64) == DigitsValue(bytes, 256) * 4
            else DigitsValue(v, 64) == DigitsValue(bytes[..3], 256)
  {
    var digits := if |bytes| == 1 then 2 else if |bytes| == 2 then 3 else 4;
    v := Split(bytes)[..digits];
    ShortValues(v, 64);
    hide DigitsValue;
    if |bytes| >= 3 {
      assert bytes[..3] == [bytes[0], bytes[1], bytes[2]];
      ShortValues(bytes[..3], 256);
      TripleValue(bytes[0], bytes[1], bytes[2]);
    } else {
      ShortValues(bytes, 256);
    }
  }

  lemma TripleValue(x: u8, y: u8, z: u8)
    ensures ((x / 4 * 64 + ((x % 4) * 16 + y / 16)) * 64 + ((y % 16) * 4 + z / 64)) * 64 + z % 64
            == (x * 256 + y) * 256 + z
  {
    var a: int, b: int, c: int := x, y, z;
    assert a == a / 4 * 4 + a % 4 && b == b / 16 * 16 + b % 16 && c == c / 64 * 64 + c % 64;
  }

  /** The number with the given digits, first digit heaviest. */
  function DigitsValue(digits: seq<int>, base: int): int {
    if digits == [] then 0 else DigitsValue(digits[..|digits| - 1], base) * base + digits[|digits| - 1]
  }

  lemma ShortValues(d: seq<int>, base: int)
    ensures |d| == 1 ==> DigitsValue(d, base) == d[0]
    ensures |d| == 2 ==> DigitsValue(d, base) == d[0] * base + d[1]
    ensures |d| == 3 ==> DigitsValue(d, base) == (d[0] * base + d[1]) * base + d[2]
    ensures |d| == 4 ==> DigitsValue(d, base) == ((d[0] * base + d[1]) * base + d[2]) * base + d[3]
  {
    if |d| == 4 {
      ShortValues(d[..3], base);
    } else if |d| == 3 {
      ShortValues(d[..2], base);
    } else if |d| == 2 {
      ShortValues(d[..1], base);
    }
  }
}
