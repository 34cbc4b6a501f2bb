/** The base64 encoding of RFC 4648, section 4, and its strict decoder. */
module Base64 {
  import opened Positional
  import opened Results

  // The alphabet -----------------------------------------------------------

  predicate IsBase64Char(c: char)
  {
    'A' <= c <= 'Z' || 'a' <= c <= 'z' || '0' <= c <= '9' || c == '+' || c == '/'
  }

  function CharOf(d: nat): (c: char)
    requires d < 64
    ensures IsBase64Char(c) && DigitOf(c) == d
  {
    if d < 26 then 'A' + d as char
    else if d < 52 then 'a' + (d - 26) as char
    else if d < 62 then '0' + (d - 52) as char
    else if d == 62 then '+' else '/'
  }

  function DigitOf(c: char): (d: nat)
    requires IsBase64Char(c)
    ensures d < 64
  {
    if 'A' <= c <= 'Z' then c as int - 'A' as int
    else if 'a' <= c <= 'z' then c as int - 'a' as int + 26
    else if '0' <= c <= '9' then c as int - '0' as int + 52
    else if c == '+' then 62 else 63
  }

  /** The alphabet in full, as the RFC tabulates it. */
  const TABLE: string := "ABCDEFGHIJKLMNOPQRSTUVWXYZ" + "abcdefghijklmnopqrstuvwxyz" + "0123456789" + "+/"

  lemma CharOfIsTable(d: nat)
    requires d < 64
    ensures CharOf(d) == TABLE[d]
  {
  }

  lemma CharOfDigit(c: char)
    requires IsBase64Char(c)
    ensures CharOf(DigitOf(c)) == c
  {
  }

  predicate IsGroup(s: string)
  {
    forall i :: 0 <= i < |s| ==> IsBase64Char(s[i])
  }

  /** The number n as len characters. */
  function Chars(n: nat, len: nat): (s: string)
    requires n < Pow(64, len)
    ensures |s| == len && IsGroup(s)
  {
    var ds := Fixed(n, len, 64);
    seq(len, i requires 0 <= i < len => CharOf(ds[i]))
  }

  /** The number a group of characters denotes. */
  function Number(s: string): (n: nat)
    requires IsGroup(s)
  {
    Value(seq(|s|, i requires 0 <= i < |s| => DigitOf(s[i])), 64)
  }

  lemma NumberOfChars(n: nat, len: nat)
    requires n < Pow(64, len)
    ensures Number(Chars(n, len)) == n
  {
    var ds := Fixed(n, len, 64);
    var s := Chars(n, len);
    assert seq(|s|, i requires 0 <= i < |s| => DigitOf(s[i])) == ds;
    ValueOfFixed(n, len, 64);
  }

  lemma CharsOfNumber(s: string)
    requires IsGroup(s)
    ensures Number(s) < Pow(64, |s|) && Chars(Number(s), |s|) == s
  {
    var ds := seq(|s|, i requires 0 <= i < |s| => DigitOf(s[i]));
    FixedOfValue(ds, 64);
    forall i | 0 <= i < |s|
      ensures Chars(Number(s), |s|)[i] == s[i]
    {
      CharOfDigit(s[i]);
    }
  }

  // Bytes as numbers -------------------------------------------------------

  /** The number n as len big-endian bytes. */
  function Bytes(n: nat, len: nat): (d: seq<byte>)
    requires n < Pow(256, len)
    ensures |d| == len
  {
    Fixed(n, len, 256)
  }

  lemma Powers()
    ensures Pow(256, 1) == 0x100 && Pow(256, 2) == 0x1_0000 && Pow(256, 3) == 0x100_0000
    ensures Pow(64, 2) == 0x1000 && Pow(64, 3) == 0x4_0000 && Pow(64, 4) == 0x100_0000
  {
  }

  // The codec --------------------------------------------------------------

  /** Three bytes to four characters; a last group of one or two bytes is
      filled up with zero bits, and its text with equal signs. */
  function Encode(d: seq<byte>): (s: string)
  {
    Powers();
    ValueBelow(if |d| < 3 then d else d[..3], 256);
    if |d| == 0 then ""
    else if |d| == 1 then Chars(Value(d, 256) * 16, 2) + "=="
    else if |d| == 2 then Chars(Value(d, 256) * 4, 3) + "="
    else Chars(Value(d[..3], 256), 4) + Encode(d[3..])
  }

  /** Accepts complete groups only, and only zero fill bits. */
  function Decode(s: string): Option<seq<byte>>
  {
    Powers();
    if s == "" then Some([])
    else if |s| < 4 then None
    else if s[2..] == "==" && IsGroup(s[..2]) then
      CharsOfNumber(s[..2]);
      var n := Number(s[..2]);
      if n % 16 == 0 then Some(Bytes(n / 16, 1)) else None
    else if s[3..] == "=" && IsGroup(s[..3]) then
      CharsOfNumber(s[..3]);
      var n := Number(s[..3]);
      if n % 4 == 0 then Some(Bytes(n / 4, 2)) else None
    else if IsGroup(s[..4]) then
      CharsOfNumber(s[..4]);
      var rest :- Decode(s[4..]);
      Some(Bytes(Number(s[..4]), 3) + rest)
    else None
  }

  // Six bits at a time -----------------------------------------------------

  function Bits24(a: int, b: int, c: int): int
  {
    0x1_0000 * a + 0x100 * b + c
  }

  /** The four digits of three bytes. */
  lemma SixBits(a: byte, b: byte, c: byte)
    ensures var n := Bits24(a, b, c);
            && n / 64 / 64 / 64 % 64 == a / 4
            && n / 64 / 64 % 64 == a % 4 * 16 + b / 16
            && n / 64 % 64 == b % 16 * 4 + c / 64
            && n % 64 == c % 64
  {
    var n := Bits24(a, b, c);
    assert n / 64 == 1024 * (a as int) + 4 * (b as int) + c / 64;
    assert n / 64 / 64 == 16 * (a as int) + b / 16;
  }

  lemma FixedOfTwo(n: nat)
    ensures Fixed(n, 2, 64) == [n / 64 % 64, n % 64]
  {
    assert Fixed(n / 64, 1, 64) == [n / 64 % 64];
  }

  lemma FixedOfThree(n: nat)
    ensures Fixed(n, 3, 64) == [n / 64 / 64 % 64, n / 64 % 64, n % 64]
  {
    FixedOfTwo(n / 64);
  }

  lemma FixedOfFour(n: nat)
    ensures Fixed(n, 4, 64) == [n / 64 / 64 / 64 % 64, n / 64 / 64 % 64, n / 64 % 64, n % 64]
  {
    FixedOfThree(n / 64);
  }

  lemma ValueOfGroup(a: byte, b: byte, c: byte)
    ensures Value([a], 256) * 0x1_0000 == Bits24(a, 0, 0)
    ensures Value([a, b], 256) * 0x100 == Bits24(a, b, 0)
    ensures Value([a, b, c], 256) == Bits24(a, b, c)
  {
    ValueAppend([], a, 256);
    ValueAppend([a], b, 256);
    ValueAppend([a, b], c, 256);
    assert [] + [a] == [a] && [a] + [b] == [a, b] && [a, b] + [c] == [a, b, c];
  }

  /** Three bytes as four characters, six bits each. */
  function Quad(a: byte, b: byte, c: byte): (s: string)
    ensures |s| == 4
  {
    [TABLE[a / 4], TABLE[a % 4 * 16 + b / 16], TABLE[b % 16 * 4 + c / 64], TABLE[c % 64]]
  }

  lemma QuadIsChars(a: byte, b: byte, c: byte)
    ensures Quad(a, b, c) == [CharOf(a / 4), CharOf(a % 4 * 16 + b / 16), CharOf(b % 16 * 4 + c / 64), CharOf(c % 64)]
  {
    hide CharOf;
    CharOfIsTable(a / 4);
    CharOfIsTable(a % 4 * 16 + b / 16);
    CharOfIsTable(b % 16 * 4 + c / 64);
    CharOfIsTable(c % 64);
  }

  lemma CharsOfOne(a: byte)
    ensures Value([a], 256) * 16 < Pow(64, 2)
    ensures Chars(Value([a], 256) * 16, 2) == Quad(a, 0, 0)[..2]
  {
    hide CharOf, Value, Quad;
    Powers();
    ValueOfGroup(a, 0, 0);
    SixBits(a, 0, 0);
    FixedOfTwo(Value([a], 256) * 16);
    QuadIsChars(a, 0, 0);
  }

  lemma CharsOfTwo(a: byte, b: byte)
    ensures Value([a, b], 256) * 4 < Pow(64, 3)
    ensures Chars(Value([a, b], 256) * 4, 3) == Quad(a, b, 0)[..3]
  {
    hide CharOf, Value, Quad;
    Powers();
    ValueOfGroup(a, b, 0);
    SixBits(a, b, 0);
    FixedOfThree(Value([a, b], 256) * 4);
    QuadIsChars(a, b, 0);
  }

  lemma CharsOfThree(a: byte, b: byte, c: byte)
    ensures Value([a, b, c], 256) < Pow(64, 4)
    ensures Chars(Value([a, b, c], 256), 4) == Quad(a, b, c)
  {
    hide CharOf, Value, Quad;
    Powers();
    ValueOfGroup(a, b, c);
    SixBits(a, b, c);
    FixedOfFour(Value([a, b, c], 256));
    QuadIsChars(a, b, c);
  }

  lemma EncodeThree(a: byte, b: byte, c: byte, rest: seq<byte>)
    ensures Encode([a, b, c] + rest) == Quad(a, b, c) + Encode(rest)
  {
    hide Value, Pow, Chars, Quad;
    CharsOfThree(a, b, c);
    var d := [a, b, c] + rest;
    assert d[..3] == [a, b, c] && d[3..] == rest;
  }

  /** Which characters stand for the three bytes from 3 * k on, equal signs
      included where the bytes run out. */
  lemma {:induction false} EncodeAt(d: seq<byte>, k: nat)
    requires 3 * k < |d|
    ensures |Encode(d)| == (|d| + 2) / 3 * 4
    ensures Encode(d)[4 * k..4 * k + 4] ==
            if 3 * k + 2 < |d| then Quad(d[3 * k], d[3 * k + 1], d[3 * k + 2])
            else if 3 * k + 1 < |d| then Quad(d[3 * k], d[3 * k + 1], 0)[..3] + "="
            else Quad(d[3 * k], 0, 0)[..2] + "=="
  {
    hide Encode, Quad;
    EncodeLength(d);
    if k > 0 {
      var s, rest := Encode(d), d[3..];
      assert d == [d[0], d[1], d[2]] + rest;
      EncodeThree(d[0], d[1], d[2], rest);
      EncodeAt(rest, k - 1);
      assert s[4..][4 * (k - 1)..4 * (k - 1) + 4] == s[4 * k..4 * k + 4];
    } else {
      EncodeFirst(d);
    }
  }

  lemma EncodeFirst(d: seq<byte>)
    requires d != []
    ensures |Encode(d)| >= 4
    ensures Encode(d)[..4] ==
            if |d| > 2 then Quad(d[0], d[1], d[2])
            else if |d| > 1 then Quad(d[0], d[1], 0)[..3] + "="
            else Quad(d[0], 0, 0)[..2] + "=="
  {
    hide Value, Pow, Chars, Quad;
    if |d| == 1 {
      assert d == [d[0]];
      CharsOfOne(d[0]);
    } else if |d| == 2 {
      assert d == [d[0], d[1]];
      CharsOfTwo(d[0], d[1]);
    } else {
      assert d == [d[0], d[1], d[2]] + d[3..];
      EncodeThree(d[0], d[1], d[2], d[3..]);
    }
  }

  lemma {:induction false} EncodeLength(d: seq<byte>)
    ensures |Encode(d)| == (|d| + 2) / 3 * 4
  {
    hide Chars, Value;
    if |d| >= 3 {
      EncodeLength(d[3..]);
    }
  }

  lemma BytesOfValue(d: seq<byte>)
    ensures Value(d, 256) < Pow(256, |d|) && Bytes(Value(d, 256), |d|) == d
  {
    FixedOfValue(d, 256);
  }

  lemma DecodeTail(g: string)
    requires IsGroup(g)
    ensures |g| == 2 && Number(g) % 16 == 0 ==>
            Number(g) / 16 < Pow(256, 1) && Decode(g + "==") == Some(Bytes(Number(g) / 16, 1))
    ensures |g| == 3 && Number(g) % 4 == 0 ==>
            Number(g) / 4 < Pow(256, 2) && Decode(g + "=") == Some(Bytes(Number(g) / 4, 2))
  {
    Powers();
    CharsOfNumber(g);
    hide Number, Chars, Bytes, Pow;
    if |g| == 2 {
      assert (g + "==")[..2] == g && (g + "==")[2..] == "==";
    } else if |g| == 3 {
      assert (g + "=")[..3] == g && (g + "=")[3..] == "=" && (g + "=")[2..][0] == g[2];
    }
  }

  lemma DecodeOne(d: seq<byte>)
    requires |d| == 1
    ensures Decode(Encode(d)) == Some(d)
  {
    hide Number, Chars, Bytes, Pow, Value, Decode;
    Powers();
    BytesOfValue(d);
    var n := Value(d, 256);
    NumberOfChars(n * 16, 2);
    DecodeTail(Chars(n * 16, 2));
  }

  lemma DecodeTwo(d: seq<byte>)
    requires |d| == 2
    ensures Decode(Encode(d)) == Some(d)
  {
    hide Number, Chars, Bytes, Pow, Value, Decode;
    Powers();
    BytesOfValue(d);
    var n := Value(d, 256);
    NumberOfChars(n * 4, 3);
    DecodeTail(Chars(n * 4, 3));
  }

  /** Decoding inverts encoding. */
  lemma {:induction false} DecodeEncode(d: seq<byte>)
    ensures Decode(Encode(d)) == Some(d)
  {
    if |d| == 1 {
      DecodeOne(d);
    } else if |d| == 2 {
      DecodeTwo(d);
    } else if |d| >= 3 {
      Powers();
      var n := Value(d[..3], 256);
      BytesOfValue(d[..3]);
      NumberOfChars(n, 4);
      DecodeEncode(d[3..]);
      GroupThen(Chars(n, 4), Encode(d[3..]));
      assert d == d[..3] + d[3..];
    }
  }

  lemma GroupThen(g: string, s: string)
    requires |g| == 4 && IsGroup(g)
    ensures (g + s)[..4] == g && (g + s)[4..] == s
    ensures IsBase64Char((g + s)[2]) && IsBase64Char((g + s)[3])
    ensures (g + s)[2..] != "==" && (g + s)[3..] != "="
  {
  }

  lemma EncodeGroup(g: string, rest: seq<byte>)
    requires |g| == 4 && IsGroup(g)
    ensures Number(g) < Pow(256, 3)
    ensures Encode(Bytes(Number(g), 3) + rest) == g + Encode(rest)
  {
    Powers();
    CharsOfNumber(g);
    var b := Bytes(Number(g), 3);
    ValueOfFixed(Number(g), 3, 256);
    assert (b + rest)[..3] == b && (b + rest)[3..] == rest;
  }

  lemma EncodeOne(g: string)
    requires |g| == 2 && IsGroup(g) && Number(g) % 16 == 0
    ensures Number(g) / 16 < Pow(256, 1)
    ensures Encode(Bytes(Number(g) / 16, 1)) == g + "=="
  {
    Powers();
    CharsOfNumber(g);
    ValueOfFixed(Number(g) / 16, 1, 256);
    hide Number, Chars, Value, Fixed, Pow;
  }

  lemma EncodeTwo(g: string)
    requires |g| == 3 && IsGroup(g) && Number(g) % 4 == 0
    ensures Number(g) / 4 < Pow(256, 2)
    ensures Encode(Bytes(Number(g) / 4, 2)) == g + "="
  {
    Powers();
    CharsOfNumber(g);
    ValueOfFixed(Number(g) / 4, 2, 256);
    hide Number, Chars, Value, Fixed, Pow;
  }

  /** ... and accepts nothing but encodings. */
  lemma {:induction false} EncodeDecode(s: string)
    requires Decode(s).Some?
    ensures Encode(Decode(s).value) == s
  {
    if |s| >= 4 {
      if s[2..] == "==" && IsGroup(s[..2]) {
        EncodeOne(s[..2]);
        assert s == s[..2] + "==";
      } else if s[3..] == "=" && IsGroup(s[..3]) {
        EncodeTwo(s[..3]);
        assert s == s[..3] + "=";
      } else {
        EncodeDecode(s[4..]);
        EncodeGroup(s[..4], Decode(s[4..]).value);
        assert s == s[..4] + s[4..];
      }
    }
  }

  /** A text decodes to d exactly when it is the encoding of d. */
  lemma DecodeIff(s: string, d: seq<byte>)
    ensures Decode(s) == Some(d) <==> s == Encode(d)
  {
    DecodeEncode(d);
    if Decode(s).Some? {
      EncodeDecode(s);
    }
  }

  /** Encodings hold no character but the 64 and the equal sign. */
  lemma {:induction false} EncodeIsPlain(d: seq<byte>, c: char)
    requires c in Encode(d)
    ensures IsBase64Char(c) || c == '='
  {
    Powers();
    ValueBelow(if |d| < 3 then d else d[..3], 256);
    if |d| >= 3 {
      if c in Encode(d[3..]) {
        EncodeIsPlain(d[3..], c);
      }
    }
  }
}
