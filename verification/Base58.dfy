/** The Bitcoin-alphabet base58 codec. */
module Base58 {
  import opened Positional
  import opened Results

  const ALPHABET: string :=
    "123456789" + "ABCDEFGH" + "JKLMN" + "PQRSTUVWXYZ" + "abcdefghijk" + "mnopqrstuvwxyz"

  /** The ASCII digits and letters without 0, I, O and l. */
  predicate IsBase58Char(c: char)
  {
    || '1' <= c <= '9'
    || ('A' <= c <= 'Z' && c != 'I' && c != 'O')
    || ('a' <= c <= 'z' && c != 'l')
  }

  predicate IsBase58(s: string)
  {
    forall i :: 0 <= i < |s| ==> IsBase58Char(s[i])
  }

  function DigitOf(c: char): (d: nat)
    requires IsBase58Char(c)
    ensures d < 58 && (d == 0 <==> c == '1')
  {
    if c <= '9' then c as int - '1' as int
    else if c <= 'H' then c as int - 'A' as int + 9
    else if c <= 'N' then c as int - 'J' as int + 17
    else if c <= 'Z' then c as int - 'P' as int + 22
    else if c <= 'k' then c as int - 'a' as int + 33
    else c as int - 'm' as int + 44
  }

  function CharOf(d: nat): (c: char)
    requires d < 58
    ensures IsBase58Char(c) && DigitOf(c) == d
  {
    if d < 9 then '1' + d as char
    else if d < 17 then 'A' + (d - 9) as char
    else if d < 22 then 'J' + (d - 17) as char
    else if d < 33 then 'P' + (d - 22) as char
    else if d < 44 then 'a' + (d - 33) as char
    else 'm' + (d - 44) as char
  }

  /** Digits to characters ... */
  function ToText(ds: seq<nat>): (s: string)
    requires Below(ds, 58)
    ensures |s| == |ds| && IsBase58(s)
  {
    seq(|ds|, i requires 0 <= i < |ds| => CharOf(ds[i]))
  }

  /** ... and characters to digits. */
  function ToDigits(s: string): (ds: seq<nat>)
    requires IsBase58(s)
    ensures |ds| == |s| && Below(ds, 58)
  {
    seq(|s|, i requires 0 <= i < |s| => DigitOf(s[i]))
  }

  /** The base58 text of a byte string: the same number in base 58, with one
      leading 1 for each leading zero byte. */
  function Encode(data: seq<byte>): (s: string)
    ensures IsBase58(s)
  {
    ToText(Rebase(data, 256, 58))
  }

  /** The byte string of a base58 text. */
  function Decode(s: string): (r: Result<seq<byte>>)
    ensures r.Ok? <==> IsBase58(s)
    ensures r.Err? ==> r.error == ValueError
  {
    if IsBase58(s) then Ok(Rebase(ToDigits(s), 58, 256)) else Err(ValueError)
  }

  // The alphabet -----------------------------------------------------------

  /** Python's str.index: the position of the first c in s. */
  function Index(s: string, c: char): (i: nat)
    requires c in s
    ensures i < |s| && s[i] == c && c !in s[..i]
  {
    if s[0] == c then 0 else
      var i := 1 + Index(s[1..], c);
      assert s[..i] == [s[0]] + s[1..][..i - 1];
      i
  }

  lemma AlphabetAt(d: nat)
    requires d < 58
    ensures |ALPHABET| == 58 && ALPHABET[d] == CharOf(d)
  {
  }

  lemma CharOfDigit(c: char)
    requires IsBase58Char(c)
    ensures CharOf(DigitOf(c)) == c
  {
  }

  /** Looking a character up in the alphabet gives its digit. */
  lemma IndexIsDigit(c: char)
    ensures c in ALPHABET <==> IsBase58Char(c)
    ensures c in ALPHABET ==> Index(ALPHABET, c) == DigitOf(c)
  {
    hide CharOf, DigitOf;
    AlphabetAt(0);
    if IsBase58Char(c) {
      AlphabetAt(DigitOf(c));
      CharOfDigit(c);
    }
    if c in ALPHABET {
      AlphabetAt(Index(ALPHABET, c));
    }
  }

  /** The alphabet is the ASCII digits and letters without four look-alikes, in
      the order of their codes. */
  lemma AlphabetIsAscending()
    ensures |ALPHABET| == 58
    ensures forall c :: c in ALPHABET <==>
              ('0' <= c <= '9' || 'A' <= c <= 'Z' || 'a' <= c <= 'z') && c !in "0IOl"
    ensures forall i, j :: 0 <= i < j < 58 ==> ALPHABET[i] < ALPHABET[j]
  {
    forall c
      ensures c in ALPHABET <==> IsBase58Char(c)
    {
      IndexIsDigit(c);
    }
    forall i: nat, j: nat | i < j < 58
      ensures ALPHABET[i] < ALPHABET[j]
    {
      AlphabetAt(i);
      AlphabetAt(j);
    }
  }

  lemma DigitsOfText(ds: seq<nat>)
    requires Below(ds, 58)
    ensures ToDigits(ToText(ds)) == ds
  {
  }

  lemma TextOfDigits(s: string)
    requires IsBase58(s)
    ensures ToText(ToDigits(s)) == s
  {
  }

  lemma {:induction false} LeadingOnes(s: string)
    requires IsBase58(s)
    ensures Leading(s, '1') == Leading<nat>(ToDigits(s), 0)
  {
    if s != [] && s[0] == '1' {
      assert ToDigits(s[1..]) == ToDigits(s)[1..];
      LeadingOnes(s[1..]);
    }
  }

  // The codec is a bijection -----------------------------------------------

  /** Decoding inverts encoding on every byte string. */
  lemma DecodeEncode(data: seq<byte>)
    ensures Decode(Encode(data)) == Ok(data)
  {
    DigitsOfText(Rebase(data, 256, 58));
    RebaseInverse(data, 256, 58);
  }

  /** Encoding inverts decoding on every text over the alphabet, so each byte
      string has exactly one base58 text. */
  lemma EncodeDecode(s: string, data: seq<byte>)
    ensures Decode(s) == Ok(data) <==> s == Encode(data)
  {
    if Decode(s) == Ok(data) {
      RebaseInverse(ToDigits(s), 58, 256);
      TextOfDigits(s);
    }
    DecodeEncode(data);
  }

  lemma EncodeInjective(a: seq<byte>, b: seq<byte>)
    requires Encode(a) == Encode(b)
    ensures a == b
  {
    DecodeEncode(a);
    DecodeEncode(b);
  }

  // Length -----------------------------------------------------------------

  /** A text is no shorter than its data, and n bytes never need more than 11
      characters for every 8 of them. */
  lemma LengthBound(data: seq<byte>)
    ensures |data| <= |Encode(data)| <= 11 * ((|data| + 7) / 8)
  {
    hide Value;
    var z := Leading<nat>(data, 0);
    var core := data[z..];
    LeadingSplit<nat>(data, 0);
    assert core == LStrip<nat>(data, 0);
    ValueIgnoresZeros(z, core, 256);
    var v := Value(core, 256);
    assert Value(data, 256) == v;
    DigitsOfValue(core, 256);
    assert |Encode(data)| == z + |Digits(v, 58)|;
    if v > 0 {
      DigitsStartNonZero(v, 256);
      LengthOfCore(z, v);
    }
  }

  /** A keypair takes 64 to 88 characters, an address 32 to 44. */
  lemma KeyLengths(data: seq<byte>)
    ensures |data| == 64 ==> 64 <= |Encode(data)| <= 88
    ensures |data| == 32 ==> 32 <= |Encode(data)| <= 44
  {
    LengthBound(data);
  }

  /** The bound with z leading zeros: multiplying v by 58^z costs z digits, and
      stays below 256^(z + m). */
  lemma LengthOfCore(z: nat, v: nat)
    requires 0 < v
    ensures var m, c := |Digits(v, 256)|, |Digits(v, 58)|;
            m <= c && z + c <= 11 * ((z + m + 7) / 8)
  {
    hide Digits, Pow;
    var m, c := |Digits(v, 256)|, |Digits(v, 58)|;
    DigitCount(v, 256);
    DigitCount(v, 58);
    PowBase(58, 256, c);
    DigitsFit(v, c, 256);
    var q := (z + m + 7) / 8;
    ScaledBound(z, m, c, v);
    PowMonotone(256, z + m, 8 * q);
    EightBytesInEleven(q);
    if 11 * q < z + c {
      PowMonotone(58, 11 * q, z + c - 1);
      assert false;
    }
  }

  lemma ScaledBound(z: nat, m: nat, c: nat, v: nat)
    requires 1 <= c && Pow(58, c - 1) <= v < Pow(256, m)
    ensures Pow(58, z + c - 1) < Pow(256, z + m)
  {
    PowAdd(58, z, c - 1);
    PowAdd(256, z, m);
    PowBase(58, 256, z);
    PowMonotone(58, 0, z);
    MulBounds(Pow(58, z), Pow(58, c - 1), Pow(256, z), Pow(256, m));
  }

  lemma MulBounds(a: nat, x: nat, b: nat, y: nat)
    requires 1 <= a <= b && x < y
    ensures a * x < b * y
  {
  }

  lemma EightBytesInEleven(q: nat)
    ensures Pow(256, 8 * q) <= Pow(58, 11 * q)
  {
    PowPow(256, 8, q);
    PowPow(58, 11, q);
    assert Pow(256, 8) <= Pow(58, 11);
    PowBase(Pow(256, 8), Pow(58, 11), q);
  }

  // The loops --------------------------------------------------------------

  /** The base58 digits of n as text. */
  function Numeral(n: nat): (s: string)
  {
    ToText(Digits(n, 58))
  }

  lemma NumeralStep(n: nat, out: string)
    requires 0 < n
    ensures n / 58 < n && |ALPHABET| == 58
    ensures Numeral(n) + out == Numeral(n / 58) + ([ALPHABET[n % 58]] + out)
  {
    AlphabetAt(n % 58);
    assert Numeral(n) == Numeral(n / 58) + [CharOf(n % 58)];
  }

  lemma EncodeIsPaddedNumeral(data: seq<byte>)
    ensures Encode(data) == Repeat('1', Leading<nat>(data, 0)) + Numeral(Value(data, 256))
  {
  }

  /** Repeated division by 58, prepending each digit. */
  method B58Encode(data: seq<byte>) returns (s: string)
    ensures s == Encode(data)
  {
    hide Value;
    var n := Value(data, 256);
    var out := "";
    while n != 0
      invariant Numeral(n) + out == Numeral(Value(data, 256))
      decreases n
    {
      NumeralStep(n, out);
      var r := n % 58;
      n := n / 58;
      out := [ALPHABET[r]] + out;
    }
    assert Numeral(0) + out == out;
    var pad := |data| - |LStrip<nat>(data, 0)|;
    EncodeIsPaddedNumeral(data);
    s := Repeat('1', pad) + out;
  }

  /** The number a base58 text denotes. */
  function Number(s: string): nat
    requires IsBase58(s)
  {
    Value(ToDigits(s), 58)
  }

  /** A text denotes the number of its bytes, and has a 1 for each zero byte in
      front. */
  lemma EncodeMeans(data: seq<byte>)
    ensures Number(Encode(data)) == Value(data, 256)
    ensures Leading(Encode(data), '1') == Leading<nat>(data, 0)
  {
    var z, v := Leading<nat>(data, 0), Value(data, 256);
    DigitsOfText(Rebase(data, 256, 58));
    LeadingOnes(Encode(data));
    ValueIgnoresZeros(z, Digits(v, 58), 58);
    ValueOfDigits(v, 58);
    DigitsStartNonZero(v, 58);
    LeadingOfPadded<nat>(0, z, Digits(v, 58));
  }

  /** One step of Horner's rule, and where it has to stop. */
  lemma HornerStep(s: string, i: nat)
    requires i < |s| && IsBase58(s[..i])
    ensures s[i] in ALPHABET ==>
            IsBase58(s[..i + 1]) && Number(s[..i + 1]) == Number(s[..i]) * 58 + Index(ALPHABET, s[i])
    ensures s[i] !in ALPHABET ==> !IsBase58(s)
  {
    IndexIsDigit(s[i]);
    hide DigitOf, IsBase58Char;
    if IsBase58Char(s[i]) {
      assert s[..i + 1] == s[..i] + [s[i]];
      assert ToDigits(s[..i + 1]) == ToDigits(s[..i]) + [DigitOf(s[i])];
      ValueAppend(ToDigits(s[..i]), DigitOf(s[i]), 58);
    }
  }

  /** int.to_bytes at the length that the bit length asks for. */
  function ShortestBytes(n: nat): seq<byte>
  {
    Fixed(n, (BitLength(n) + 7) / 8, 256)
  }

  lemma DecodeIsPaddedBytes(s: string)
    requires IsBase58(s)
    ensures Decode(s) == Ok(Repeat<nat>(0, Leading(s, '1')) + ShortestBytes(Number(s)))
  {
    hide Value, Fixed, Digits, BitLength;
    RebaseToBytes(ToDigits(s), 58);
    LeadingOnes(s);
  }

  /** Horner's rule over the characters, then the shortest big-endian bytes. */
  method B58Decode(s: string) returns (r: Result<seq<byte>>)
    ensures r == Decode(s)
  {
    assert IsBase58("") && Number("") == 0;
    hide Number, IsBase58, Index, LStrip, Decode, ShortestBytes;
    var n := 0;
    assert s[..0] == "";
    for i := 0 to |s|
      invariant IsBase58(s[..i]) && n == Number(s[..i])
    {
      HornerStep(s, i);
      if s[i] !in ALPHABET {
        return Err(ValueError);
      }
      n := n * 58 + Index(ALPHABET, s[i]);
    }
    assert s[..|s|] == s;
    DecodeIsPaddedBytes(s);
    var body := ShortestBytes(n);
    var pad := |s| - |LStrip(s, '1')|;
    r := Ok(Repeat<nat>(0, pad) + body);
  }
}
