/** Reading a 64-byte keypair from its JSON, hex or base58 form. */
module Keypair {
  import opened Base58
  import opened Json
  import opened JsonText
  import opened Positional
  import opened Results
  import opened Sequences

  const KEYPAIR_LEN := 64

  // White space ------------------------------------------------------------

  /** What Python's str.strip removes. */
  predicate IsSpace(c: char)
  {
    || '\t' <= c <= '\r' || '\U{1C}' <= c <= ' ' || c == '\U{85}' || c == '\U{A0}'
    || c == '\U{1680}' || '\U{2000}' <= c <= '\U{200A}' || c == '\U{2028}'
    || c == '\U{2029}' || c == '\U{202F}' || c == '\U{205F}' || c == '\U{3000}'
  }

  /** The characters in full. */
  predicate IsWhite(c: char)
  {
    c in "\t\n\U{0B}\U{0C}\r\U{1C}\U{1D}\U{1E}\U{1F} \U{85}\U{A0}\U{1680}\U{2000}\U{2001}\U{2002}\U{2003}"
    || c in "\U{2004}\U{2005}\U{2006}\U{2007}\U{2008}\U{2009}\U{200A}\U{2028}\U{2029}\U{202F}\U{205F}\U{3000}"
  }

  lemma SpaceIsWhite(c: char)
    ensures IsSpace(c) <==> IsWhite(c)
  {
  }

  predicate AllWhite(s: string)
  {
    forall i :: 0 <= i < |s| ==> IsWhite(s[i])
  }

  function StripLeft(s: string): (r: string)
    ensures !Starts(r, IsSpace)
  {
    if Starts(s, IsSpace) then StripLeft(s[1..]) else s
  }

  function StripRight(s: string): (r: string)
    ensures r <= s && (r != "" ==> !IsSpace(r[|r| - 1]))
  {
    if s != "" && IsSpace(s[|s| - 1]) then StripRight(s[..|s| - 1]) else s
  }

  function Strip(s: string): (r: string)
    ensures !Starts(r, IsSpace)
  {
    StripRight(StripLeft(s))
  }

  lemma {:induction false} StripLeftOf(a: string, s: string)
    requires AllWhite(a) && !Starts(s, IsSpace)
    ensures StripLeft(a + s) == s
  {
    hide IsWhite;
    if a == "" {
      assert a + s == s;
    } else {
      SpaceIsWhite(a[0]);
      StripLeftOf(a[1..], s);
      assert (a + s)[1..] == a[1..] + s;
    }
  }

  lemma {:induction false} StripRightOf(s: string, b: string)
    requires AllWhite(b) && (s != "" ==> !IsSpace(s[|s| - 1]))
    ensures StripRight(s + b) == s
  {
    hide IsWhite;
    if b == "" {
      assert s + b == s;
    } else {
      SpaceIsWhite(b[|b| - 1]);
      var init := b[..|b| - 1];
      StripRightOf(s, init);
      assert (s + b)[..|s + b| - 1] == s + init;
      assert (s + b)[|s + b| - 1] == b[|b| - 1];
    }
  }

  lemma {:induction false} StripLeftSplit(s: string) returns (a: string)
    ensures AllWhite(a) && s == a + StripLeft(s)
  {
    hide IsWhite;
    if Starts(s, IsSpace) {
      SpaceIsWhite(s[0]);
      a := StripLeftSplit(s[1..]);
      JoinFirst(s, a, StripLeft(s));
      a := [s[0]] + a;
    } else {
      a := "";
    }
  }

  lemma {:induction false} StripRightSplit(s: string) returns (b: string)
    ensures AllWhite(b) && s == StripRight(s) + b
  {
    hide IsWhite;
    if s != "" && IsSpace(s[|s| - 1]) {
      SpaceIsWhite(s[|s| - 1]);
      b := StripRightSplit(s[..|s| - 1]);
      JoinLast(s, StripRight(s), b);
      b := b + [s[|s| - 1]];
    } else {
      b := "";
    }
  }

  /** Stripping takes white space off both ends and nothing else. */
  lemma StripSplit(s: string) returns (a: string, b: string)
    ensures AllWhite(a) && AllWhite(b) && s == a + Strip(s) + b
    ensures Strip(s) != "" ==> !IsWhite(Strip(s)[0]) && !IsWhite(Strip(s)[|Strip(s)| - 1])
  {
    hide IsWhite, StripLeft, StripRight;
    a := StripLeftSplit(s);
    b := StripRightSplit(StripLeft(s));
    var t := Strip(s);
    assert a + (t + b) == a + t + b;
    if t != "" {
      assert t[0] == StripLeft(s)[0];
      SpaceIsWhite(t[0]);
      SpaceIsWhite(t[|t| - 1]);
    }
  }

  lemma StripOf(a: string, s: string, b: string)
    requires AllWhite(a) && AllWhite(b) && s != ""
    requires !IsSpace(s[0]) && !IsSpace(s[|s| - 1])
    ensures Strip(a + s + b) == s
  {
    assert a + s + b == a + (s + b);
    StripLeftOf(a, s + b);
    StripRightOf(s, b);
  }

  // Hex --------------------------------------------------------------------

  predicate IsHexDigit(c: char)
  {
    '0' <= c <= '9' || 'a' <= c <= 'f' || 'A' <= c <= 'F'
  }

  predicate IsHex(s: string)
  {
    forall i :: 0 <= i < |s| ==> IsHexDigit(s[i])
  }

  function HexValue(c: char): (d: nat)
    requires IsHexDigit(c)
    ensures d < 16
  {
    if c <= '9' then c as int - '0' as int
    else if c <= 'F' then c as int - 'A' as int + 10
    else c as int - 'a' as int + 10
  }

  /** bytes.fromhex on an even number of hex digits. */
  function FromHex(s: string): (d: seq<byte>)
    requires IsHex(s) && |s| % 2 == 0
    ensures |d| == |s| / 2
  {
    seq(|s| / 2, i requires 0 <= i < |s| / 2 => HexByte(s[2 * i], s[2 * i + 1]))
  }

  function HexByte(hi: char, lo: char): byte
    requires IsHexDigit(hi) && IsHexDigit(lo)
  {
    16 * HexValue(hi) + HexValue(lo)
  }

  function HexDigit(d: nat, upper: bool): (c: char)
    requires d < 16
    ensures IsHexDigit(c) && HexValue(c) == d
  {
    if d < 10 then '0' + d as char
    else if upper then 'A' + (d - 10) as char
    else 'a' + (d - 10) as char
  }

  /** The hex form; upper says of each digit whether it is written as a capital. */
  function HexText(d: seq<byte>, upper: seq<bool>): (s: string)
    requires |upper| == 2 * |d|
    ensures |s| == 2 * |d| && IsHex(s)
  {
    seq(2 * |d|, k requires 0 <= k < 2 * |d| =>
      HexDigit(if k % 2 == 0 then d[k / 2] / 16 else d[k / 2] % 16, upper[k]))
  }

  lemma FromHexText(d: seq<byte>, upper: seq<bool>)
    requires |upper| == 2 * |d|
    ensures FromHex(HexText(d, upper)) == d
  {
  }

  lemma HexDigitOfValue(c: char)
    requires IsHexDigit(c)
    ensures HexDigit(HexValue(c), 'A' <= c <= 'F') == c
  {
  }

  /** Every even number of hex digits is the hex form of what it decodes to. */
  lemma HexTextOfFromHex(s: string)
    requires IsHex(s) && |s| % 2 == 0
    ensures s == HexText(FromHex(s), seq(|s|, i requires 0 <= i < |s| => 'A' <= s[i] <= 'F'))
  {
    hide HexValue, HexDigit, IsHexDigit;
    forall i | 0 <= i < |s|
      ensures HexDigit(HexValue(s[i]), 'A' <= s[i] <= 'F') == s[i]
    {
      HexDigitOfValue(s[i]);
    }
  }

  // The parser -------------------------------------------------------------

  predicate IsArrayText(s: string)
  {
    Starts(s, c => c == '[')
  }

  function ParseKeypair(text: string): (r: Result<seq<byte>>)
    ensures r.Ok? ==> |r.value| == KEYPAIR_LEN
    ensures r.Err? ==> r.error == ValueError
  {
    var s := Strip(text);
    var keypair :-
      if IsArrayText(s) then LoadBytes(s)
      else if |s| == 2 * KEYPAIR_LEN && IsHex(s) then Ok(FromHex(s))
      else Decode(s);
    if |keypair| != KEYPAIR_LEN then Err(ValueError) else Ok(keypair)
  }

  // What each form means on its own ----------------------------------------

  predicate JsonYields(s: string, keypair: seq<byte>)
  {
    |keypair| == KEYPAIR_LEN &&
    match Loads(s)
    case Some(Array(items)) => items == keypair
    case _ => false
  }

  predicate HexYields(s: string, keypair: seq<byte>)
  {
    |keypair| == KEYPAIR_LEN && IsHex(s) && |s| % 2 == 0 && FromHex(s) == keypair
  }

  predicate Base58Yields(s: string, keypair: seq<byte>)
  {
    |keypair| == KEYPAIR_LEN && Decode(s) == Ok(keypair)
  }

  /** A text of hex length is too long to be the base58 of a keypair. */
  lemma Base58YieldsIsShort(s: string, keypair: seq<byte>)
    requires Base58Yields(s, keypair)
    ensures s == Encode(keypair) && KEYPAIR_LEN <= |s| < 2 * KEYPAIR_LEN && !IsArrayText(s)
  {
    EncodeDecode(s, keypair);
    LengthBound(keypair);
  }

  lemma JsonYieldsIsArray(s: string, keypair: seq<byte>)
    requires JsonYields(s, keypair) && !Starts(s, IsSpace)
    ensures IsArrayText(s)
  {
  }

  /** Text that starts with a bracket loads as an array or not at all. */
  lemma ArrayTextLoads(s: string)
    requires IsArrayText(s)
    ensures match Loads(s)
            case Some(j) => j.Array?
            case None => true
  {
    assert SkipWs(s) == s;
  }

  /** The parser accepts a text exactly when one of the three forms yields a
      keypair, whatever order they are tried in ... */
  lemma ParseIsAnyForm(text: string, keypair: seq<byte>)
    ensures ParseKeypair(text) == Ok(keypair) <==>
            var s := Strip(text);
            JsonYields(s, keypair) || HexYields(s, keypair) || Base58Yields(s, keypair)
  {
    hide Strip, Loads, Decode, FromHex;
    var s := Strip(text);
    if IsArrayText(s) {
      ArrayTextLoads(s);
    }
    if JsonYields(s, keypair) {
      JsonYieldsIsArray(s, keypair);
    } else if Base58Yields(s, keypair) {
      Base58YieldsIsShort(s, keypair);
    }
  }

  /** ... because no text yields a keypair in two of them. */
  lemma FormsAreDisjoint(text: string, a: seq<byte>, b: seq<byte>)
    ensures var s := Strip(text);
            && !(JsonYields(s, a) && HexYields(s, b))
            && !(JsonYields(s, a) && Base58Yields(s, b))
            && !(HexYields(s, a) && Base58Yields(s, b))
  {
    var s := Strip(text);
    if JsonYields(s, a) {
      JsonYieldsIsArray(s, a);
    }
    if Base58Yields(s, b) {
      Base58YieldsIsShort(s, b);
    }
  }

  /** Text accepted on the base58 branch is the one canonical encoding of the
      result. */
  lemma Base58IsCanonical(text: string, keypair: seq<byte>)
    ensures var s := Strip(text);
            && ParseKeypair(text) == Ok(keypair)
            && !IsArrayText(s) && !(|s| == 2 * KEYPAIR_LEN && IsHex(s)) ==>
            s == Encode(keypair)
  {
    hide Decode, Loads, Strip;
    EncodeDecode(Strip(text), keypair);
  }

  // All renderings agree ---------------------------------------------------

  lemma ParseBase58Text(keypair: seq<byte>, a: string, b: string)
    requires |keypair| == KEYPAIR_LEN && AllWhite(a) && AllWhite(b)
    ensures ParseKeypair(a + Encode(keypair) + b) == Ok(keypair)
  {
    var s := Encode(keypair);
    LengthBound(keypair);
    DecodeEncode(keypair);
    StripOf(a, s, b);
    ParseIsAnyForm(a + s + b, keypair);
  }

  lemma HexChar(c: char, d: nat)
    requires d < 16 && c in ["0123456789abcdef"[d], "0123456789ABCDEF"[d]]
    ensures IsHexDigit(c) && HexValue(c) == d
  {
  }

  /** Any text of two digits for each byte, the upper half first, each in
      either case. */
  lemma ParseHexText(keypair: seq<byte>, s: string, a: string, b: string)
    requires |keypair| == 64 && |s| == 128 && AllWhite(a) && AllWhite(b)
    requires forall i :: 0 <= i < 64 ==>
               && s[2 * i] in ["0123456789abcdef"[keypair[i] / 16], "0123456789ABCDEF"[keypair[i] / 16]]
               && s[2 * i + 1] in ["0123456789abcdef"[keypair[i] % 16], "0123456789ABCDEF"[keypair[i] % 16]]
    ensures ParseKeypair(a + s + b) == Ok(keypair)
  {
    hide IsHexDigit, HexValue, IsWhite;
    forall i | 0 <= i < 64
      ensures IsHexDigit(s[2 * i]) && IsHexDigit(s[2 * i + 1])
      ensures HexByte(s[2 * i], s[2 * i + 1]) == keypair[i]
    {
      HexChar(s[2 * i], keypair[i] / 16);
      HexChar(s[2 * i + 1], keypair[i] % 16);
    }
    HexIsText(s);
    assert FromHex(s) == keypair;
    StripOf(a, s, b);
    ParseIsAnyForm(a + s + b, keypair);
  }

  lemma HexIsText(s: string)
    requires |s| == 128 && forall i :: 0 <= i < 64 ==> IsHexDigit(s[2 * i]) && IsHexDigit(s[2 * i + 1])
    ensures IsHex(s) && !IsSpace(s[0]) && !IsSpace(s[127])
  {
    forall i | 0 <= i < 128
      ensures IsHexDigit(s[i])
    {
      assert s[i] == if i % 2 == 0 then s[2 * (i / 2)] else s[2 * (i / 2) + 1];
    }
    assert IsHexDigit(s[0]) && IsHexDigit(s[127]);
  }

  /** The hex form, spelled out. */
  lemma HexTextIs(d: seq<byte>, upper: seq<bool>, i: nat)
    requires |upper| == 2 * |d| && i < |d|
    ensures var s := HexText(d, upper);
            && s[2 * i] == (if upper[2 * i] then "0123456789ABCDEF" else "0123456789abcdef")[d[i] / 16]
            && s[2 * i + 1] == (if upper[2 * i + 1] then "0123456789ABCDEF" else "0123456789abcdef")[d[i] % 16]
  {
    HexDigitIs(d[i] / 16, upper[2 * i]);
    HexDigitIs(d[i] % 16, upper[2 * i + 1]);
    hide HexDigit;
  }

  lemma HexDigitIs(d: nat, upper: bool)
    requires d < 16
    ensures HexDigit(d, upper) == (if upper then "0123456789ABCDEF" else "0123456789abcdef")[d]
  {
  }

  lemma ParseArrayText(keypair: seq<byte>, cells: seq<Cell>, a: string, b: string)
    requires |keypair| == KEYPAIR_LEN && AllWhite(a) && AllWhite(b)
    requires AreCells(cells, keypair)
    ensures ParseKeypair(a + ArrayText("", cells, "", "") + b) == Ok(keypair)
  {
    hide IsCell, CellText, Loads;
    var s := ArrayText("", cells, "", "");
    CellTextEnds(cells);
    assert s == "[" + CellText(cells);
    StripOf(a, s, b);
    LoadArrayText("", cells, "", "", keypair);
  }

  /** The text that json.dumps writes for a keypair, gap after each comma. */
  lemma ParseDumps(keypair: seq<byte>, gap: string, a: string, b: string)
    requires |keypair| == 64 && Blank(gap) && AllWhite(a) && AllWhite(b)
    ensures ParseKeypair(a + ("[" + Listed(keypair, gap) + "]") + b) == Ok(keypair)
  {
    hide Loads, Listed, IsWhite, Blank;
    var s := "[" + Listed(keypair, gap) + "]";
    DumpsLoads(keypair, gap);
    StripOf(a, s, b);
    ParseIsAnyForm(a + s + b, keypair);
  }

  /** The texts that stand for a keypair. */
  ghost predicate IsForm(s: string, keypair: seq<byte>)
  {
    || s == Encode(keypair)
    || (exists upper: seq<bool> :: |upper| == 2 * |keypair| && s == HexText(keypair, upper))
    || WritesArray(s, keypair)
  }

  /** The parser accepts, inside any white space, all forms of a keypair and
      nothing else. */
  lemma ParseIffForm(text: string, keypair: seq<byte>)
    ensures ParseKeypair(text) == Ok(keypair) <==>
            |keypair| == KEYPAIR_LEN && IsForm(Strip(text), keypair)
  {
    hide ParseKeypair, WritesArray, Loads, Decode, Encode, FromHex, HexText;
    var s := Strip(text);
    ParseIsAnyForm(text, keypair);
    LoadsArrayIff(s, keypair);
    EncodeDecode(s, keypair);
    if HexYields(s, keypair) {
      HexTextOfFromHex(s);
    }
    if upper: seq<bool> :| |upper| == 2 * |keypair| && s == HexText(keypair, upper) {
      FromHexText(keypair, upper);
    }
  }
}
