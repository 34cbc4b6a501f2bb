/** JSON as far as bytes(json.loads(text)) can succeed on it: an array of
    integers or truth values, one bare number or truth value, or the empty
    object. Every other document makes Python raise, and is an error here. */
module Json {
  import opened Positional
  import opened Results
  import opened Sequences

  datatype Json = Array(items: seq<int>) | Number(n: int) | EmptyObject

  // The numbers that fit an index run from -INDEX_LIMIT to INDEX_LIMIT - 1.
  const INDEX_LIMIT: int := 0x8000_0000_0000_0000

  // Lexing -----------------------------------------------------------------

  predicate IsWs(c: char)
  {
    c == ' ' || c == '\t' || c == '\n' || c == '\r'
  }

  predicate AllWs(s: string)
  {
    forall i :: 0 <= i < |s| ==> IsWs(s[i])
  }

  predicate IsDigit(c: char)
  {
    '0' <= c <= '9'
  }

  predicate Starts(s: string, p: char -> bool)
  {
    s != "" && p(s[0])
  }

  function SkipWs(s: string): (r: string)
    ensures |r| <= |s| && !Starts(r, IsWs)
  {
    if Starts(s, IsWs) then SkipWs(s[1..]) else s
  }

  /** Length of the run of digits at the front. */
  function DigitRun(s: string): (k: nat)
    ensures k <= |s| && forall i :: 0 <= i < k ==> IsDigit(s[i])
    ensures !Starts(s[k..], IsDigit)
  {
    if Starts(s, IsDigit) then
      var k := DigitRun(s[1..]);
      assert s[1 + k..] == s[1..][k..];
      1 + k
    else 0
  }

  function DigitValue(c: char): (d: nat)
    requires IsDigit(c)
    ensures d < 10
  {
    c as int - '0' as int
  }

  function DigitValues(s: string): (ds: seq<nat>)
    requires forall i :: 0 <= i < |s| ==> IsDigit(s[i])
    ensures Below(ds, 10) && |ds| == |s|
  {
    seq(|s|, i requires 0 <= i < |s| => DigitValue(s[i]))
  }

  // Parsing ----------------------------------------------------------------

  /** Digits without a superfluous leading zero. */
  function ParseNat(s: string): (r: Option<(nat, string)>)
    ensures r.Some? ==> |r.value.1| < |s|
  {
    var k := DigitRun(s);
    if k == 0 || (s[0] == '0' && k > 1) then None else
      Some((NumeralValue(s[..k]), s[k..]))
  }

  function NumeralValue(s: string): nat
    requires forall i :: 0 <= i < |s| ==> IsDigit(s[i])
  {
    Value(DigitValues(s), 10)
  }

  /** An optional minus sign, then a number. */
  function ParseInt(s: string): (r: Option<(int, string)>)
    ensures r.Some? ==> |r.value.1| < |s|
  {
    if Starts(s, c => c == '-') then
      var (n, rest) :- ParseNat(s[1..]);
      Some((0 - n, rest))
    else
      var (n, rest) :- ParseNat(s);
      Some((n, rest))
  }

  function ParseItem(s: string): (r: Option<(int, string)>)
    ensures r.Some? ==> |r.value.1| < |s|
  {
    if "true" <= s then Some((1, s[4..]))
    else if "false" <= s then Some((0, s[5..]))
    else ParseInt(s)
  }

  /** One or more items separated by commas, up to and with the closing bracket. */
  function ParseItems(s: string): Option<(seq<int>, string)>
    decreases |s|
  {
    var (v, r) :- ParseItem(s);
    var t := SkipWs(r);
    if t == "" then None
    else if t[0] == ']' then Some(([v], t[1..]))
    else if t[0] == ',' then
      var (vs, after) :- ParseItems(SkipWs(t[1..]));
      Some(([v] + vs, after))
    else None
  }

  function Loads(text: string): Option<Json>
  {
    var s := SkipWs(text);
    if Starts(s, c => c == '[') then
      var t := SkipWs(s[1..]);
      var (vs, after) :- if Starts(t, c => c == ']') then Some(([], t[1..])) else ParseItems(t);
      if AllWs(after) then Some(Array(vs)) else None
    else if Starts(s, c => c == '{') then
      var t := SkipWs(s[1..]);
      if Starts(t, c => c == '}') && AllWs(t[1..]) then Some(EmptyObject) else None
    else
      var (n, after) :- ParseItem(s);
      if AllWs(after) then Some(Number(n)) else None
  }

  predicate AreBytes(vs: seq<int>)
  {
    forall i :: 0 <= i < |vs| ==> 0 <= vs[i] < 256
  }

  /** bytes(json.loads(text)): the items of an array; for a bare number, that
      many zero bytes; for the empty object, nothing. */
  function LoadBytes(text: string): (r: Result<seq<byte>>)
    ensures r.Err? ==> r.error in {ValueError, OverflowError}
  {
    match Loads(text)
    case None => Err(ValueError)
    case Some(Array(vs)) => if AreBytes(vs) then Ok(vs) else Err(ValueError)
    case Some(EmptyObject) => Ok([])
    case Some(Number(n)) =>
      if n < -INDEX_LIMIT || INDEX_LIMIT <= n then Err(OverflowError)
      else if n < 0 then Err(ValueError)
      else Ok(Repeat(0, n))
  }

  // Writing ----------------------------------------------------------------

  /** The white space of JSON: RFC 8259, section 2. */
  predicate Blank(s: string)
  {
    forall i :: 0 <= i < |s| ==> s[i] in " \t\n\r"
  }

  lemma BlankIsAllWs(s: string)
    ensures Blank(s) <==> AllWs(s)
  {
    forall i | 0 <= i < |s|
      ensures s[i] in " \t\n\r" <==> IsWs(s[i])
    {
    }
  }

  /** A number in decimal, without superfluous zeros. */
  function Decimal(n: nat): (s: string)
    ensures s != ""
  {
    if n == 0 then "0" else
      DigitsStartNonZero(n, 10);
      DigitText(Digits(n, 10))
  }

  function DigitText(ds: seq<nat>): (s: string)
    requires Below(ds, 10)
    ensures |s| == |ds|
  {
    seq(|ds|, i requires 0 <= i < |ds| => '0' + ds[i] as char)
  }

  /** The ways of writing one item. */
  predicate IsItem(t: string, v: int)
  {
    || (t == "true" && v == 1)
    || (t == "false" && v == 0)
    || (0 <= v && t == Decimal(v))
    || (v <= 0 && t == "-" + Decimal(-v))
  }

  /** An item with the white space around it. */
  datatype Cell = Cell(pre: string, item: string, post: string)

  predicate IsCell(c: Cell, v: int)
  {
    Blank(c.pre) && IsItem(c.item, v) && Blank(c.post)
  }

  predicate AreCells(cells: seq<Cell>, vs: seq<int>)
  {
    |cells| == |vs| && forall i :: 0 <= i < |vs| ==> IsCell(cells[i], vs[i])
  }

  /** Cells separated by commas, and the closing bracket. */
  function CellText(cells: seq<Cell>): string
    requires cells != []
  {
    cells[0].pre + cells[0].item + cells[0].post +
    if |cells| == 1 then "]" else "," + CellText(cells[1..])
  }

  /** An array with white space before and after it; gap is that of an empty one. */
  function ArrayText(before: string, cells: seq<Cell>, gap: string, after: string): string
  {
    before + ("[" + ((if cells == [] then gap + "]" else CellText(cells)) + after))
  }

  ghost predicate WritesArray(text: string, vs: seq<int>)
  {
    exists before, cells, gap, after ::
      && text == ArrayText(before, cells, gap, after)
      && Blank(before) && AreCells(cells, vs) && Blank(gap) && Blank(after)
  }

  // Reading back -----------------------------------------------------------

  lemma {:induction false} SkipWsOf(ws: string, s: string)
    requires Blank(ws) && !Starts(s, IsWs)
    ensures SkipWs(ws + s) == s
  {
    if ws == "" {
      assert ws + s == s;
    } else {
      SkipWsOf(ws[1..], s);
      assert (ws + s)[1..] == ws[1..] + s;
    }
  }

  lemma {:induction false} DigitRunOf(ds: string, s: string)
    requires forall i :: 0 <= i < |ds| ==> IsDigit(ds[i])
    requires !Starts(s, IsDigit)
    ensures DigitRun(ds + s) == |ds|
  {
    if ds == "" {
      assert ds + s == s;
    } else {
      DigitRunOf(ds[1..], s);
      assert (ds + s)[1..] == ds[1..] + s;
    }
  }

  lemma DecimalDigits(n: nat)
    ensures var s := Decimal(n);
            && (forall i :: 0 <= i < |s| ==> IsDigit(s[i]))
            && NumeralValue(s) == n
            && (s[0] == '0' ==> |s| == 1)
  {
    if n == 0 {
      assert DigitValues("0") == [0];
      assert Value([0], 10) == 0;
    } else {
      hide Digits, Value;
      DigitsStartNonZero(n, 10);
      ValueOfDigits(n, 10);
      assert DigitValues(Decimal(n)) == Digits(n, 10);
    }
  }

  /** Digits without a superfluous zero are the decimal of their value. */
  lemma DecimalOfDigits(s: string)
    requires s != "" && forall i :: 0 <= i < |s| ==> IsDigit(s[i])
    requires s[0] == '0' ==> |s| == 1
    ensures Decimal(NumeralValue(s)) == s
  {
    var ds := DigitValues(s);
    if s[0] == '0' {
      assert ds == [] + [0];
      ValueAppend([], 0, 10);
    } else {
      hide Digits, Value;
      DigitsOfValue(ds, 10);
      DigitsStartNonZero(Value(ds, 10), 10);
    }
  }

  lemma ParseNatOf(n: nat, s: string)
    requires !Starts(s, IsDigit)
    ensures ParseNat(Decimal(n) + s) == Some((n, s)) && IsDigit((Decimal(n) + s)[0])
  {
    hide NumeralValue, Decimal;
    var d := Decimal(n);
    DecimalDigits(n);
    DigitRunOf(d, s);
    assert (d + s)[..|d|] == d && (d + s)[|d|..] == s;
  }

  lemma ParseDecimal(n: nat, s: string)
    requires !Starts(s, IsDigit)
    ensures ParseItem(Decimal(n) + s) == Some((n, s))
    ensures IsDigit(Decimal(n)[0])
  {
    hide Decimal, ParseNat;
    ParseNatOf(n, s);
    assert (Decimal(n) + s)[0] == Decimal(n)[0];
  }

  lemma ParseNegative(n: nat, s: string)
    requires !Starts(s, IsDigit)
    ensures ParseItem("-" + Decimal(n) + s) == Some((0 - n, s))
  {
    hide Decimal, ParseNat;
    ParseNatOf(n, s);
    var t := "-" + Decimal(n) + s;
    assert t[0] == '-' && t[1..] == Decimal(n) + s;
  }

  lemma ParseItemOf(t: string, v: int, s: string)
    requires IsItem(t, v) && !Starts(s, IsDigit)
    ensures ParseItem(t + s) == Some((v, s))
    ensures t != "" && !IsWs(t[0]) && t[0] !in "][{"
  {
    hide Decimal, ParseInt;
    if t == "true" && v == 1 {
      assert (t + s)[..4] == t && (t + s)[4..] == s;
    } else if t == "false" && v == 0 {
      assert (t + s)[..5] == t && (t + s)[5..] == s && (t + s)[0] == 'f';
    } else if 0 <= v && t == Decimal(v) {
      ParseDecimal(v, s);
    } else {
      ParseNegative(-v, s);
    }
  }

  lemma ItemOfParse(s: string) returns (t: string)
    requires ParseItem(s).Some?
    ensures s == t + ParseItem(s).value.1 && IsItem(t, ParseItem(s).value.0)
  {
    if "true" <= s {
      t := "true";
    } else if "false" <= s {
      t := "false";
    } else {
      hide ParseInt, Decimal;
      t := IntOfParse(s);
    }
  }

  lemma NatOfParse(s: string) returns (t: string)
    requires ParseNat(s).Some?
    ensures s == t + ParseNat(s).value.1 && t == Decimal(ParseNat(s).value.0)
  {
    hide NumeralValue, Decimal;
    var k := DigitRun(s);
    t := s[..k];
    DecimalOfDigits(t);
  }

  lemma IntOfParse(s: string) returns (t: string)
    requires ParseInt(s).Some?
    ensures var (v, r) := ParseInt(s).value;
            && s == t + r
            && ((0 <= v && t == Decimal(v)) || (v <= 0 && t == "-" + Decimal(-v)))
  {
    hide Decimal, ParseNat;
    if Starts(s, c => c == '-') {
      t := NatOfParse(s[1..]);
      assert s == "-" + s[1..];
      t := "-" + t;
    } else {
      t := NatOfParse(s);
    }
  }

  lemma {:induction false} SkipWsSplit(s: string) returns (ws: string)
    ensures Blank(ws) && s == ws + SkipWs(s)
  {
    if Starts(s, IsWs) {
      ws := SkipWsSplit(s[1..]);
      JoinFirst(s, ws, SkipWs(s));
      ws := [s[0]] + ws;
    } else {
      ws := "";
    }
  }

  lemma ParseCell(c: Cell, v: int, tail: string)
    requires IsCell(c, v) && !Starts(tail, IsDigit) && !Starts(tail, IsWs)
    ensures var s := SkipWs(c.pre + (c.item + (c.post + tail)));
            s != "" && s[0] != ']' && ParseItem(s) == Some((v, c.post + tail))
    ensures SkipWs(c.post + tail) == tail
  {
    hide ParseItem, IsItem;
    assert !Starts(c.post + tail, IsDigit) by {
      if c.post != "" {
        assert (c.post + tail)[0] == c.post[0];
      }
    }
    ParseItemOf(c.item, v, c.post + tail);
    SkipWsOf(c.pre, c.item + (c.post + tail));
    SkipWsOf(c.post, tail);
  }

  lemma {:induction false} ParseCells(cells: seq<Cell>, vs: seq<int>, after: string)
    requires cells != [] && AreCells(cells, vs)
    ensures var s := SkipWs(CellText(cells) + after);
            s != "" && s[0] != ']' && ParseItems(s) == Some((vs, after))
  {
    hide ParseItem, IsCell;
    var c := cells[0];
    if |cells| == 1 {
      RegroupFive(c.pre, c.item, c.post, "]", after);
      ParseCell(c, vs[0], "]" + after);
      DropFirst(']', after);
      assert vs == [vs[0]];
    } else {
      var more := CellText(cells[1..]) + after;
      RegroupFive(c.pre, c.item, c.post, "," + CellText(cells[1..]), after);
      assert "," + CellText(cells[1..]) + after == "," + more;
      ParseCell(c, vs[0], "," + more);
      DropFirst(',', more);
      ParseCells(cells[1..], vs[1..], after);
      assert vs == [vs[0]] + vs[1..];
    }
  }

  lemma {:induction false} CellsOfParse(s: string) returns (cells: seq<Cell>)
    requires ParseItems(s).Some?
    ensures cells != [] && AreCells(cells, ParseItems(s).value.0)
    ensures s == CellText(cells) + ParseItems(s).value.1
    decreases |s|
  {
    hide ParseItem, IsItem, CellText, AreCells;
    var (v, r) := ParseItem(s).value;
    var item := ItemOfParse(s);
    var post := SkipWsSplit(r);
    var t := SkipWs(r);
    if t[0] == ']' {
      cells := OneCell(Cell("", item, post), v);
      TakePrefix("]", t);
      RegroupFive("", item, post, "]", t[1..]);
    } else {
      var pre := SkipWsSplit(t[1..]);
      var u := SkipWs(t[1..]);
      var more := CellsOfParse(u);
      var (vs, after) := ParseItems(u).value;
      cells := PrependCell(Cell("", item, post), v, pre, more, vs);
      RegroupFive("", item, post, "," + (pre + CellText(more)), after);
      RejoinTail(pre, CellText(more), after, t);
    }
  }

  lemma OneCell(c: Cell, v: int) returns (cells: seq<Cell>)
    requires IsCell(c, v)
    ensures cells != [] && AreCells(cells, [v])
    ensures CellText(cells) == c.pre + c.item + c.post + "]"
  {
    cells := [c];
  }

  lemma PrependCell(c: Cell, v: int, pre: string, more: seq<Cell>, vs: seq<int>) returns (cells: seq<Cell>)
    requires IsCell(c, v) && Blank(pre) && more != [] && AreCells(more, vs)
    ensures cells != [] && AreCells(cells, [v] + vs)
    ensures CellText(cells) == c.pre + c.item + c.post + ("," + (pre + CellText(more)))
  {
    hide IsCell;
    var next := [more[0].(pre := pre + more[0].pre)] + more[1..];
    WidenFirst(pre, more);
    WideIsCell(pre, more[0], vs[0]);
    cells := [c] + next;
    assert cells[1..] == next;
  }

  lemma WidenFirst(ws: string, cells: seq<Cell>)
    requires cells != []
    ensures CellText([cells[0].(pre := ws + cells[0].pre)] + cells[1..]) == ws + CellText(cells)
  {
    var c := cells[0];
    var wide := [c.(pre := ws + c.pre)] + cells[1..];
    assert wide[1..] == cells[1..];
    Widen(ws, c.pre, c.item, c.post, if |cells| == 1 then "]" else "," + CellText(cells[1..]));
  }

  /** A document loads as an array exactly when it is one: in brackets, items
      separated by commas, each in one of its forms, white space anywhere. */
  lemma LoadsArrayIff(text: string, vs: seq<int>)
    ensures Loads(text) == Some(Array(vs)) <==> WritesArray(text, vs)
  {
    if WritesArray(text, vs) {
      var before, cells, gap, after :|
        && text == ArrayText(before, cells, gap, after)
        && Blank(before) && AreCells(cells, vs) && Blank(gap) && Blank(after);
      LoadArrayText(before, cells, gap, after, vs);
    }
    if Loads(text) == Some(Array(vs)) {
      ArrayOfLoads(text, vs);
    }
  }

  lemma LoadArrayText(before: string, cells: seq<Cell>, gap: string, after: string, vs: seq<int>)
    requires Blank(before) && AreCells(cells, vs) && Blank(gap)
    ensures Loads(ArrayText(before, cells, gap, after)) == if Blank(after) then Some(Array(vs)) else None
  {
    hide IsCell, ParseItems, CellText;
    BlankIsAllWs(after);
    var inner := (if cells == [] then gap + "]" else CellText(cells)) + after;
    SkipWsOf(before, "[" + inner);
    DropFirst('[', inner);
    if cells == [] {
      assert inner == gap + ("]" + after);
      SkipWsOf(gap, "]" + after);
      DropFirst(']', after);
    } else {
      ParseCells(cells, vs, after);
    }
  }

  lemma ArrayOfLoads(text: string, vs: seq<int>)
    requires Loads(text) == Some(Array(vs))
    ensures WritesArray(text, vs)
  {
    hide IsCell, ParseItems, CellText, ParseItem;
    var before := SkipWsSplit(text);
    var s := SkipWs(text);
    var lead := SkipWsSplit(s[1..]);
    var t := SkipWs(s[1..]);
    if Starts(t, c => c == ']') {
      assert t == "]" + t[1..];
      RejoinArray(before, s, lead, "]", t[1..]);
      assert text == ArrayText(before, [], lead, t[1..]);
    } else {
      var cells := CellsOfParse(t);
      var after := ParseItems(t).value.1;
      WidenFirst(lead, cells);
      var wide := [cells[0].(pre := lead + cells[0].pre)] + cells[1..];
      assert AreCells(wide, vs) by {
        WideIsCell(lead, cells[0], vs[0]);
      }
      RejoinArray(before, s, lead, CellText(cells), after);
      assert text == ArrayText(before, wide, "", after);
    }
  }

  lemma RejoinTail(pre: string, more: string, after: string, t: string)
    requires t != "" && t[0] == ',' && t[1..] == pre + (more + after)
    ensures ("," + (pre + more)) + after == t
  {
  }

  lemma RejoinArray(before: string, s: string, lead: string, inner: string, after: string)
    requires s != "" && s[0] == '[' && s[1..] == lead + (inner + after)
    ensures before + s == before + ("[" + ((lead + inner) + after))
  {
  }

  lemma WideIsCell(ws: string, c: Cell, v: int)
    requires Blank(ws) && IsCell(c, v)
    ensures IsCell(c.(pre := ws + c.pre), v)
  {
  }

  ghost predicate WritesNumber(text: string, n: int)
  {
    exists before, item, after :: text == before + (item + after)
                                  && Blank(before) && IsItem(item, n) && Blank(after)
  }

  lemma LoadNumber(before: string, item: string, after: string, n: int)
    requires Blank(before) && IsItem(item, n) && Blank(after)
    ensures Loads(before + (item + after)) == Some(Number(n))
  {
    hide ParseItem, IsItem, ParseItems;
    ParseItemOf(item, n, after);
    assert (item + after)[0] == item[0];
    SkipWsOf(before, item + after);
  }

  lemma NumberOfLoads(text: string, n: int)
    requires Loads(text) == Some(Number(n))
    ensures WritesNumber(text, n)
  {
    hide ParseItem, IsItem, ParseItems, AllWs, Blank;
    var before := SkipWsSplit(text);
    var s := SkipWs(text);
    var item := ItemOfParse(s);
    var after := ParseItem(s).value.1;
    BlankIsAllWs(after);
    hide SkipWs, Loads;
    assert text == before + (item + after);
  }

  lemma LoadsNumberIff(text: string, n: int)
    ensures Loads(text) == Some(Number(n)) <==> WritesNumber(text, n)
  {
    hide Loads, IsItem, Blank;
    if WritesNumber(text, n) {
      var before, item, after :| text == before + (item + after)
                                 && Blank(before) && IsItem(item, n) && Blank(after);
      LoadNumber(before, item, after, n);
    }
    if Loads(text) == Some(Number(n)) {
      NumberOfLoads(text, n);
    }
  }

  ghost predicate WritesEmptyObject(text: string)
  {
    exists before, gap, after :: text == before + ("{" + (gap + ("}" + after)))
                                 && Blank(before) && Blank(gap) && Blank(after)
  }

  lemma LoadEmptyObject(before: string, gap: string, after: string)
    requires Blank(before) && Blank(gap)
    ensures Loads(before + ("{" + (gap + ("}" + after)))) == if Blank(after) then Some(EmptyObject) else None
  {
    hide ParseItem, ParseItems, AllWs, Blank;
    BlankIsAllWs(after);
    SkipWsOf(before, "{" + (gap + ("}" + after)));
    DropFirst('{', gap + ("}" + after));
    SkipWsOf(gap, "}" + after);
    DropFirst('}', after);
  }

  lemma EmptyObjectOfLoads(text: string)
    requires Loads(text) == Some(EmptyObject)
    ensures WritesEmptyObject(text)
  {
    hide ParseItem, ParseItems, AllWs, Blank;
    var before := SkipWsSplit(text);
    var s := SkipWs(text);
    var gap := SkipWsSplit(s[1..]);
    var t := SkipWs(s[1..]);
    BlankIsAllWs(t[1..]);
    TakePrefix("{", s);
    TakePrefix("}", t);
    hide SkipWs, Loads;
  }

  lemma LoadsEmptyObjectIff(text: string)
    ensures Loads(text) == Some(EmptyObject) <==> WritesEmptyObject(text)
  {
    hide Loads;
    if WritesEmptyObject(text) {
      var before, gap, after :| text == before + ("{" + (gap + ("}" + after)))
                                && Blank(before) && Blank(gap) && Blank(after);
      LoadEmptyObject(before, gap, after);
    }
    if Loads(text) == Some(EmptyObject) {
      EmptyObjectOfLoads(text);
    }
  }

  /** Exactly which documents load as given bytes: their array; their length as
      a bare number, if an index can hold it, when they are all zero; and the
      empty object when there are none. */
  lemma LoadBytesIff(text: string, d: seq<byte>)
    ensures LoadBytes(text) == Ok(d) <==>
            || WritesArray(text, d)
            || (WritesNumber(text, |d|) && |d| < 0x8000_0000_0000_0000 && d == Repeat(0, |d|))
            || (WritesEmptyObject(text) && d == [])
  {
    LoadsArrayIff(text, d);
    LoadsNumberIff(text, |d|);
    LoadsEmptyObjectIff(text);
    hide Loads, WritesArray, WritesNumber, WritesEmptyObject;
  }

  /** A bare number does load, as that many zero bytes, up to the index limit. */
  lemma BareNumberLoads(n: nat)
    ensures LoadBytes(Decimal(n)) ==
            if n < 0x8000_0000_0000_0000 then Ok(Repeat(0, n)) else Err(OverflowError)
  {
    hide Decimal, ParseItem;
    ParseDecimal(n, "");
    assert Decimal(n) + "" == Decimal(n);
  }
}
