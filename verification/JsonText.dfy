/** The loader on whole documents, character by character: which white space it
    skips, how it reads the text json.dumps writes, and what numbers look like. */
module JsonText {
  import opened Json
  import opened Positional
  import opened Results
  import opened Sequences

  // White space ------------------------------------------------------------

  lemma ArrayEnds(before: string, cells: seq<Cell>, gap: string)
    ensures ArrayText(before, cells, gap, "") != ""
    ensures var s := ArrayText(before, cells, gap, ""); s[|s| - 1] == ']'
    ensures forall after :: ArrayText(before, cells, gap, after) == ArrayText(before, cells, gap, "") + after
  {
    if cells != [] {
      CellTextEnds(cells);
    }
    forall after
      ensures ArrayText(before, cells, gap, after) == ArrayText(before, cells, gap, "") + after
    {
    }
  }

  lemma {:induction false} CellTextEnds(cells: seq<Cell>)
    requires cells != []
    ensures var s := CellText(cells); s != "" && s[|s| - 1] == ']'
  {
    if |cells| > 1 {
      CellTextEnds(cells[1..]);
    }
  }

  lemma ItemShape(t: string, v: int)
    requires IsItem(t, v)
    ensures t != ""
    ensures t[|t| - 1] == 'e' || '0' <= t[|t| - 1] <= '9'
    ensures match t[0]
            case 't' => t == "true" && v == 1
            case 'f' => t == "false" && v == 0
            case '-' => v <= 0 && t == "-" + Decimal(-v)
            case _ => '0' <= t[0] <= '9' && 0 <= v && t == Decimal(v)
  {
    if 0 <= v {
      DecimalDigits(v);
    }
    if v <= 0 {
      DecimalDigits(-v);
    }
    hide Decimal;
  }

  /** No item is another item of the same value with one character more. */
  lemma ItemsDiffer(t: string, c: char, v: int)
    requires IsItem(t, v)
    ensures !IsItem(t + [c], v)
  {
    ItemShape(t, v);
    assert (t + [c])[0] == t[0];
    if IsItem(t + [c], v) {
      ItemShape(t + [c], v);
    }
    hide Decimal, IsItem;
  }

  lemma ItemHasNoWs(t: string, v: int, i: nat)
    requires IsItem(t, v) && i < |t|
    ensures t[i] !in " \t\n\r"
  {
    if 0 <= v {
      DecimalDigits(v);
    }
    if v <= 0 {
      DecimalDigits(-v);
    }
    hide Decimal;
  }

  lemma SplitAppended(s: string, c: char, x: string, after: string)
    requires s + [c] == x + after && after != ""
    ensures after[|after| - 1] == c && s == x + after[..|after| - 1]
  {
    assert (x + after)[|x + after| - 1] == after[|after| - 1];
    assert (x + after)[..|x + after| - 1] == x + after[..|after| - 1];
    assert (s + [c])[..|s + [c]| - 1] == s;
  }

  /** x is an array or an object, up to its closing bracket. */
  ghost predicate IsClosed(x: string, j: Json)
  {
    match j
    case Array(vs) => exists before, cells, gap :: x == ArrayText(before, cells, gap, "")
                                                  && Blank(before) && AreCells(cells, vs) && Blank(gap)
    case EmptyObject => exists before, gap :: x == before + ("{" + (gap + "}")) && Blank(before) && Blank(gap)
    case Number(_) => false
  }

  lemma ClosedThen(x: string, j: Json, after: string)
    requires IsClosed(x, j)
    ensures x != "" && x[|x| - 1] in "]}"
    ensures Loads(x + after) == if Blank(after) then Some(j) else None
  {
    hide Loads, ArrayText, AreCells;
    if j.Array? {
      var before, cells, gap :| x == ArrayText(before, cells, gap, "")
                                && Blank(before) && AreCells(cells, j.items) && Blank(gap);
      ArrayEnds(before, cells, gap);
      LoadArrayText(before, cells, gap, after, j.items);
    } else {
      var before, gap :| x == before + ("{" + (gap + "}")) && Blank(before) && Blank(gap);
      LoadEmptyObject(before, gap, after);
      assert x + after == before + ("{" + (gap + ("}" + after)));
    }
  }

  lemma ClosedOfLoads(s: string, j: Json) returns (x: string, after: string)
    requires Loads(s) == Some(j) && !j.Number?
    ensures IsClosed(x, j) && Blank(after) && s == x + after
  {
    hide Loads, ArrayText, AreCells;
    if j.Array? {
      LoadsArrayIff(s, j.items);
      var before, cells, gap, rest :|
        && s == ArrayText(before, cells, gap, rest)
        && Blank(before) && AreCells(cells, j.items) && Blank(gap) && Blank(rest);
      ArrayEnds(before, cells, gap);
      x, after := ArrayText(before, cells, gap, ""), rest;
    } else {
      LoadsEmptyObjectIff(s);
      var before, gap, rest :| s == before + ("{" + (gap + ("}" + rest))) && Blank(before) && Blank(gap) && Blank(rest);
      x, after := before + ("{" + (gap + "}")), rest;
      assert x + after == before + ("{" + (gap + ("}" + rest)));
    }
  }

  lemma BlankAppended(after: string, c: char)
    requires Blank(after)
    ensures Blank(after + [c]) <==> c in " \t\n\r"
  {
    assert (after + [c])[|after|] == c;
  }

  lemma ClosedAppended(s: string, c: char, j: Json)
    requires !j.Number?
    ensures Loads(s) == Some(j) ==> Loads(s + [c]) == if c in " \t\n\r" then Some(j) else None
    ensures c in " \t\n\r" && Loads(s + [c]) == Some(j) ==> Loads(s) == Some(j)
  {
    hide Loads, IsClosed, Blank;
    if Loads(s) == Some(j) {
      var x, after := ClosedOfLoads(s, j);
      Assoc(x, after, [c]);
      BlankAppended(after, c);
      ClosedThen(x, j, after + [c]);
    }
    if c in " \t\n\r" && Loads(s + [c]) == Some(j) {
      var x, after := ClosedOfLoads(s + [c], j);
      ClosedThen(x, j, after);
      assert (s + [c])[|s|] == c;
      SplitAppended(s, c, x, after);
      var shorter := after[..|after| - 1];
      assert after == shorter + [c];
      ClosedThen(x, j, shorter);
      BlankShorter(after);
    }
  }

  lemma BlankShorter(after: string)
    requires Blank(after) && after != ""
    ensures Blank(after[..|after| - 1])
  {
  }

  lemma NumberOf(s: string, n: int) returns (before: string, item: string, after: string)
    requires Loads(s) == Some(Number(n))
    ensures s == before + (item + after) && Blank(before) && IsItem(item, n) && Blank(after)
    ensures SkipWs(s) == item + after
  {
    hide Loads, IsItem;
    LoadsNumberIff(s, n);
    before, item, after :| s == before + (item + after) && Blank(before) && IsItem(item, n) && Blank(after);
    SkipToItem(before, item, n, after);
  }

  lemma SkipToItem(before: string, item: string, n: int, rest: string)
    requires Blank(before) && IsItem(item, n)
    ensures SkipWs(before + (item + rest)) == item + rest
  {
    ItemHasNoWs(item, n, 0);
    hide IsItem;
    assert (item + rest)[0] == item[0];
    SkipWsOf(before, item + rest);
  }

  lemma NumberAppended(s: string, c: char, n: int)
    requires c in " \t\n\r"
    ensures Loads(s) == Some(Number(n)) <==> Loads(s + [c]) == Some(Number(n))
  {
    hide Loads, IsItem, Blank, SkipWs;
    if Loads(s) == Some(Number(n)) {
      var before, item, after := NumberOf(s, n);
      BlankAppended(after, c);
      assert s + [c] == before + (item + (after + [c]));
      LoadNumber(before, item, after + [c], n);
    }
    if Loads(s + [c]) == Some(Number(n)) {
      var before, item, after := NumberOf(s + [c], n);
      ItemShape(item, n);
      ItemHasNoWs(item, n, |item| - 1);
      assert before + (item + after) == before + item + after;
      assert (s + [c])[|s|] == c;
      SplitAppended(s, c, before + item, after);
      var shorter := after[..|after| - 1];
      BlankShorter(after);
      Assoc(before, item, shorter);
      LoadNumber(before, item, shorter, n);
    }
  }

  lemma NumberChanged(s: string, c: char, n: int)
    requires c !in " \t\n\r" && Loads(s) == Some(Number(n))
    ensures Loads(s + [c]) != Some(Number(n))
  {
    hide Loads, IsItem, SkipWs;
    var before, item, after := NumberOf(s, n);
    SkipToItem(before, item, n, after + [c]);
    assert s + [c] == before + (item + (after + [c]));
    if Loads(s + [c]) == Some(Number(n)) {
      var before', item', after' := NumberOf(s + [c], n);
      assert item' + after' == item + (after + [c]);
      assert (item' + after')[|item' + after'| - 1] == c;
      assert item' == item + (after + [c]);
      if after == "" {
        assert after + [c] == [c];
        ItemsDiffer(item, c, n);
      } else {
        assert item'[|item|] == after[0];
        ItemHasNoWs(item', n, |item|);
      }
    }
  }

  lemma BlankFirst(c: char, s: string)
    requires c in " \t\n\r"
    ensures Loads([c] + s) == Loads(s)
  {
    DropFirst(c, s);
    assert IsWs(c);
    hide ParseItem, ParseItems, AllWs;
  }

  /** White space at either end of a document is skipped, if it is one of the
      four characters. */
  lemma LoadsSkips(s: string, c: char)
    requires c in " \t\n\r"
    ensures Loads([c] + s) == Loads(s) == Loads(s + [c])
  {
    hide Loads;
    BlankFirst(c, s);
    if Loads(s).Some? {
      var j := Loads(s).value;
      if j.Number? {
        NumberAppended(s, c, j.n);
      } else {
        ClosedAppended(s, c, j);
      }
    }
    if Loads(s + [c]).Some? {
      var j := Loads(s + [c]).value;
      if j.Number? {
        NumberAppended(s, c, j.n);
      } else {
        ClosedAppended(s, c, j);
      }
    }
  }

  /** ... and only then: any other character at the end changes the document. */
  lemma LoadsSkipsOnly(s: string, c: char)
    requires Loads(s).Some?
    ensures Loads(s + [c]) == Loads(s) <==> c in " \t\n\r"
  {
    hide Loads;
    var j := Loads(s).value;
    if c in " \t\n\r" {
      LoadsSkips(s, c);
    } else if j.Number? {
      NumberChanged(s, c, j.n);
    } else {
      ClosedAppended(s, c, j);
    }
  }

  // Numbers and arrays as Python writes them ---------------------------------

  /** str(n), digit by digit. */
  lemma DecimalText(n: nat)
    ensures Decimal(n) == (if n < 10 then "" else Decimal(n / 10)) + ["0123456789"[n % 10]]
  {
    DivShrinksTen(n);
    assert forall d: nat :: d < 10 ==> "0123456789"[d] == '0' + d as char;
    if n >= 10 {
      TextAppended(Digits(n / 10, 10), n % 10);
    } else if n > 0 {
      assert Digits(0, 10) == [];
      TextAppended([], n);
    }
  }

  lemma DivShrinksTen(n: nat)
    ensures 10 <= n ==> 0 < n / 10 < n
    ensures n < 10 ==> n / 10 == 0 && n % 10 == n
  {
  }

  lemma TextAppended(ds: seq<nat>, d: nat)
    requires Below(ds, 10) && d < 10
    ensures DigitText(ds + [d]) == DigitText(ds) + ['0' + d as char]
  {
  }

  /** The items of json.dumps, with gap after each comma. */
  function Listed(vs: seq<nat>, gap: string): string
    requires vs != []
  {
    Decimal(vs[0]) + if |vs| == 1 then "" else "," + (gap + Listed(vs[1..], gap))
  }

  /** The array that json.dumps writes loads as what it was written from. */
  lemma DumpsLoads(vs: seq<nat>, gap: string)
    requires Blank(gap)
    ensures Loads("[" + (if vs == [] then "" else Listed(vs, gap)) + "]") == Some(Array(vs))
  {
    hide Loads, CellText, Listed;
    if vs == [] {
      LoadArrayText("", [], "", "", vs);
      assert ArrayText("", [], "", "") == "[" + "" + "]";
    } else {
      var cells := ListedCells(vs, gap);
      LoadArrayText("", cells, "", "", vs);
      Assoc("[", Listed(vs, gap), "]");
      assert ArrayText("", cells, "", "") == "[" + CellText(cells);
    }
  }

  lemma {:induction false} ListedCells(vs: seq<nat>, gap: string) returns (cells: seq<Cell>)
    requires vs != [] && Blank(gap)
    ensures cells != [] && AreCells(cells, vs) && CellText(cells) == Listed(vs, gap) + "]"
  {
    hide Decimal;
    var first := Cell("", Decimal(vs[0]), "");
    if |vs| == 1 {
      cells := OneCell(first, vs[0]);
      assert [vs[0]] == vs;
    } else {
      var more := ListedCells(vs[1..], gap);
      cells := PrependCell(first, vs[0], gap, more, vs[1..]);
      assert [vs[0]] + vs[1..] == vs;
      var d, rest := Decimal(vs[0]), Listed(vs[1..], gap);
      assert "" + d + "" == d;
      assert d + ("," + (gap + (rest + "]"))) == d + ("," + (gap + rest)) + "]";
    }
  }

  /** A negative number is refused, and beyond the range of an index overflows;
      minus zero is zero. */
  lemma NegativeNumber(n: nat)
    ensures LoadBytes("-" + Decimal(n)) ==
            if n == 0 then Ok([])
            else if n <= 0x8000_0000_0000_0000 then Err(ValueError)
            else Err(OverflowError)
  {
    hide Decimal, Loads, IsItem;
    MinusIsItem(n);
    var t := "-" + Decimal(n);
    LoadNumber("", t, "", 0 - n);
    assert "" + (t + "") == t;
  }

  lemma MinusIsItem(n: nat)
    ensures IsItem("-" + Decimal(n), 0 - n)
  {
  }

  /** The other documents that bytes takes. */
  lemma OddDocuments()
    ensures LoadBytes("true") == Ok([0]) && LoadBytes("false") == Ok([]) && LoadBytes("{}") == Ok([])
  {
    hide Loads;
    LoadNumber("", "true", "", 1);
    LoadNumber("", "false", "", 0);
    LoadEmptyObject("", "", "");
    assert "" + ("true" + "") == "true";
    assert "" + ("false" + "") == "false";
    assert "" + ("{" + ("" + ("}" + ""))) == "{}";
    assert Repeat(0, 1) == [0];
  }
}
