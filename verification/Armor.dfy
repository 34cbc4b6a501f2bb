/** The armored text of a key: base64 in lines of 70 characters between two
    marker lines. */
module Armor {
  import Base64
  import opened Positional
  import opened Results
  import opened Sequences

  const COLUMNS := 70
  const PEM_LABEL := "OPENSSH PRIVATE" + " KEY-----"
  const PEM_BEGIN := "-----BEGIN " + PEM_LABEL
  const PEM_END := "-----END " + PEM_LABEL

  // Lines ------------------------------------------------------------------

  function Join(lines: seq<string>): string
  {
    if lines == [] then ""
    else if |lines| == 1 then lines[0]
    else lines[0] + "\n" + Join(lines[1..])
  }

  function Split(text: string): (lines: seq<string>)
    ensures lines != []
  {
    if text == "" then [""] else
      var lines := Split(text[1..]);
      if text[0] == '\n' then [""] + lines else [[text[0]] + lines[0]] + lines[1..]
  }

  lemma {:induction false} JoinSplit(text: string)
    ensures Join(Split(text)) == text
  {
    if text != "" {
      var lines := Split(text[1..]);
      JoinSplit(text[1..]);
      assert text == [text[0]] + text[1..];
      if text[0] == '\n' {
        assert ([""] + lines)[1..] == lines;
      } else {
        JoinWithFirst(text[0], lines);
      }
    }
  }

  lemma JoinWithFirst(c: char, lines: seq<string>)
    requires lines != []
    ensures Join([[c] + lines[0]] + lines[1..]) == [c] + Join(lines)
  {
    assert ([[c] + lines[0]] + lines[1..])[1..] == lines[1..];
    if |lines| > 1 {
      assert [c] + lines[0] + "\n" + Join(lines[1..]) == [c] + (lines[0] + "\n" + Join(lines[1..]));
    }
  }

  lemma {:induction false} SplitLine(line: string, text: string)
    requires '\n' !in line
    ensures Split(line) == [line]
    ensures Split(line + "\n" + text) == [line] + Split(text)
  {
    var whole := line + "\n" + text;
    if line == "" {
      assert whole[1..] == text;
    } else {
      SplitLine(line[1..], text);
      assert whole[1..] == line[1..] + "\n" + text;
      assert line == [line[0]] + line[1..];
    }
  }

  predicate NoNewlines(lines: seq<string>)
  {
    forall i :: 0 <= i < |lines| ==> '\n' !in lines[i]
  }

  lemma {:induction false} SplitJoin(lines: seq<string>)
    requires lines != [] && NoNewlines(lines)
    ensures Split(Join(lines)) == lines
  {
    if |lines| == 1 {
      SplitLine(lines[0], "");
    } else {
      SplitLine(lines[0], Join(lines[1..]));
      SplitJoin(lines[1..]);
    }
  }

  // Columns ----------------------------------------------------------------

  function LineCount(n: nat): nat
  {
    (n + COLUMNS - 1) / COLUMNS
  }

  /** Line k of the text s: its slice at the k-th multiple of 70. */
  function Line(s: string, k: nat): (line: string)
    requires k < LineCount(|s|)
    ensures |line| == Min(COLUMNS, |s| - k * COLUMNS) > 0
  {
    s[k * COLUMNS..Min(k * COLUMNS + COLUMNS, |s|)]
  }

  /** The slices of s at every multiple of 70. */
  function Wrap(s: string): (lines: seq<string>)
    ensures |lines| == (|s| + COLUMNS - 1) / COLUMNS
  {
    seq(LineCount(|s|), k requires 0 <= k < LineCount(|s|) => Line(s, k))
  }

  function Min(a: int, b: int): int
  {
    if a < b then a else b
  }

  function Concat(lines: seq<string>): string
  {
    if lines == [] then "" else lines[0] + Concat(lines[1..])
  }

  /** Every line full but possibly the last, and none empty. */
  predicate IsWrapped(lines: seq<string>)
  {
    && (forall i :: 0 <= i < |lines| - 1 ==> |lines[i]| == COLUMNS)
    && (lines != [] ==> 0 < |lines[|lines| - 1]| <= COLUMNS)
  }

  lemma LineAfterFirst(s: string, k: nat)
    requires COLUMNS < |s| && k < LineCount(|s| - COLUMNS)
    ensures k + 1 < LineCount(|s|)
    ensures Line(s, k + 1) == Line(s[COLUMNS..], k)
  {
    var i, j := k * COLUMNS, Min(k * COLUMNS + COLUMNS, |s| - COLUMNS);
    SliceOfDrop(s, COLUMNS, i, j);
  }

  lemma WrapStep(s: string)
    requires COLUMNS < |s|
    ensures Wrap(s) == [s[..COLUMNS]] + Wrap(s[COLUMNS..])
  {
    assert LineCount(|s|) == 1 + LineCount(|s| - COLUMNS);
    assert Line(s, 0) == s[..COLUMNS];
    hide Line, LineCount;
    forall k | 0 <= k < LineCount(|s| - COLUMNS)
      ensures k + 1 < LineCount(|s|) && Line(s, k + 1) == Line(s[COLUMNS..], k)
    {
      LineAfterFirst(s, k);
    }
  }

  /** Wrapping gives wrapped lines that make up the text again. */
  lemma {:induction false} ConcatWrap(s: string)
    ensures IsWrapped(Wrap(s)) && Concat(Wrap(s)) == s
  {
    if s == "" {
    } else if |s| <= COLUMNS {
      assert Wrap(s)[0] == s;
    } else {
      WrapStep(s);
      ConcatWrap(s[COLUMNS..]);
      assert Wrap(s)[1..] == Wrap(s[COLUMNS..]);
      assert s == s[..COLUMNS] + s[COLUMNS..];
    }
  }

  /** ... and they are the only wrapped lines that do. */
  lemma {:induction false} WrapConcat(lines: seq<string>)
    requires IsWrapped(lines)
    ensures Wrap(Concat(lines)) == lines
  {
    if |lines| == 1 {
      assert Concat(lines) == lines[0];
      assert Wrap(lines[0])[0] == lines[0];
    } else if |lines| > 1 {
      var tail := lines[1..];
      assert IsWrapped(tail) by {
        assert tail[|tail| - 1] == lines[|lines| - 1];
      }
      WrapConcat(tail);
      var s := Concat(lines);
      assert s[..COLUMNS] == lines[0] && s[COLUMNS..] == Concat(tail);
      assert tail[0] != "";
      WrapStep(s);
    }
  }

  // The armor --------------------------------------------------------------

  function Enclose(lines: seq<string>): seq<string>
  {
    [PEM_BEGIN] + lines + [PEM_END, ""]
  }

  function Armored(body: seq<byte>): string
  {
    Join(Enclose(Wrap(Base64.Encode(body))))
  }

  /** The body of an armored text, if its marker lines, columns, final newline
      and base64 are all as they should be. */
  function Dearmor(text: string): Option<seq<byte>>
  {
    var lines := Split(text);
    var n := |lines|;
    if n < 3 || lines[0] != PEM_BEGIN || lines[n - 2] != PEM_END || lines[n - 1] != "" then None
    else if !IsWrapped(lines[1..n - 2]) then None
    else Base64.Decode(Concat(lines[1..n - 2]))
  }

  // The text, character by character ---------------------------------------

  /** A newline after every 70 characters of s and after the last. */
  ghost predicate InColumns(t: string, s: string)
  {
    && |t| == |s| + (|s| + 69) / 70
    && (forall i :: 0 <= i < |s| ==> t[i + i / 70] == s[i])
    && (forall k :: 0 <= k < (|s| + 69) / 70 ==> t[if 70 * k + 70 < |s| then 71 * k + 70 else |s| + k] == '\n')
  }

  lemma InColumnsStep(line: string, t: string, s: string)
    requires |line| == 70 && s != "" && InColumns(t, s)
    ensures InColumns(line + "\n" + t, line + s)
  {
    var t', s' := line + "\n" + t, line + s;
    forall i | 0 <= i < |s'|
      ensures t'[i + i / 70] == s'[i]
    {
      if i >= 70 {
        assert s'[i] == s[i - 70] == t[i - 70 + (i - 70) / 70];
      }
    }
    forall k | 0 <= k < (|s'| + 69) / 70
      ensures t'[if 70 * k + 70 < |s'| then 71 * k + 70 else |s'| + k] == '\n'
    {
      if k > 0 {
        assert t[if 70 * (k - 1) + 70 < |s| then 71 * (k - 1) + 70 else |s| + k - 1] == '\n';
      }
    }
  }

  lemma {:induction false} JoinWrapped(s: string, end: string) returns (t: string)
    ensures Join(Wrap(s) + [end, ""]) == t + end + "\n" && InColumns(t, s)
  {
    if s == "" {
      t := "";
      assert Wrap(s) + [end, ""] == [end, ""];
      JoinLine(end, [""]);
    } else if |s| <= COLUMNS {
      t := s + "\n";
      WrapShort(s);
      hide Wrap, Join;
      assert Wrap(s) + [end, ""] == [s] + ([end] + [""]);
      JoinLine(end, [""]);
      JoinLine(s, [end] + [""]);
      assert s + "\n" + (end + "\n" + Join([""])) == t + end + "\n" + Join([""]);
      JoinEmpty();
    } else {
      hide Wrap, Join, InColumns;
      var line, rest := s[..COLUMNS], s[COLUMNS..];
      WrapStep(s);
      var u := JoinWrapped(rest, end);
      assert Wrap(s) + [end, ""] == [line] + (Wrap(rest) + [end, ""]);
      JoinLine(line, Wrap(rest) + [end, ""]);
      t := line + "\n" + u;
      InColumnsStep(line, u, rest);
      assert line + rest == s;
      assert line + "\n" + (u + end + "\n") == t + end + "\n";
    }
  }

  lemma WrapShort(s: string)
    requires 0 < |s| <= COLUMNS
    ensures Wrap(s) == [s]
  {
    assert Wrap(s)[0] == s;
  }

  lemma JoinEmpty()
    ensures Join([""]) == ""
  {
  }

  lemma JoinLine(line: string, lines: seq<string>)
    requires lines != []
    ensures Join([line] + lines) == line + "\n" + Join(lines)
  {
  }

  /** An armored text is its two marker lines and, between them, the base64 of
      the body with a newline after every 70 characters. */
  lemma ArmoredText(body: seq<byte>) returns (columns: string)
    ensures Armored(body) == "-----BEGIN OPENSSH" + " PRIVATE KEY-----\n" + columns
                             + "-----END OPENSSH" + " PRIVATE KEY-----\n"
    ensures InColumns(columns, Base64.Encode(body))
  {
    hide Wrap, Join, InColumns;
    var lines := Wrap(Base64.Encode(body));
    columns := JoinWrapped(Base64.Encode(body), PEM_END);
    assert Enclose(lines) == [PEM_BEGIN] + (lines + [PEM_END, ""]);
    JoinLine(PEM_BEGIN, lines + [PEM_END, ""]);
    Markers();
    assert PEM_BEGIN + "\n" + (columns + PEM_END + "\n") == (PEM_BEGIN + "\n") + columns + (PEM_END + "\n");
  }

  lemma Markers()
    ensures PEM_BEGIN + "\n" == "-----BEGIN OPENSSH" + " PRIVATE KEY-----\n"
    ensures PEM_END + "\n" == "-----END OPENSSH" + " PRIVATE KEY-----\n"
  {
  }

  lemma EncloseInner(lines: seq<string>)
    ensures |Enclose(lines)| == |lines| + 3
    ensures Enclose(lines)[1..|lines| + 1] == lines
  {
  }

  lemma MarkersHaveNoNewline()
    ensures '\n' !in PEM_BEGIN && '\n' !in PEM_END
  {
  }

  lemma WrapHasNoNewline(body: seq<byte>)
    ensures NoNewlines(Wrap(Base64.Encode(body)))
  {
    var s := Base64.Encode(body);
    if '\n' in s {
      Base64.EncodeIsPlain(body, '\n');
      assert false;
    }
  }

  lemma DearmorOf(body: seq<byte>)
    ensures Dearmor(Armored(body)) == Some(body)
  {
    hide Wrap, Join, Split, Concat, Base64.Encode, Base64.Decode;
    var s := Base64.Encode(body);
    WrapHasNoNewline(body);
    MarkersHaveNoNewline();
    SplitJoin(Enclose(Wrap(s)));
    EncloseInner(Wrap(s));
    ConcatWrap(s);
    Base64.DecodeIff(s, body);
  }

  lemma ArmoredOfDearmor(text: string, body: seq<byte>)
    requires Dearmor(text) == Some(body)
    ensures text == Armored(body)
  {
    hide Wrap, Join, Split, Concat, Base64.Encode, Base64.Decode, IsWrapped;
    var lines := Split(text);
    var inner := lines[1..|lines| - 2];
    assert lines == Enclose(inner);
    JoinSplit(text);
    Base64.DecodeIff(Concat(inner), body);
    WrapConcat(inner);
  }

  /** A text holds a body exactly when it is the armored form of that body. */
  lemma DearmorIff(text: string, body: seq<byte>)
    ensures Dearmor(text) == Some(body) <==> text == Armored(body)
  {
    DearmorOf(body);
    if Dearmor(text) == Some(body) {
      ArmoredOfDearmor(text, body);
    }
  }
}
