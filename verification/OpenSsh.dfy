/** The unencrypted openssh-key-v1 container of OpenSSH's PROTOCOL.key. */
module OpenSsh {
  import opened Armor
  import opened Keypair
  import opened Positional
  import opened Results
  import opened Sequences
  import opened Wire
  import Base64

  const NONE: seq<byte> := Ascii("none")
  const MAGIC: seq<byte> := Ascii("openssh-key-v1") + [0]

  /** What a container holds. */
  datatype Contents = Contents(check: seq<byte>, keypair: seq<byte>, comment: seq<byte>)

  // The private section ----------------------------------------------------

  /** -n % 8, the bytes missing to the next multiple of eight. */
  function PadLength(n: nat): (k: nat)
    ensures k < 8 && (n + k) % 8 == 0
  {
    var m: int := n;
    (-m) % 8
  }

  lemma PadLengthUnique(n: nat, k: nat)
    requires k < 8 && (n + k) % 8 == 0
    ensures k == PadLength(n)
  {
  }

  function Padding(k: nat): (p: seq<byte>)
    requires k < 8
    ensures |p| == k
  {
    seq(k, i requires 0 <= i < k => i + 1)
  }

  function Fields(keypair: seq<byte>, comment: seq<byte>): seq<seq<byte>>
    requires |keypair| == KEYPAIR_LEN
  {
    [SSH_KEY_TYPE, keypair[32..], keypair, comment]
  }

  function Section(c: Contents): Result<seq<byte>>
    requires |c.keypair| == KEYPAIR_LEN
  {
    var fields :- Frames(Fields(c.keypair, c.comment));
    var plain := c.check + c.check + fields;
    Ok(plain + Padding(PadLength(|plain|)))
  }

  /** Checks both check words, the key type, that the public field repeats the
      second half of the private one, and the padding to the last byte. */
  function ReadSection(s: seq<byte>): Option<Contents>
  {
    if |s| % 8 != 0 || |s| < 8 || s[..4] != s[4..8] then None else
      var (fields, pad) :- ReadStrings(s[8..], 4);
      if && fields[0] == SSH_KEY_TYPE
         && |fields[2]| == KEYPAIR_LEN && fields[1] == fields[2][32..]
         && |pad| < 8 && pad == Padding(|pad|)
      then Some(Contents(s[..4], fields[2], fields[3]))
      else None
  }

  lemma FieldsSize(keypair: seq<byte>, comment: seq<byte>)
    requires |keypair| == KEYPAIR_LEN
    ensures var f := Frames(Fields(keypair, comment));
            && (f.Ok? <==> |comment| < LIMIT)
            && (f.Ok? ==> |f.value| == 123 + |comment|)
  {
    if |comment| < LIMIT {
      FramesOfTwo(keypair, comment);
      FramesOfMore(SSH_KEY_TYPE, keypair[32..], [keypair, comment]);
    } else {
      assert Fields(keypair, comment)[3] == comment;
    }
    assert Fields(keypair, comment) == [SSH_KEY_TYPE, keypair[32..]] + [keypair, comment];
  }

  /** The section is 123 bytes, two check words and the comment, and the padding
      1, 2, .. that brings it to a multiple of eight. */
  lemma SectionSize(c: Contents)
    requires |c.keypair| == KEYPAIR_LEN
    ensures Section(c).Ok? <==> |c.comment| < LIMIT
    ensures Section(c).Ok? ==>
            var n := 123 + 2 * |c.check| + |c.comment|;
            && |Section(c).value| == n + PadLength(n)
            && (forall i :: n <= i < n + PadLength(n) ==> Section(c).value[i] == i - n + 1)
  {
    FieldsSize(c.keypair, c.comment);
  }

  /** A section reads as c exactly when it is the section of c. */
  lemma ReadSectionIff(s: seq<byte>, c: Contents)
    ensures ReadSection(s) == Some(c) <==>
            |c.check| == 4 && |c.keypair| == KEYPAIR_LEN && Section(c) == Ok(s)
  {
    if |c.check| == 4 && |c.keypair| == KEYPAIR_LEN && Section(c) == Ok(s) {
      ReadSectionOf(s, c);
    }
    if ReadSection(s) == Some(c) {
      SectionOfRead(s, c);
    }
  }

  lemma ReadSectionOf(s: seq<byte>, c: Contents)
    requires |c.check| == 4 && |c.keypair| == KEYPAIR_LEN && Section(c) == Ok(s)
    ensures ReadSection(s) == Some(c)
  {
    hide Frames, ReadStrings, Padding, PadLength;
    var fields := Fields(c.keypair, c.comment);
    var framed := Frames(fields).value;
    var pad := Padding(PadLength(8 + |framed|));
    Regroup(c.check, c.check, framed, pad);
    DropPrefix(c.check + c.check, framed + pad);
    assert s[..4] == c.check == s[4..8];
    ReadStringsIff(s[8..], fields, pad);
  }

  lemma SectionOfRead(s: seq<byte>, c: Contents)
    requires ReadSection(s) == Some(c)
    ensures |c.check| == 4 && |c.keypair| == KEYPAIR_LEN && Section(c) == Ok(s)
  {
    hide Frames, ReadStrings, Padding, PadLength;
    var (fields, pad) := ReadStrings(s[8..], 4).value;
    assert fields == Fields(c.keypair, c.comment);
    ReadStringsIff(s[8..], fields, pad);
    var framed := Frames(fields).value;
    TakePrefix(c.check + c.check, s);
    Regroup(c.check, c.check, framed, pad);
    PadLengthUnique(8 + |framed|, |pad|);
  }

  // The body ---------------------------------------------------------------

  const HEADER_FIELDS: seq<seq<byte>> := [NONE, NONE, []]

  /** Magic, cipher and key derivation names, no options, one key. */
  function Header(): seq<byte>
  {
    MAGIC + Frames(HEADER_FIELDS).value + Pack(1).value
  }

  function Body(pubkey: seq<byte>, section: seq<byte>): Result<seq<byte>>
  {
    var blob :- PublicBlob(pubkey);
    var tail :- Frames([blob, section]);
    Ok(Header() + tail)
  }

  /** What follows the fixed part of a body. */
  function ReadHeader(s: seq<byte>): Option<seq<byte>>
  {
    if !(MAGIC <= s) then None else
      var (fields, s1) :- ReadStrings(s[|MAGIC|..], 3);
      var (count, rest) :- ReadU32(s1);
      if fields == HEADER_FIELDS && count == 1 then Some(rest) else None
  }

  /** The public key and the private section of a body with nothing left over. */
  function ReadBody(s: seq<byte>): Option<(seq<byte>, seq<byte>)>
  {
    var s1 :- ReadHeader(s);
    var (tail, rest) :- ReadStrings(s1, 2);
    var pubkey :- ReadPublicBlob(tail[0]);
    if rest == [] then Some((pubkey, tail[1])) else None
  }

  lemma ReadPrefixOf(s: seq<byte>, magic: seq<byte>, fields: seq<seq<byte>>, n: nat, rest: seq<byte>)
    requires Frames(fields).Ok? && n < LIMIT
    requires s == magic + Frames(fields).value + Pack(n).value + rest
    ensures magic <= s
    ensures ReadStrings(s[|magic|..], |fields|) == Some((fields, Pack(n).value + rest))
    ensures ReadU32(Pack(n).value + rest) == Some((n, rest))
  {
    var s1 := Pack(n).value + rest;
    Regroup(magic, Frames(fields).value, Pack(n).value, rest);
    DropPrefix(magic, Frames(fields).value + s1);
    ReadStringsIff(s[|magic|..], fields, s1);
    ReadU32Iff(s1, n, rest);
  }

  lemma PrefixOfRead(s: seq<byte>, magic: seq<byte>, fields: seq<seq<byte>>,
                     s1: seq<byte>, n: nat, rest: seq<byte>)
    requires magic <= s && ReadStrings(s[|magic|..], |fields|) == Some((fields, s1))
    requires ReadU32(s1) == Some((n, rest))
    ensures Frames(fields).Ok? && n < LIMIT
    ensures s == magic + Frames(fields).value + Pack(n).value + rest
  {
    ReadStringsIff(s[|magic|..], fields, s1);
    ReadU32Iff(s1, n, rest);
    TakePrefix(magic, s);
    Regroup(magic, Frames(fields).value, Pack(n).value, rest);
  }

  lemma ReadHeaderIff(s: seq<byte>, rest: seq<byte>)
    ensures ReadHeader(s) == Some(rest) <==> s == Header() + rest
  {
    if s == Header() + rest {
      ReadPrefixOf(s, MAGIC, HEADER_FIELDS, 1, rest);
    }
    if ReadHeader(s) == Some(rest) {
      var (fields, s1) := ReadStrings(s[|MAGIC|..], 3).value;
      PrefixOfRead(s, MAGIC, fields, s1, 1, rest);
    }
  }

  lemma ReadBodyIff(s: seq<byte>, pubkey: seq<byte>, section: seq<byte>)
    ensures ReadBody(s) == Some((pubkey, section)) <==>
            |pubkey| == 32 && Body(pubkey, section) == Ok(s)
  {
    if |pubkey| == 32 && Body(pubkey, section) == Ok(s) {
      var blob := PublicBlob(pubkey).value;
      var tail := Frames([blob, section]).value;
      ReadHeaderIff(s, tail);
      assert tail == tail + [];
      ReadStringsIff(tail, [blob, section], []);
      ReadPublicBlobIff(blob, pubkey);
    }
    if ReadBody(s) == Some((pubkey, section)) {
      var s1 := ReadHeader(s).value;
      var (tail, rest) := ReadStrings(s1, 2).value;
      ReadHeaderIff(s, s1);
      ReadStringsIff(s1, tail, rest);
      ReadPublicBlobIff(tail[0], pubkey);
      assert tail == [tail[0], section];
      assert s1 == Frames(tail).value;
    }
  }

  // The key file -----------------------------------------------------------

  /** The armored container of c; it has no form for another keypair length, nor
      for a comment whose section outgrows its 32-bit length. */
  function PrintKey(c: Contents): Result<string>
  {
    if |c.keypair| != KEYPAIR_LEN then Err(ValueError) else
      var section :- Section(c);
      var body :- Body(c.keypair[32..], section);
      Ok(Armored(body))
  }

  /** The strict reader: armor, base64, framing, both check words, padding, and
      one public key in all three places. */
  function ReadKey(text: string): Option<Contents>
  {
    var body :- Dearmor(text);
    var (pubkey, section) :- ReadBody(body);
    var c :- ReadSection(section);
    if pubkey == c.keypair[32..] then Some(c) else None
  }

  /** End to end: the reader accepts exactly the texts the printer writes for
      four-byte checks, and recovers what was printed. */
  lemma ReadKeyIff(text: string, c: Contents)
    ensures ReadKey(text) == Some(c) <==> |c.check| == 4 && PrintKey(c) == Ok(text)
  {
    if |c.check| == 4 && PrintKey(c) == Ok(text) {
      var section := Section(c).value;
      var body := Body(c.keypair[32..], section).value;
      DearmorIff(text, body);
      ReadBodyIff(body, c.keypair[32..], section);
      ReadSectionIff(section, c);
    }
    if ReadKey(text) == Some(c) {
      var body := Dearmor(text).value;
      var (pubkey, section) := ReadBody(body).value;
      DearmorIff(text, body);
      ReadBodyIff(body, pubkey, section);
      ReadSectionIff(section, c);
    }
  }

  /** The container of a one-byte check is printed, but no reader of containers
      takes it: what stands where the check words belong is not one word twice. */
  lemma ShortCheckIsUnreadable(keypair: seq<byte>)
    requires |keypair| == KEYPAIR_LEN
    ensures var c := Contents([0], keypair, []);
            PrintKey(c).Ok? && ReadKey(PrintKey(c).value) == None
  {
    hide Frames, Armored, Dearmor, Body, ReadBody;
    var c := Contents([0], keypair, []);
    PrintKeyOkIff(c);
    var section := Section(c).value;
    var body := Body(keypair[32..], section).value;
    DearmorIff(Armored(body), body);
    ReadBodyIff(body, keypair[32..], section);
    SectionStarts(c);
  }

  lemma SectionStarts(c: Contents)
    requires |c.keypair| == KEYPAIR_LEN && |c.comment| < LIMIT && |c.check| == 1
    ensures var s := Section(c).value;
            |s| >= 8 && s[1] == c.check[0] && s[5] == 11
  {
    FieldsSize(c.keypair, c.comment);
    FramesOfFour(SSH_KEY_TYPE, c.keypair[32..], c.keypair, c.comment);
    var f := Frames(Fields(c.keypair, c.comment)).value;
    assert f[3] == SshString(SSH_KEY_TYPE).value[3] == 11;
    hide Frames;
    assert Section(c).value[5] == f[3];
  }

  /** Which inputs can be printed at all, and what the others raise. */
  lemma PrintKeyOkIff(c: Contents)
    ensures PrintKey(c).Ok? <==>
            |c.keypair| == KEYPAIR_LEN && 123 + 2 * |c.check| + |c.comment| <= LIMIT - 8
    ensures PrintKey(c).Err? ==>
            PrintKey(c).error == if |c.keypair| != KEYPAIR_LEN then ValueError else StructError
  {
    if |c.keypair| == KEYPAIR_LEN {
      SectionSize(c);
      if Section(c).Ok? {
        var blob := PublicBlob(c.keypair[32..]).value;
        var section := Section(c).value;
        assert Frames([blob, section]).Ok? <==> |section| < LIMIT by {
          assert [blob, section][0] == blob && [blob, section][1] == section;
        }
      }
    }
  }

  /** Two containers that print alike, with checks of one length whatever it is,
      hold the same check, keypair and comment. */
  lemma PrintKeyInjective(a: Contents, b: Contents)
    requires |a.check| == |b.check|
    requires PrintKey(a).Ok? && PrintKey(a) == PrintKey(b)
    ensures a == b
  {
    hide Section, Body, Armored, Dearmor, ReadBody;
    var s, t := Section(a).value, Section(b).value;
    var bodyA, bodyB := Body(a.keypair[32..], s).value, Body(b.keypair[32..], t).value;
    DearmorIff(PrintKey(a).value, bodyA);
    DearmorIff(PrintKey(b).value, bodyB);
    ReadBodyIff(bodyA, a.keypair[32..], s);
    ReadBodyIff(bodyB, b.keypair[32..], t);
    SectionInjective(a, b);
  }

  /** The length of the check is all it takes to read a section back. */
  lemma SectionFields(c: Contents)
    requires |c.keypair| == KEYPAIR_LEN && Section(c).Ok?
    ensures var k, s := |c.check|, Section(c).value;
            && 2 * k <= |s| && s[..k] == c.check
            && var r := ReadStrings(s[2 * k..], 4);
               r.Some? && r.value.0 == Fields(c.keypair, c.comment)
  {
    hide Frames, ReadStrings, Padding, PadLength;
    var framed := Frames(Fields(c.keypair, c.comment)).value;
    var pad := Padding(PadLength(|c.check + c.check + framed|));
    Regroup(c.check, c.check, framed, pad);
    DropPrefix(c.check + c.check, framed + pad);
    ReadStringsIff(framed + pad, Fields(c.keypair, c.comment), pad);
  }

  lemma SectionInjective(a: Contents, b: Contents)
    requires |a.keypair| == KEYPAIR_LEN && |b.keypair| == KEYPAIR_LEN && |a.check| == |b.check|
    requires Section(a).Ok? && Section(a) == Section(b)
    ensures a == b
  {
    hide Section, ReadStrings;
    SectionFields(a);
    SectionFields(b);
    var f, g := Fields(a.keypair, a.comment), Fields(b.keypair, b.comment);
    assert f[2] == g[2] && f[3] == g[3];
  }

  /** In every printed text the outer public key, the public field of the private
      section and the second half of its private field are one and the same. */
  lemma OnePublicKey(text: string, c: Contents)
    requires |c.check| == 4 && PrintKey(c) == Ok(text)
    ensures var body := Dearmor(text);
            && body.Some? && ReadBody(body.value).Some?
            && var (outer, section) := ReadBody(body.value).value;
            && outer == c.keypair[32..]
            && |section| >= 8 && ReadStrings(section[8..], 4).Some?
            && var fields := ReadStrings(section[8..], 4).value.0;
            && fields[1] == outer && fields[2] == c.keypair
  {
    hide PrintKey, ReadStrings, Dearmor, ReadBody;
    ReadKeyIff(text, c);
  }

  // The printer as the tool runs it ----------------------------------------

  /** The private section grows field by field and is then padded; random stands
      for the system's four random bytes, used when no check is given. */
  method OpensshPrivateKey(keypair: seq<byte>, comment: seq<byte>, check: seq<byte>, random: seq<byte>)
    returns (r: Result<string>)
    ensures r == PrintKey(Contents(if check == [] then random else check, keypair, comment))
  {
    if |keypair| != KEYPAIR_LEN {
      return Err(ValueError);
    }
    var pubkey := keypair[32..];
    var word := if check == [] then random else check;
    var kind := SshString(SSH_KEY_TYPE).value;
    var public := SshString(pubkey).value;
    var secret := SshString(keypair).value;
    var note := SshString(comment);
    if note.Err? {
      FieldsSize(keypair, comment);
      return Err(note.error);
    }
    var private := word + word + kind + public + secret + note.value;
    private := private + Padding(PadLength(|private|));
    SectionAppended(Contents(word, keypair, comment));
    var outer := SshString(PublicBlob(pubkey).value).value;
    var inner := SshString(private);
    BodyAppended(pubkey, private);
    if inner.Err? {
      return Err(inner.error);
    }
    var body := MAGIC + SshString(NONE).value + SshString(NONE).value + SshString([]).value
                + Pack(1).value + outer + inner.value;
    r := Ok(Join(Enclose(Wrap(Base64.Encode(body)))));
  }

  lemma SectionAppended(c: Contents)
    requires |c.keypair| == KEYPAIR_LEN && |c.comment| < LIMIT
    ensures var private := c.check + c.check + SshString(SSH_KEY_TYPE).value + SshString(c.keypair[32..]).value
                           + SshString(c.keypair).value + SshString(c.comment).value;
            Section(c) == Ok(private + Padding(PadLength(|private|)))
  {
    var k, p, s, n := SshString(SSH_KEY_TYPE).value, SshString(c.keypair[32..]).value,
                      SshString(c.keypair).value, SshString(c.comment).value;
    FramesOfFour(SSH_KEY_TYPE, c.keypair[32..], c.keypair, c.comment);
    assert c.check + c.check + (k + p + s + n) == c.check + c.check + k + p + s + n;
  }

  lemma BodyAppended(pubkey: seq<byte>, section: seq<byte>)
    requires |pubkey| == 32
    ensures var inner := SshString(section);
            if inner.Err? then Body(pubkey, section) == Err(inner.error) else
            Body(pubkey, section) ==
            Ok(MAGIC + SshString(NONE).value + SshString(NONE).value + SshString([]).value
               + Pack(1).value + SshString(PublicBlob(pubkey).value).value + inner.value)
  {
    var blob := PublicBlob(pubkey).value;
    assert [blob, section][0] == blob && [blob, section][1] == section;
    if |section| < LIMIT {
      HeaderAppended();
      FramesOfTwo(blob, section);
      var h, o, i := Header(), SshString(blob).value, SshString(section).value;
      assert h + (o + i) == h + o + i;
    }
  }

  // The container, byte by byte ----------------------------------------------

  /** Two check words, "ssh-ed25519", the public key, both halves, the comment,
      and 1, 2, .. up to a multiple of eight. */
  function SectionBytes(c: Contents): seq<byte>
    requires |c.keypair| == 64 && |c.comment| < 0x1_0000_0000
  {
    var plain := c.check + c.check
                 + Framed([115, 115, 104, 45, 101, 100, 50, 53, 53, 49, 57])
                 + Framed(c.keypair[32..]) + Framed(c.keypair) + Framed(c.comment);
    plain + [1, 2, 3, 4, 5, 6, 7][..(8 - |plain| % 8) % 8]
  }

  /** "openssh-key-v1" and a zero byte, "none" for the cipher and the key
      derivation, no options, one key, that key's blob, and the section. */
  function BodyBytes(pubkey: seq<byte>, section: seq<byte>): seq<byte>
    requires |pubkey| == 32 && |section| < 0x1_0000_0000
  {
    [111, 112, 101, 110, 115, 115, 104, 45, 107, 101, 121, 45, 118, 49, 0]
    + Framed([110, 111, 110, 101]) + Framed([110, 111, 110, 101]) + Framed([]) + BigEndian(1)
    + Framed(Framed([115, 115, 104, 45, 101, 100, 50, 53, 53, 49, 57]) + Framed(pubkey))
    + Framed(section)
  }

  lemma SectionIsBytes(c: Contents)
    requires |c.keypair| == 64 && |c.comment| < 0x1_0000_0000
    ensures Section(c) == Ok(SectionBytes(c))
  {
    hide Section, Framed, SshString, PadLength, Padding;
    SectionAppended(c);
    KeyTypeBytes();
    SshStringIsFramed(SSH_KEY_TYPE);
    SshStringIsFramed(c.keypair[32..]);
    SshStringIsFramed(c.keypair);
    SshStringIsFramed(c.comment);
    var plain := c.check + c.check + Framed(SSH_KEY_TYPE) + Framed(c.keypair[32..])
                 + Framed(c.keypair) + Framed(c.comment);
    PaddingBytes(|plain|);
  }

  lemma PaddingBytes(n: nat)
    ensures Padding(PadLength(n)) == [1, 2, 3, 4, 5, 6, 7][..(8 - n % 8) % 8]
  {
    PadLengthUnique(n, (8 - n % 8) % 8);
  }

  lemma ConstantBytes()
    ensures MAGIC == [111, 112, 101, 110, 115, 115, 104, 45, 107, 101, 121, 45, 118, 49, 0]
    ensures NONE == [110, 111, 110, 101]
  {
  }

  lemma BodyIsBytes(pubkey: seq<byte>, section: seq<byte>)
    requires |pubkey| == 32 && |section| < 0x1_0000_0000
    ensures Body(pubkey, section) == Ok(BodyBytes(pubkey, section))
  {
    hide Framed, SshString, Pack, BigEndian, Body;
    BodyAppended(pubkey, section);
    ConstantBytes();
    PublicBlobBytes(pubkey);
    SshStringIsFramed(NONE);
    SshStringIsFramed([]);
    SshStringIsFramed(PublicBlob(pubkey).value);
    SshStringIsFramed(section);
    PackIsBigEndian(1);
  }

  /** Which bytes are in a printed text. */
  lemma PrintKeyBytes(text: string, c: Contents)
    ensures PrintKey(c) == Ok(text) <==>
            && |c.keypair| == 64 && |c.comment| < 0x1_0000_0000 && |SectionBytes(c)| < 0x1_0000_0000
            && Dearmor(text) == Some(BodyBytes(c.keypair[32..], SectionBytes(c)))
  {
    hide Framed, SectionBytes, BodyBytes, Section, Body, Armored, Dearmor;
    PrintKeyOkIff(c);
    if |c.keypair| == 64 && |c.comment| < 0x1_0000_0000 {
      SectionIsBytes(c);
      var section := SectionBytes(c);
      BodyAppended(c.keypair[32..], section);
      if |section| < 0x1_0000_0000 {
        BodyIsBytes(c.keypair[32..], section);
        DearmorIff(text, BodyBytes(c.keypair[32..], section));
      }
    }
  }

  lemma FramesOfFour(a: seq<byte>, b: seq<byte>, c: seq<byte>, d: seq<byte>)
    requires |a| < LIMIT && |b| < LIMIT && |c| < LIMIT && |d| < LIMIT
    ensures Frames([a, b, c, d]) ==
            Ok(SshString(a).value + SshString(b).value + SshString(c).value + SshString(d).value)
  {
    FramesOfTwo(c, d);
    FramesOfMore(a, b, [c, d]);
    assert [a, b, c, d] == [a, b] + [c, d];
    Regroup(SshString(a).value, SshString(b).value, SshString(c).value, SshString(d).value);
  }

  lemma FramesOfThree(a: seq<byte>, b: seq<byte>, c: seq<byte>)
    requires |a| < LIMIT && |b| < LIMIT && |c| < LIMIT
    ensures Frames([a, b, c]) == Ok(SshString(a).value + SshString(b).value + SshString(c).value)
  {
    hide SshString;
    FramesOfMore(a, b, [c]);
    assert [a, b, c] == [a, b] + [c];
    assert Frames([]).value == [];
    assert Frames([c]).value == SshString(c).value + [] == SshString(c).value;
  }

  lemma HeaderAppended()
    ensures Header() == MAGIC + SshString(NONE).value + SshString(NONE).value
                        + SshString([]).value + Pack(1).value
  {
    hide SshString, Frames, Pack;
    var n, e := SshString(NONE).value, SshString([]).value;
    FramesOfThree(NONE, NONE, []);
    assert MAGIC + (n + n + e) == MAGIC + n + n + e;
  }
}
