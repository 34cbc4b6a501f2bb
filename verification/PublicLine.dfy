/** The authorized_keys line of a public key. */
module PublicLine {
  import Base64
  import opened Positional
  import opened Results
  import opened Sequences
  import opened Wire

  function SshPublicLine(pubkey: seq<byte>, comment: string): Result<string>
  {
    var blob :- PublicBlob(pubkey);
    Ok(KEY_TYPE_TEXT + " " + (Base64.Encode(blob) + " " + comment))
  }

  /** Which characters are in a line. */
  lemma SshPublicLineText(pubkey: seq<byte>, comment: string)
    requires |pubkey| < 0x1_0000_0000
    ensures SshPublicLine(pubkey, comment) ==
            Ok("ssh-ed25519 "
               + Base64.Encode(Framed([115, 115, 104, 45, 101, 100, 50, 53, 53, 49, 57]) + Framed(pubkey))
               + " " + comment)
  {
    hide Framed, Base64.Encode;
    PublicBlobBytes(pubkey);
    var b64 := Base64.Encode(PublicBlob(pubkey).value);
    assert KEY_TYPE_TEXT + " " == "ssh-ed25519 ";
    Regroup("ssh-ed25519 ", b64, " ", comment);
    Assoc(b64, " ", comment);
  }

  /** What precedes and what follows the first space. */
  function Cut(s: string): Option<(string, string)>
  {
    if s == "" then None
    else if s[0] == ' ' then Some(("", s[1..]))
    else
      var (a, b) :- Cut(s[1..]);
      Some(([s[0]] + a, b))
  }

  lemma {:induction false} CutIff(s: string, a: string, b: string)
    ensures Cut(s) == Some((a, b)) <==> ' ' !in a && s == a + " " + b
  {
    if s != "" && s[0] != ' ' {
      if a != "" {
        CutIff(s[1..], a[1..], b);
        assert a == [a[0]] + a[1..];
        if s == a + " " + b {
          assert s[1..] == a[1..] + " " + b;
        }
        if Cut(s) == Some((a, b)) {
          var (x, y) := Cut(s[1..]).value;
          assert a[1..] == x;
          assert s == [s[0]] + s[1..];
        }
      }
    } else if s != "" && a == "" {
      assert s == [s[0]] + s[1..];
    }
  }

  /** The key and the comment of a line of three fields. */
  function ReadPublicLine(line: string): Option<(seq<byte>, string)>
  {
    var (kind, rest) :- Cut(line);
    var (b64, comment) :- Cut(rest);
    var blob :- Base64.Decode(b64);
    var pubkey :- ReadPublicBlob(blob);
    if kind == KEY_TYPE_TEXT then Some((pubkey, comment)) else None
  }

  lemma KindHasNoSpace()
    ensures ' ' !in KEY_TYPE_TEXT
  {
  }

  /** A line reads as a key and a comment exactly when it is their line. */
  lemma ReadPublicLineIff(line: string, pubkey: seq<byte>, comment: string)
    ensures ReadPublicLine(line) == Some((pubkey, comment)) <==>
            |pubkey| == 32 && SshPublicLine(pubkey, comment) == Ok(line)
  {
    if |pubkey| == 32 && SshPublicLine(pubkey, comment) == Ok(line) {
      var blob := PublicBlob(pubkey).value;
      var b64 := Base64.Encode(blob);
      KindHasNoSpace();
      CutIff(line, KEY_TYPE_TEXT, b64 + " " + comment);
      if ' ' in b64 {
        Base64.EncodeIsPlain(blob, ' ');
        assert false;
      }
      CutIff(b64 + " " + comment, b64, comment);
      Base64.DecodeIff(b64, blob);
      ReadPublicBlobIff(blob, pubkey);
    }
    if ReadPublicLine(line) == Some((pubkey, comment)) {
      var (kind, rest) := Cut(line).value;
      var (b64, c) := Cut(rest).value;
      var blob := Base64.Decode(b64).value;
      CutIff(line, kind, rest);
      CutIff(rest, b64, c);
      Base64.DecodeIff(b64, blob);
      ReadPublicBlobIff(blob, pubkey);
    }
  }
}
