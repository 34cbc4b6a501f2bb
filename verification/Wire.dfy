/** Length-prefixed framing: the string type of RFC 4251, section 5, and the
    Ed25519 public key of RFC 8709, section 4. */
module Wire {
  import opened Positional
  import opened Results
  import opened Sequences

  const LIMIT: nat := 0x1_0000_0000

  function Ascii(s: string): (d: seq<byte>)
    requires forall i :: 0 <= i < |s| ==> s[i] < 128 as char
    ensures |d| == |s|
  {
    seq(|s|, i requires 0 <= i < |s| => s[i] as int)
  }

  const KEY_TYPE_TEXT: string := "ssh-ed25519"
  const SSH_KEY_TYPE: seq<byte> := Ascii(KEY_TYPE_TEXT)

  // Writing ----------------------------------------------------------------

  lemma LimitIsFourBytes()
    ensures Pow(256, 4) == LIMIT
  {
  }

  /** struct.pack(">I", n). */
  function Pack(n: nat): (r: Result<seq<byte>>)
    ensures r.Ok? <==> n < LIMIT
    ensures r.Ok? ==> |r.value| == 4
    ensures r.Err? ==> r.error == StructError
  {
    LimitIsFourBytes();
    if n < LIMIT then Ok(Fixed(n, 4, 256)) else Err(StructError)
  }

  /** Four bytes, the most significant first. */
  function BigEndian(n: nat): seq<byte>
    requires n < 0x1_0000_0000
  {
    [n / 0x100_0000, n / 0x1_0000 % 0x100, n / 0x100 % 0x100, n % 0x100]
  }

  lemma PackIsBigEndian(n: nat)
    ensures Pack(n).Ok? <==> n < 0x1_0000_0000
    ensures Pack(n).Ok? ==> Pack(n).value == BigEndian(n)
  {
    hide Fixed, Pow;
    if n < LIMIT {
      FixedOfFour(n);
      FourBytes(n);
    }
  }

  lemma FourBytes(n: nat)
    requires n < 0x1_0000_0000
    ensures n / 256 / 256 / 256 % 256 == n / 0x100_0000
    ensures n / 256 / 256 % 256 == n / 0x1_0000 % 0x100
  {
  }

  lemma FixedOfFour(n: nat)
    ensures Fixed(n, 4, 256) == [n / 256 / 256 / 256 % 256, n / 256 / 256 % 256, n / 256 % 256, n % 256]
  {
    assert Fixed(n / 256 / 256, 2, 256) == [n / 256 / 256 / 256 % 256, n / 256 / 256 % 256];
  }

  function SshString(data: seq<byte>): (r: Result<seq<byte>>)
    ensures r.Ok? <==> |data| < LIMIT
    ensures r.Ok? ==> |r.value| == 4 + |data|
    ensures r.Err? ==> r.error == StructError
  {
    var len :- Pack(|data|);
    Ok(len + data)
  }

  /** A four-byte length, and the data. */
  function Framed(data: seq<byte>): seq<byte>
    requires |data| < 0x1_0000_0000
  {
    BigEndian(|data|) + data
  }

  lemma SshStringIsFramed(data: seq<byte>)
    requires |data| < 0x1_0000_0000
    ensures SshString(data) == Ok(Framed(data))
  {
    PackIsBigEndian(|data|);
  }

  /** Any number of fields, one after the other. */
  function Frames(fields: seq<seq<byte>>): (r: Result<seq<byte>>)
    ensures r.Ok? <==> forall i :: 0 <= i < |fields| ==> |fields[i]| < LIMIT
    ensures r.Err? ==> r.error == StructError
  {
    if fields == [] then Ok([]) else
      var first :- SshString(fields[0]);
      var rest :- Frames(fields[1..]);
      Ok(first + rest)
  }

  // Reading ----------------------------------------------------------------

  function ReadU32(s: seq<byte>): Option<(nat, seq<byte>)>
  {
    if |s| < 4 then None else Some((Value(s[..4], 256), s[4..]))
  }

  function ReadString(s: seq<byte>): Option<(seq<byte>, seq<byte>)>
  {
    var (n, rest) :- ReadU32(s);
    if |rest| < n then None else Some((rest[..n], rest[n..]))
  }

  function ReadStrings(s: seq<byte>, count: nat): (r: Option<(seq<seq<byte>>, seq<byte>)>)
    ensures r.Some? ==> |r.value.0| == count
  {
    if count == 0 then Some(([], s)) else
      var (first, s1) :- ReadString(s);
      var (fields, rest) :- ReadStrings(s1, count - 1);
      Some(([first] + fields, rest))
  }

  // Reading is exactly the inverse of writing ------------------------------

  lemma ReadU32Iff(s: seq<byte>, n: nat, rest: seq<byte>)
    ensures ReadU32(s) == Some((n, rest)) <==> Pack(n).Ok? && s == Pack(n).value + rest
  {
    LimitIsFourBytes();
    if n < LIMIT {
      ValueOfFixed(n, 4, 256);
      var p := Pack(n).value;
      assert (p + rest)[..4] == p && (p + rest)[4..] == rest;
    }
    if |s| >= 4 {
      FixedOfValue(s[..4], 256);
      assert s == s[..4] + s[4..];
    }
  }

  lemma ReadStringIff(s: seq<byte>, data: seq<byte>, rest: seq<byte>)
    ensures ReadString(s) == Some((data, rest)) <==>
            SshString(data).Ok? && s == SshString(data).value + rest
  {
    hide Fixed, Value, Pow;
    if SshString(data).Ok? && s == SshString(data).value + rest {
      assert s == Pack(|data|).value + (data + rest);
      ReadU32Iff(s, |data|, data + rest);
    }
    if ReadString(s) == Some((data, rest)) {
      var whole := ReadU32(s).value.1;
      assert whole == whole[..|data|] + whole[|data|..] == data + rest;
      ReadU32Iff(s, |data|, data + rest);
    }
  }

  lemma {:induction false} ReadFrames(fields: seq<seq<byte>>, rest: seq<byte>)
    requires Frames(fields).Ok?
    ensures ReadStrings(Frames(fields).value + rest, |fields|) == Some((fields, rest))
  {
    if fields == [] {
      assert [] + rest == rest;
    } else {
      var tail := fields[1..];
      var first, more := SshString(fields[0]).value, Frames(tail).value;
      Assoc(first, more, rest);
      ReadStringIff(first + (more + rest), fields[0], more + rest);
      ReadFrames(tail, rest);
      assert fields == [fields[0]] + tail;
    }
  }

  lemma {:induction false} FramesOfRead(s: seq<byte>, fields: seq<seq<byte>>, rest: seq<byte>)
    requires ReadStrings(s, |fields|) == Some((fields, rest))
    ensures Frames(fields).Ok? && s == Frames(fields).value + rest
  {
    if fields == [] {
      assert [] + rest == rest;
    } else {
      var (first, s1) := ReadString(s).value;
      var tail := ReadStrings(s1, |fields| - 1).value.0;
      assert fields == [first] + tail && fields[1..] == tail;
      ReadStringIff(s, first, s1);
      FramesOfRead(s1, tail, rest);
      var f, more := SshString(first).value, Frames(tail).value;
      Assoc(f, more, rest);
    }
  }

  /** A byte string reads as a list of fields and a rest exactly when it is the
      frames of those fields followed by that rest: for a known number of
      fields the bytes determine every field. */
  lemma ReadStringsIff(s: seq<byte>, fields: seq<seq<byte>>, rest: seq<byte>)
    ensures ReadStrings(s, |fields|) == Some((fields, rest)) <==>
            Frames(fields).Ok? && s == Frames(fields).value + rest
  {
    if Frames(fields).Ok? {
      ReadFrames(fields, rest);
    }
    if ReadStrings(s, |fields|) == Some((fields, rest)) {
      FramesOfRead(s, fields, rest);
    }
  }

  lemma FramesOfTwo(a: seq<byte>, b: seq<byte>)
    requires |a| < LIMIT && |b| < LIMIT
    ensures Frames([a, b]).Ok?
    ensures Frames([a, b]).value == SshString(a).value + SshString(b).value
  {
    FramesOfMore(a, b, []);
    assert [a, b] + [] == [a, b];
    assert Frames([]).value == [];
  }

  lemma FramesOfMore(a: seq<byte>, b: seq<byte>, more: seq<seq<byte>>)
    requires |a| < LIMIT && |b| < LIMIT && Frames(more).Ok?
    ensures var all := Frames([a, b] + more);
            all.Ok? && all.value == SshString(a).value + SshString(b).value + Frames(more).value
  {
  }

  // The public key ---------------------------------------------------------

  function PublicBlob(pubkey: seq<byte>): (r: Result<seq<byte>>)
    ensures r.Ok? <==> |pubkey| < LIMIT
    ensures r.Ok? ==> |r.value| == 19 + |pubkey|
  {
    var kind := SshString(SSH_KEY_TYPE).value;
    var key :- SshString(pubkey);
    Ok(kind + key)
  }

  /** The blob is the key type "ssh-ed25519" and the key. */
  lemma PublicBlobBytes(pubkey: seq<byte>)
    requires |pubkey| < 0x1_0000_0000
    ensures PublicBlob(pubkey) ==
            Ok(Framed([115, 115, 104, 45, 101, 100, 50, 53, 53, 49, 57]) + Framed(pubkey))
  {
    hide SshString, Framed;
    KeyTypeBytes();
    SshStringIsFramed(SSH_KEY_TYPE);
    SshStringIsFramed(pubkey);
  }

  lemma KeyTypeBytes()
    ensures SSH_KEY_TYPE == [115, 115, 104, 45, 101, 100, 50, 53, 53, 49, 57]
  {
  }

  function ReadPublicBlob(s: seq<byte>): Option<seq<byte>>
  {
    var (fields, rest) :- ReadStrings(s, 2);
    if fields[0] == SSH_KEY_TYPE && |fields[1]| == 32 && rest == [] then Some(fields[1]) else None
  }

  lemma ReadPublicBlobIff(s: seq<byte>, pubkey: seq<byte>)
    ensures ReadPublicBlob(s) == Some(pubkey) <==> |pubkey| == 32 && PublicBlob(pubkey) == Ok(s)
  {
    var fields := [SSH_KEY_TYPE, pubkey];
    ReadStringsIff(s, fields, []);
    if PublicBlob(pubkey).Ok? {
      FramesOfTwo(SSH_KEY_TYPE, pubkey);
      assert PublicBlob(pubkey).value == Frames(fields).value + [];
    }
    if ReadPublicBlob(s) == Some(pubkey) {
      assert ReadStrings(s, 2).value.0 == fields;
    }
  }
}
