/** The names and contents of the files of a keypair, and the identity that is
    printed for them. */
module Names {
  import Base58
  import opened Keypair
  import opened OpenSsh
  import opened Positional
  import opened PublicLine
  import opened Results
  import opened Wire

  /** keypair[32:], which is empty for a short keypair. */
  function PublicHalf(keypair: seq<byte>): seq<byte>
  {
    if |keypair| < 32 then [] else keypair[32..]
  }

  function Address(keypair: seq<byte>): string
  {
    Base58.Encode(PublicHalf(keypair))
  }

  function TxtName(keypair: seq<byte>): string { Address(keypair) + ".txt" }

  function KeyName(keypair: seq<byte>): string { Address(keypair) + ".key" }

  function JsonName(keypair: seq<byte>): string { Address(keypair) + ".json" }

  predicate HasSuffix(name: string, suffix: string)
  {
    |suffix| <= |name| && name[|name| - |suffix|..] == suffix
  }

  /** What the pattern *.json matches among the entries of a directory. */
  predicate IsJson(name: string) { HasSuffix(name, ".json") && '/' !in name }

  predicate IsTxt(name: string) { HasSuffix(name, ".txt") }

  predicate IsKey(name: string) { HasSuffix(name, ".key") }

  lemma LastOfSuffix(name: string, suffix: string)
    requires HasSuffix(name, suffix) && suffix != ""
    ensures name != "" && name[|name| - 1] == suffix[|suffix| - 1]
  {
  }

  /** The three kinds exclude each other. */
  lemma OneKind(name: string)
    ensures IsJson(name) ==> !IsTxt(name) && !IsKey(name)
    ensures IsTxt(name) ==> !IsKey(name)
  {
    if IsJson(name) {
      LastOfSuffix(name, ".json");
    }
    if IsTxt(name) {
      LastOfSuffix(name, ".txt");
    }
    if IsKey(name) {
      LastOfSuffix(name, ".key");
    }
  }

  /** Addresses are ASCII and hold no path separator. */
  lemma AddressIsPlain(keypair: seq<byte>)
    ensures forall i :: 0 <= i < |Address(keypair)| ==> Address(keypair)[i] < 128 as char
    ensures '/' !in Address(keypair)
  {
  }

  lemma KindsOfNames(keypair: seq<byte>)
    ensures IsTxt(TxtName(keypair)) && !IsKey(TxtName(keypair)) && !IsJson(TxtName(keypair))
    ensures IsKey(KeyName(keypair)) && !IsTxt(KeyName(keypair)) && !IsJson(KeyName(keypair))
    ensures IsJson(JsonName(keypair))
  {
    AddressIsPlain(keypair);
    hide Address;
    OneKind(TxtName(keypair));
    OneKind(KeyName(keypair));
  }

  /** Two keypairs meet in a file name exactly when they share the public half. */
  lemma NamesCollideIff(a: seq<byte>, b: seq<byte>)
    requires |a| == KEYPAIR_LEN && |b| == KEYPAIR_LEN
    ensures TxtName(a) == TxtName(b) <==> a[32..] == b[32..]
    ensures KeyName(a) == KeyName(b) <==> a[32..] == b[32..]
    ensures TxtName(a) != KeyName(b)
  {
    if TxtName(a) == TxtName(b) {
      assert Address(a) == TxtName(a)[..|TxtName(a)| - 4] == Address(b);
      Base58.EncodeInjective(a[32..], b[32..]);
    }
    if KeyName(a) == KeyName(b) {
      assert Address(a) == KeyName(a)[..|KeyName(a)| - 4] == Address(b);
      Base58.EncodeInjective(a[32..], b[32..]);
    }
    KindsOfNames(a);
    KindsOfNames(b);
  }

  // The comment of a key file is its address ---------------------------------

  function AddressComment(keypair: seq<byte>): (c: seq<byte>)
    ensures |c| == |Address(keypair)|
    ensures forall i :: 0 <= i < |c| ==> c[i] == Address(keypair)[i] as int
  {
    AddressIsPlain(keypair);
    Ascii(Address(keypair))
  }

  function KeyContents(keypair: seq<byte>, check: seq<byte>): Contents
  {
    Contents(check, keypair, AddressComment(keypair))
  }

  /** With a four-byte check the key file of a keypair can always be printed,
      and reads back as that keypair. */
  lemma KeyFileReadsBack(keypair: seq<byte>, check: seq<byte>)
    requires |keypair| == KEYPAIR_LEN && |check| == 4
    ensures var c := KeyContents(keypair, check);
            && PrintKey(c).Ok? && ReadKey(PrintKey(c).value) == Some(c)
            && |c.comment| == |Address(keypair)|
            && forall i :: 0 <= i < |c.comment| ==> c.comment[i] == Address(keypair)[i] as int
  {
    var c := KeyContents(keypair, check);
    Base58.LengthBound(keypair[32..]);
    PrintKeyOkIff(c);
    ReadKeyIff(PrintKey(c).value, c);
  }

  // The printed identity -----------------------------------------------------

  /** Position of the last dot, or -1. */
  function LastDot(name: string): (i: int)
    ensures -1 <= i < |name|
  {
    if name == "" then -1
    else if name[|name| - 1] == '.' then |name| - 1
    else LastDot(name[..|name| - 1])
  }

  /** pathlib's stem: the name without its last suffix. */
  function Stem(name: string): string
  {
    var i := LastDot(name);
    if 0 < i < |name| - 1 then name[..i] else name
  }

  lemma {:induction false} LastDotOf(base: string, suffix: string)
    requires '.' !in suffix
    ensures LastDot(base + "." + suffix) == |base|
  {
    var name := base + "." + suffix;
    if suffix != "" {
      LastDotOf(base, suffix[..|suffix| - 1]);
      assert name[..|name| - 1] == base + "." + suffix[..|suffix| - 1];
      assert name[|name| - 1] == suffix[|suffix| - 1];
    }
  }

  lemma StemOfName(base: string, suffix: string)
    requires base != "" && suffix != "" && '.' !in suffix
    ensures Stem(base + "." + suffix) == base
  {
    LastDotOf(base, suffix);
  }

  lemma DotSuffix(s: string)
    ensures s + "." + "txt" == s + ".txt" && s + "." + "key" == s + ".key" && s + "." + "json" == s + ".json"
  {
  }

  /** All three files of a keypair have its address as their stem. */
  lemma StemIsAddress(keypair: seq<byte>)
    requires |keypair| == KEYPAIR_LEN
    ensures Stem(TxtName(keypair)) == Stem(KeyName(keypair)) == Stem(JsonName(keypair))
            == Base58.Encode(keypair[32..])
  {
    Base58.LengthBound(keypair[32..]);
    NamesInFull(keypair);
    var address := Base58.Encode(keypair[32..]);
    hide Stem, Base58.Encode;
    StemOfName(address, "txt");
    StemOfName(address, "key");
    StemOfName(address, "json");
    DotSuffix(address);
  }

  lemma NamesInFull(keypair: seq<byte>)
    ensures Address(keypair) == Base58.Encode(if |keypair| < 32 then [] else keypair[32..])
    ensures TxtName(keypair) == Address(keypair) + ".txt"
    ensures KeyName(keypair) == Address(keypair) + ".key"
    ensures JsonName(keypair) == Address(keypair) + ".json"
  {
  }

  /** A file is named for a keypair exactly when it is a JSON file whose stem is
      base58 of the public half. */
  lemma JsonNameIff(keypair: seq<byte>, name: string)
    requires |keypair| == 64
    ensures name == JsonName(keypair) <==>
            name == Stem(name) + ".json" && Base58.Decode(Stem(name)) == Ok(keypair[32..])
  {
    StemIsAddress(keypair);
    NamesInFull(keypair);
    hide Stem, JsonName;
    Base58.EncodeDecode(Stem(name), keypair[32..]);
  }

  datatype Identity = Identity(address: string, sshLine: string)

  /** The public key and the SSH line printed for the first path written. */
  method Identify(paths: seq<string>) returns (r: Result<Identity>)
    requires paths != []
    ensures r.Ok? <==> Base58.IsBase58(Stem(paths[0])) && |Base58.Decode(Stem(paths[0])).value| < LIMIT
    ensures r.Ok? ==>
            && r.value.address == Stem(paths[0])
            && SshPublicLine(Base58.Decode(Stem(paths[0])).value, r.value.address) == Ok(r.value.sshLine)
    ensures forall keypair | |keypair| == KEYPAIR_LEN
                             && (paths[0] == TxtName(keypair) || paths[0] == KeyName(keypair)) ::
              && r.Ok?
              && r.value.address == Address(keypair)
              && Base58.Decode(r.value.address) == Ok(keypair[32..])
              && ReadPublicLine(r.value.sshLine) == Some((keypair[32..], Address(keypair)))
  {
    var address := Stem(paths[0]);
    var pubkey := Base58.B58Decode(address);
    forall keypair | |keypair| == KEYPAIR_LEN
                     && (paths[0] == TxtName(keypair) || paths[0] == KeyName(keypair))
      ensures pubkey == Ok(keypair[32..]) && address == Address(keypair)
    {
      StemIsAddress(keypair);
      Base58.DecodeEncode(keypair[32..]);
    }
    if pubkey.Err? {
      return Err(pubkey.error);
    }
    var line := SshPublicLine(pubkey.value, address);
    if line.Err? {
      return Err(line.error);
    }
    ReadPublicLineIff(line.value, pubkey.value, address);
    r := Ok(Identity(address, line.value));
  }
}
