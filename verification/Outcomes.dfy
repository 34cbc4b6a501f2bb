/** What the two commands come to, told from the directory, the input and the
    generated file alone. */
module Outcomes {
  import Base58
  import opened Json
  import opened Keypair
  import opened Names
  import opened OpenSsh
  import opened Positional
  import opened Protocol
  import opened Results

  // What a run stores --------------------------------------------------------

  /** A key file of k: it reads back to that check word and k, and bears the
      address of k for a comment. */
  ghost predicate HoldsKey(text: string, k: seq<byte>, check: seq<byte>)
    requires |k| == 64
  {
    var address := Base58.Encode(k[32..]);
    && ReadKey(text).Some?
    && var c := ReadKey(text).value;
       && c.check == check && c.keypair == k
       && |c.comment| == |address| && forall i :: 0 <= i < |address| ==> c.comment[i] == address[i] as int
  }

  /** The key file of k has come to the directory, and nothing else. */
  ghost predicate KeyStored(before: Files, after: Files, k: seq<byte>, check: seq<byte>)
    requires |k| == 64
  {
    var key := Base58.Encode(k[32..]) + ".key";
    && key !in before && after.Keys == before.Keys + {key} && Extends(after, before)
    && HoldsKey(after[key], k, check)
  }

  /** Both files of k have come to the directory, and nothing else. */
  ghost predicate PairStored(before: Files, after: Files, k: seq<byte>, check: seq<byte>)
    requires |k| == 64
  {
    var txt, key := Base58.Encode(k[32..]) + ".txt", Base58.Encode(k[32..]) + ".key";
    && txt !in before && key !in before && after.Keys == before.Keys + {txt, key} && Extends(after, before)
    && after[txt] == Base58.Encode(k) && ParseKeypair(after[txt]) == Ok(k)
    && HoldsKey(after[key], k, check)
  }

  lemma KeyTextHolds(k: seq<byte>, check: Word)
    requires |k| == KEYPAIR_LEN
    ensures HoldsKey(KeyText(k, check), k, check)
  {
    KeyFileReadsBack(k, check);
  }

  lemma WithKeyStores(files: Files, k: seq<byte>, check: Word)
    requires |k| == KEYPAIR_LEN && KeyName(k) !in files
    ensures KeyStored(files, WithKey(files, k, check), k, check)
  {
    KeyTextHolds(k, check);
    hide KeyText, HoldsKey;
  }

  lemma TranscribedStores(files: Files, k: seq<byte>, check: Word)
    requires |k| == KEYPAIR_LEN && TxtName(k) !in files && KeyName(k) !in files
    ensures PairStored(files, Transcribed(files, Ok(k), check), k, check)
  {
    NamesCollideIff(k, k);
    NamesInFull(k);
    hide TxtName, KeyName, KeyText, HoldsKey, ParseKeypair, Base58.Encode;
    KeyTextHolds(k, check);
    TextParses(k);
    TwoPut(files, TxtName(k), Base58.Encode(k), KeyName(k), KeyText(k, check));
  }

  lemma TextParses(k: seq<byte>)
    requires |k| == KEYPAIR_LEN
    ensures ParseKeypair(Base58.Encode(k)) == Ok(k)
  {
    hide ParseKeypair, Base58.Encode, IsWhite;
    ParseBase58Text(k, "", "");
    assert "" + Base58.Encode(k) + "" == Base58.Encode(k);
  }

  lemma TwoPut(files: Files, a: string, x: string, b: string, y: string)
    requires a !in files && b !in files && a != b
    ensures var f := files[a := x][b := y];
            f.Keys == files.Keys + {a, b} && Extends(f, files) && f[a] == x && f[b] == y
  {
  }

  // Converting ---------------------------------------------------------------

  /** The convert command parses, prepares, and creates one file; the first of
      these that fails is what it raises. */
  lemma ConvertIs(files: Files, e: ConvertEnv)
    ensures var t, f := ConvertOutcome(files, e), ConvertFiles(files, e);
            && (t.Err? ==> f == files && t.error in {ValueError, FileExists, OsError})
            && (t.Ok? ==> e.input.Some? && t == ParseKeypair(e.input.value) && KeyStored(files, f, t.value, e.random))
            && (t == Err(ValueError) <==> e.input.Some? && ParseKeypair(e.input.value).Err?)
            && (t == Err(FileExists) <==>
                 && e.input.Some? && ParseKeypair(e.input.value).Ok?
                 && e.prepare.Prepared? && !e.key.OpenFails?
                 && Base58.Encode(ParseKeypair(e.input.value).value[32..]) + ".key" in files)
  {
    hide ParseKeypair, KeyStored, WithKey;
    var t := ConvertOutcome(files, e);
    if t.Ok? {
      WithKeyStores(files, t.value, e.random);
    }
  }

  // Grinding -----------------------------------------------------------------

  /** The run gets as far as loading the one file that the generator adds. */
  ghost predicate Generates(files: Files, e: GrindEnv, n: string, loaded: Result<seq<byte>>)
  {
    && e.prepare.Prepared? && e.keygen.exitsOk && e.readOk
    && e.keygen.writes.Keys - files.Keys == {n}
    && loaded == LoadBytes(e.keygen.writes[n])
  }

  lemma NewFilesAre(files: Files, k: Keygen)
    ensures NewFiles(files, k).Keys == k.writes.Keys - files.Keys
    ensures |NewFiles(files, k)| == |k.writes.Keys - files.Keys|
    ensures Extends(k.writes, NewFiles(files, k))
  {
    var added := NewFiles(files, k);
    assert added.Keys == k.writes.Keys - files.Keys;
    assert |added.Keys| == |added|;
  }

  /** What comes of a file n that loads so: what fails to load fails the run; the
      name has to be that of the public half, the length that of a keypair, and
      both names free. */
  ghost predicate ComesTo(files: Files, e: GrindEnv, n: string, loaded: Result<seq<byte>>, t: Result<seq<byte>>)
  {
    match loaded
    case Err(_) => t == loaded
    case Ok(k) =>
      var txt, key := Address(k) + ".txt", Address(k) + ".key";
      if n != Address(k) + ".json" then t == Err(RuntimeError)
      else if |k| != 64 then t == Err(ValueError)
      else
        && t in {Ok(k), Err(FileExists), Err(OsError)}
        && (t == Ok(k) <==> e.txt.Written? && e.key.Written? && txt !in files && key !in files)
        && (t == Err(FileExists) <==>
             || (!e.txt.OpenFails? && txt in files)
             || (e.txt.Written? && txt !in files && !e.key.OpenFails? && key in files))
  }

  lemma GeneratedIs(files: Files, e: GrindEnv, n: string, loaded: Result<seq<byte>>)
    requires Generates(files, e, n, loaded)
    ensures ComesTo(files, e, n, loaded, GrindOutcome(files, e))
  {
    hide LoadBytes, Transcription, ComesTo;
    NewFilesAre(files, e.keygen);
    assert Only(NewFiles(files, e.keygen).Keys) == n;
    TranscriptionIs(files, e, n, loaded);
    hide NewFiles, Only;
  }

  lemma TranscriptionIs(files: Files, e: GrindEnv, n: string, loaded: Result<seq<byte>>)
    requires e.readOk && loaded != Err(KeygenFailed)
    ensures ComesTo(files, e, n, loaded, Transcription(files, n, loaded, e))
  {
    if loaded.Ok? {
      NamesInFull(loaded.value);
      hide JsonName, TxtName, KeyName, Address;
    }
  }

  /** A keypair passes the check of its public half exactly when the file is
      named for it. */
  lemma MismatchIff(files: Files, e: GrindEnv, n: string, k: seq<byte>)
    requires Generates(files, e, n, Ok(k)) && |k| == 64
    ensures GrindOutcome(files, e) != Err(RuntimeError) <==>
            n == Stem(n) + ".json" && Base58.Decode(Stem(n)) == Ok(k[32..])
  {
    GeneratedIs(files, e, n, Ok(k));
    NamesInFull(k);
    JsonNameIff(k, n);
    hide Generates, GrindOutcome, Stem, Base58.Decode, Address, JsonName;
  }

  /** A run that does not get there fails early. */
  lemma NotGenerated(files: Files, e: GrindEnv)
    ensures var t := GrindOutcome(files, e);
            && (!e.prepare.Prepared? ==> t == Err(OsError))
            && (t == Err(KeygenFailed) <==> e.prepare.Prepared? && !e.keygen.exitsOk)
            && (e.prepare.Prepared? && e.keygen.exitsOk ==>
                 var count := |e.keygen.writes.Keys - files.Keys|;
                 && (count != 1 ==> t == Err(RuntimeError))
                 && (count == 1 && !e.readOk ==> t == Err(OsError)))
  {
    hide LoadBytes;
    NewFilesAre(files, e.keygen);
    hide NewFiles, Only;
  }

  /** A run that succeeds has stored both files of the keypair that the one
      generated file holds. */
  lemma GrindStores(files: Files, e: GrindEnv)
    requires GrindOutcome(files, e).Ok?
    ensures var t := GrindOutcome(files, e);
            && Generates(files, e, Base58.Encode(t.value[32..]) + ".json", t)
            && PairStored(files, GrindFiles(files, e), t.value, e.random)
  {
    hide LoadBytes, PairStored, Transcribed, TxtName, KeyName, JsonName;
    NewFilesAre(files, e.keygen);
    var t := GrindOutcome(files, e);
    NamesInFull(t.value);
    hide Address;
    TranscribedStores(files, t.value, e.random);
    hide NewFiles;
  }

  /** One that fails has stored nothing, unless the generator itself failed,
      whose files all stay. */
  lemma GrindStoresNothing(files: Files, e: GrindEnv)
    requires GrindOutcome(files, e).Err?
    ensures var t, f := GrindOutcome(files, e), GrindFiles(files, e);
            if t.error == KeygenFailed then
              && f.Keys == files.Keys + e.keygen.writes.Keys && Extends(f, files)
              && forall n :: n in e.keygen.writes && n !in files ==> f[n] == e.keygen.writes[n]
            else f == files
  {
    UnionKeeps(files, e.keygen.writes);
    hide LoadBytes, GrindOutcome;
  }

  lemma UnionKeeps(files: Files, writes: Files)
    ensures var f := files + (writes - files.Keys);
            && f.Keys == files.Keys + writes.Keys && Extends(f, files)
            && forall n :: n in writes && n !in files ==> f[n] == writes[n]
  {
  }

  lemma GrindSummary(files: Files, e: GrindEnv)
    ensures var t, f := GrindOutcome(files, e), GrindFiles(files, e);
            && (t.Err? && t.error != KeygenFailed ==> f == files)
            && (t.Ok? ==>
                 var address := Base58.Encode(t.value[32..]);
                 && Generates(files, e, address + ".json", t) && PairStored(files, f, t.value, e.random)
                 && TxtName(t.value) == address + ".txt" && KeyName(t.value) == address + ".key")
  {
    hide GrindOutcome, GrindFiles, Generates, PairStored, TxtName, KeyName;
    var t := GrindOutcome(files, e);
    if t.Ok? {
      GrindStores(files, e);
      NamesInFull(t.value);
    } else {
      GrindStoresNothing(files, e);
    }
  }
}
