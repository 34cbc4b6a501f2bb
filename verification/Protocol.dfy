/** What the outside world may do to a run, and what a run then leaves behind. */
module Protocol {
  import Base58
  import opened Json
  import opened Keypair
  import opened Names
  import opened OpenSsh
  import opened Positional
  import opened Results

  /** The files of the output directory: names to contents. */
  type Files = map<string, string>

  /** Everything in small is in big, unchanged. */
  ghost predicate Extends(big: Files, small: Files)
  {
    forall n :: n in small ==> n in big && big[n] == small[n]
  }

  // The environment --------------------------------------------------------

  datatype Prepare = Prepared | MkdirFails | ChmodFails

  /** Creating and writing one file: it can fail to open, or after some part of
      the contents. */
  datatype Write = Written | OpenFails | WriteFails(partial: string)

  /** Four random bytes. */
  type Word = w: seq<byte> | |w| == 4 witness [0, 0, 0, 0]

  type JsonFiles = m: Files | forall n :: n in m ==> IsJson(n) witness map[]

  /** The key generator writes JSON files, never over existing ones, and exits. */
  datatype Keygen = Keygen(writes: JsonFiles, exitsOk: bool)

  datatype GrindEnv =
    GrindEnv(prepare: Prepare, keygen: Keygen, readOk: bool, txt: Write, key: Write, random: Word)

  /** The input is absent when it cannot be read. */
  datatype ConvertEnv =
    ConvertEnv(input: Option<string>, prepare: Prepare, key: Write, random: Word)

  // Outcomes ---------------------------------------------------------------

  function CreateResult(files: Files, path: string, w: Write): Result<string>
  {
    if w.OpenFails? then Err(OsError)
    else if path in files then Err(FileExists)
    else if w.WriteFails? then Err(OsError)
    else Ok(path)
  }

  function KeyText(keypair: seq<byte>, check: Word): string
    requires |keypair| == KEYPAIR_LEN
  {
    KeyFileReadsBack(keypair, check);
    PrintKey(KeyContents(keypair, check)).value
  }

  function WithTxt(files: Files, keypair: seq<byte>): Files
  {
    files[TxtName(keypair) := Base58.Encode(keypair)]
  }

  function WithKey(files: Files, keypair: seq<byte>, check: Word): Files
    requires |keypair| == KEYPAIR_LEN
  {
    files[KeyName(keypair) := KeyText(keypair, check)]
  }

  /** What the generator really adds. */
  function NewFiles(files: Files, k: Keygen): Files
  {
    k.writes - files.Keys
  }

  /** Creating both files of a keypair. */
  function PairResult(files: Files, keypair: seq<byte>, e: GrindEnv): (r: Result<seq<byte>>)
    ensures r.Ok? ==> r.value == keypair && |keypair| == KEYPAIR_LEN
    ensures r.Ok? ==> TxtName(keypair) !in files && KeyName(keypair) !in files
    ensures r != Err(KeygenFailed)
  {
    if |keypair| != KEYPAIR_LEN then Err(ValueError) else
      var _ :- CreateResult(files, TxtName(keypair), e.txt);
      var _ :- CreateResult(files, KeyName(keypair), e.key);
      Ok(keypair)
  }

  /** The keypair that comes of the generated file name, given what loading it
      gave, or the first thing that goes wrong. */
  function Transcription(files: Files, name: string, loaded: Result<seq<byte>>, e: GrindEnv)
    : (r: Result<seq<byte>>)
    requires loaded != Err(KeygenFailed)
    ensures r.Ok? ==> r == loaded && |r.value| == KEYPAIR_LEN && JsonName(r.value) == name
    ensures r.Ok? ==> TxtName(r.value) !in files && KeyName(r.value) !in files
    ensures r != Err(KeygenFailed)
  {
    if !e.readOk then Err(OsError) else
      var keypair :- loaded;
      if JsonName(keypair) != name then Err(RuntimeError)
      else PairResult(files, keypair, e)
  }

  function Transcribed(files: Files, t: Result<seq<byte>>, check: Word): Files
    requires t.Ok? ==> |t.value| == KEYPAIR_LEN
  {
    match t
    case Ok(keypair) => WithKey(WithTxt(files, keypair), keypair, check)
    case Err(_) => files
  }

  /** The only name in a set of one. */
  ghost function Only(names: set<string>): (n: string)
    requires |names| == 1
    ensures names == {n}
  {
    var n :| n in names;
    assert |names - {n}| == 0;
    n
  }

  // States in between ------------------------------------------------------

  /** Of the files f, those of base are as they were, and any other is one of
      added, unchanged, or bears one of names. */
  ghost predicate Within(f: Files, base: Files, added: Files, names: set<string>)
  {
    && Extends(f, base)
    && forall n :: n in f && n !in base ==> n in names || (n in added && f[n] == added[n])
  }

  /** The names that a run writes under once it has loaded its keypair. */
  function PairNames(loaded: Result<seq<byte>>): set<string>
  {
    match loaded
    case Ok(keypair) => if |keypair| == KEYPAIR_LEN then {TxtName(keypair), KeyName(keypair)} else {}
    case Err(_) => {}
  }

  ghost function GrindNames(files: Files, e: GrindEnv): set<string>
  {
    var added := NewFiles(files, e.keygen);
    if |added| == 1 then PairNames(LoadBytes(added[Only(added.Keys)])) else {}
  }

  function ConvertNames(e: ConvertEnv): set<string>
  {
    if e.input.None? then {} else
      match ParseKeypair(e.input.value)
      case Ok(keypair) => {KeyName(keypair)}
      case Err(_) => {}
  }

  // Whole runs -------------------------------------------------------------

  ghost function GrindOutcome(files: Files, e: GrindEnv): (r: Result<seq<byte>>)
    ensures r.Ok? ==> |r.value| == KEYPAIR_LEN
  {
    var added := NewFiles(files, e.keygen);
    if !e.prepare.Prepared? then Err(OsError)
    else if !e.keygen.exitsOk then Err(KeygenFailed)
    else if |added| != 1 then Err(RuntimeError)
    else Transcription(files, Only(added.Keys), LoadBytes(added[Only(added.Keys)]), e)
  }

  /** All or nothing, but for a generator that fails after writing. */
  ghost function GrindFiles(files: Files, e: GrindEnv): Files
  {
    var t := GrindOutcome(files, e);
    if t == Err(KeygenFailed) then files + NewFiles(files, e.keygen)
    else Transcribed(files, t, e.random)
  }

  function ConvertOutcome(files: Files, e: ConvertEnv): (r: Result<seq<byte>>)
    ensures r.Ok? ==> |r.value| == KEYPAIR_LEN
  {
    if e.input.None? then Err(OsError) else
      var keypair :- ParseKeypair(e.input.value);
      if !e.prepare.Prepared? then Err(OsError) else
        var _ :- CreateResult(files, KeyName(keypair), e.key);
        Ok(keypair)
  }

  function ConvertFiles(files: Files, e: ConvertEnv): Files
  {
    match ConvertOutcome(files, e)
    case Ok(keypair) => WithKey(files, keypair, e.random)
    case Err(_) => files
  }
}
