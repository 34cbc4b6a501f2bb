/** One invocation of the tool: a command, then the identity it reports. */
module Tool {
  import Base58
  import opened Keypair
  import opened Names
  import opened OpenSsh
  import opened Outcomes
  import opened OutputDirectory
  import opened Positional
  import opened Protocol
  import opened PublicLine
  import opened Results
  import opened Runs

  /** What a command that succeeds with k has been given and has stored. */
  ghost predicate Stored(before: Files, c: Command, k: seq<byte>, after: Files)
    requires |k| == 64
  {
    match c
    case Grind(e) => Generates(before, e, Base58.Encode(k[32..]) + ".json", Ok(k))
                     && PairStored(before, after, k, e.random)
    case Convert(e) => e.input.Some? && ParseKeypair(e.input.value) == Ok(k)
                       && KeyStored(before, after, k, e.random)
  }

  /** A command that succeeds has stored the keypair it was given, generated or
      parsed, and the address and the SSH line printed after it are those of
      that keypair. */
  method Invoke(dir: OutDir, c: Command) returns (r: Result<Identity>)
    modifies dir
    ensures dir.files == Step(old(dir.files), c)
    ensures forall i :: |old(dir.history)| <= i < |dir.history| ==>
              ClosedToOthers(dir.history[i].mode) && MayLeave(old(dir.files), c, dir.history[i].files)
    ensures r.Err? ==> Outcome(old(dir.files), c) == Err(r.error)
    ensures r.Ok? ==> exists k: seq<byte> ::
              && |k| == 64 && Stored(old(dir.files), c, k, dir.files)
              && r.value.address == Base58.Encode(k[32..])
              && Base58.Decode(r.value.address) == Ok(k[32..])
              && ReadPublicLine(r.value.sshLine) == Some((k[32..], r.value.address))
  {
    hide ReadKey, ReadPublicLine, GrindOutcome, ConvertOutcome, GrindFiles, ConvertFiles, SshPublicLine;
    hide TxtName, KeyName, Address, Stem, Base58.Decode, Base58.Encode, Base58.IsBase58, Stored, ClosedToOthers;
    ghost var t := Outcome(dir.files, c);
    var paths;
    match c {
      case Grind(e) => paths := dir.CmdGrind(e);
      case Convert(e) => paths := dir.CmdConvert(e);
    }
    if paths.Err? {
      return Err(paths.error);
    }
    OutcomeStored(old(dir.files), c);
    NamesInFull(t.value);
    r := Identify(paths.value);
  }

  lemma OutcomeStored(files: Files, c: Command)
    requires Outcome(files, c).Ok?
    ensures Stored(files, c, Outcome(files, c).value, Step(files, c))
  {
    match c
    case Grind(e) => GrindStores(files, e);
    case Convert(e) => ConvertIs(files, e);
  }
}
