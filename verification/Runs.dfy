/** Any sequence of grind and convert runs on one output directory, with any
    failures along the way. */
module Runs {
  import Base58
  import opened Json
  import opened Keypair
  import opened Names
  import opened OpenSsh
  import opened Outcomes
  import opened Positional
  import opened Protocol
  import opened Results

  datatype Command = Grind(grind: GrindEnv) | Convert(convert: ConvertEnv)

  /** The keypair a run writes out, or why it fails. */
  ghost function Outcome(files: Files, c: Command): (r: Result<seq<byte>>)
    ensures r.Ok? ==> |r.value| == KEYPAIR_LEN
  {
    match c
    case Grind(e) => GrindOutcome(files, e)
    case Convert(e) => ConvertOutcome(files, e)
  }

  ghost function Step(files: Files, c: Command): Files
  {
    match c
    case Grind(e) => GrindFiles(files, e)
    case Convert(e) => ConvertFiles(files, e)
  }

  ghost function Exec(files: Files, cs: seq<Command>): Files
  {
    if cs == [] then files else Step(Exec(files, cs[..|cs| - 1]), cs[|cs| - 1])
  }

  // When a run succeeds --------------------------------------------------------

  /** A grind run succeeds with a keypair exactly when every step does, the one
      new file is named for its public half, and neither key file exists yet. */
  lemma GrindSucceedsIff(files: Files, e: GrindEnv, keypair: seq<byte>)
    ensures GrindOutcome(files, e) == Ok(keypair) <==>
            && |keypair| == 64
            && var address := Base58.Encode(keypair[32..]);
               && e == GrindEnv(Prepared, e.keygen, true, Written, Written, e.random) && e.keygen.exitsOk
               && e.keygen.writes.Keys - files.Keys == {address + ".json"}
               && LoadBytes(e.keygen.writes[address + ".json"]) == Ok(keypair)
               && address + ".txt" !in files && address + ".key" !in files
  {
    hide GrindOutcome, GrindFiles, PairStored, LoadBytes, Address, Base58.Encode;
    NamesInFull(keypair);
    if GrindOutcome(files, e) == Ok(keypair) {
      GrindStores(files, e);
    }
    if |keypair| == 64 && Generates(files, e, Address(keypair) + ".json", Ok(keypair)) {
      GeneratedIs(files, e, Address(keypair) + ".json", Ok(keypair));
    }
  }

  /** A grind run that fails restores the directory exactly, unless the
      generator itself failed after writing something new. */
  lemma GrindRestoresIff(files: Files, e: GrindEnv)
    requires GrindOutcome(files, e).Err?
    ensures GrindFiles(files, e) == files <==>
            !e.prepare.Prepared? || e.keygen.exitsOk || NewFiles(files, e.keygen) == map[]
  {
    hide GrindOutcome;
    NotGenerated(files, e);
    hide Transcribed, LoadBytes;
    GrindStoresNothing(files, e);
  }

  /** The promise that a failing run leaves nothing behind does fail: whatever
      the generator wrote before it failed stays. */
  lemma FailedKeygenLeaves(text: string, e: GrindEnv)
    requires e.prepare.Prepared? && e.keygen == Keygen(map["a.json" := text], false)
    ensures GrindOutcome(map[], e) == Err(KeygenFailed)
    ensures GrindFiles(map[], e) == map["a.json" := text]
  {
    hide LoadBytes, Transcription, Transcribed;
  }

  // What one run does --------------------------------------------------------

  /** The files a run adds: those of its keypair, and after a failing exit of
      the generator whatever that wrote. */
  ghost function Added(files: Files, c: Command): Files
  {
    var t := Outcome(files, c);
    match c
    case Grind(e) =>
      if t == Err(KeygenFailed) then NewFiles(files, e.keygen) else Transcribed(map[], t, e.random)
    case Convert(e) =>
      if t.Ok? then WithKey(map[], t.value, e.random) else map[]
  }

  lemma TranscribedAdds(files: Files, t: Result<seq<byte>>, check: Word)
    requires t.Ok? ==> |t.value| == KEYPAIR_LEN && TxtName(t.value) !in files && KeyName(t.value) !in files
    ensures Transcribed(map[], t, check).Keys !! files.Keys
    ensures Transcribed(files, t, check) == files + Transcribed(map[], t, check)
  {
    hide TxtName, KeyName, KeyText, Base58.Encode;
    if t.Ok? {
      PutTwo(files, TxtName(t.value), Base58.Encode(t.value), KeyName(t.value), KeyText(t.value, check));
    }
  }

  lemma PutTwo(files: Files, a: string, x: string, b: string, y: string)
    requires a !in files && b !in files
    ensures files[a := x][b := y] == files + map[][a := x][b := y]
    ensures map[][a := x][b := y].Keys == {a, b}
  {
  }

  lemma GrindAdds(files: Files, e: GrindEnv)
    ensures var added := Added(files, Grind(e));
            added.Keys !! files.Keys && GrindFiles(files, e) == files + added
  {
    hide TxtName, KeyName, GrindOutcome, Transcribed;
    var t := GrindOutcome(files, e);
    if t.Ok? {
      OutcomeIsNew(files, Grind(e));
    }
    if t != Err(KeygenFailed) {
      TranscribedAdds(files, t, e.random);
    }
  }

  lemma ConvertAdds(files: Files, e: ConvertEnv)
    ensures var added := Added(files, Convert(e));
            added.Keys !! files.Keys && ConvertFiles(files, e) == files + added
  {
  }

  /** Every name a run adds is new: a run changes and removes nothing. */
  lemma StepAdds(files: Files, c: Command)
    ensures Added(files, c).Keys !! files.Keys
    ensures Step(files, c) == files + Added(files, c)
    ensures Extends(Step(files, c), files)
  {
    match c
    case Grind(e) => GrindAdds(files, e); hide GrindFiles, Added;
    case Convert(e) => ConvertAdds(files, e); hide ConvertFiles, Added;
  }

  /** What a run adds, name by name. */
  lemma AddedFile(files: Files, c: Command, n: string)
    requires n in Added(files, c)
    ensures var t := Outcome(files, c);
            var text := Added(files, c)[n];
            if t.Ok? then
              var check := if c.Grind? then c.grind.random else c.convert.random;
              || (n == TxtName(t.value) && text == Base58.Encode(t.value) && c.Grind?)
              || (n == KeyName(t.value) && text == KeyText(t.value, check))
            else
              c.Grind? && !c.grind.keygen.exitsOk && n in c.grind.keygen.writes && IsJson(n)
  {
    hide TxtName, KeyName, KeyText, Transcription, LoadBytes, ParseKeypair, IsJson;
  }

  lemma OutcomeIsNew(files: Files, c: Command)
    requires Outcome(files, c).Ok?
    ensures var keypair := Outcome(files, c).value;
            KeyName(keypair) !in files && (c.Grind? ==> TxtName(keypair) !in files)
  {
    hide TxtName, KeyName, LoadBytes, ParseKeypair;
  }

  // The invariant ------------------------------------------------------------

  /** A base58 file holds the keypair of its name, a key file reads back to the
      keypair of its name and bears its address for a comment. */
  ghost predicate SoundFile(name: string, text: string)
  {
    && (IsTxt(name) ==>
          ParseKeypair(text).Ok? && name == TxtName(ParseKeypair(text).value))
    && (IsKey(name) ==>
          && ReadKey(text).Some?
          && var c := ReadKey(text).value;
             name == KeyName(c.keypair) && c.comment == AddressComment(c.keypair))
  }

  ghost predicate Sound(files: Files)
  {
    forall n :: n in files ==> SoundFile(n, files[n])
  }

  lemma TxtIsSound(keypair: seq<byte>)
    requires |keypair| == KEYPAIR_LEN
    ensures SoundFile(TxtName(keypair), Base58.Encode(keypair))
  {
    KindsOfNames(keypair);
    TextParses(keypair);
  }

  lemma KeyIsSound(keypair: seq<byte>, check: Word)
    requires |keypair| == KEYPAIR_LEN
    ensures SoundFile(KeyName(keypair), KeyText(keypair, check))
  {
    KindsOfNames(keypair);
    KeyFileReadsBack(keypair, check);
  }

  lemma StepKeepsSound(files: Files, c: Command)
    requires Sound(files)
    ensures Sound(Step(files, c))
  {
    StepAdds(files, c);
    forall n | n in Added(files, c)
      ensures SoundFile(n, Added(files, c)[n])
    {
      AddedIsSound(files, c, n);
    }
    hide SoundFile, Step, Added;
  }

  lemma AddedIsSound(files: Files, c: Command, n: string)
    requires n in Added(files, c)
    ensures SoundFile(n, Added(files, c)[n])
  {
    AddedFile(files, c, n);
    var t := Outcome(files, c);
    if t.Ok? {
      TxtIsSound(t.value);
      KeyIsSound(t.value, if c.Grind? then c.grind.random else c.convert.random);
    } else {
      OneKind(n);
    }
    hide TxtName, KeyName, KeyText, Outcome, Added, IsJson, IsTxt, IsKey;
  }

  // Over a whole sequence of runs --------------------------------------------

  /** No run of a later part of the sequence changes or removes a file. */
  lemma {:induction false} ExecKeeps(files: Files, cs: seq<Command>, i: nat)
    requires i <= |cs|
    ensures Extends(Exec(files, cs), Exec(files, cs[..i]))
    decreases |cs|
  {
    if i == |cs| {
      assert cs[..i] == cs;
    } else {
      var init := cs[..|cs| - 1];
      ExecKeeps(files, init, i);
      assert init[..i] == cs[..i];
      StepAdds(Exec(files, init), cs[|cs| - 1]);
    }
  }

  /** Starting from an empty directory every file is sound for ever. */
  lemma {:induction false} ExecSound(cs: seq<Command>)
    ensures Sound(Exec(map[], cs))
  {
    if cs != [] {
      ExecSound(cs[..|cs| - 1]);
      StepKeepsSound(Exec(map[], cs[..|cs| - 1]), cs[|cs| - 1]);
    }
  }

  /** The directory before run i. */
  ghost function Before(files: Files, cs: seq<Command>, i: nat): Files
    requires i <= |cs|
  {
    Exec(files, cs[..i])
  }

  lemma ExecSplit(files: Files, cs: seq<Command>, i: nat)
    requires i < |cs|
    ensures Before(files, cs, i + 1) == Step(Before(files, cs, i), cs[i])
  {
    assert cs[..i + 1][..i] == cs[..i];
  }

  /** Run i puts this text under this name. */
  ghost predicate Adds(files: Files, cs: seq<Command>, i: nat, n: string, text: string)
    requires i < |cs|
  {
    var added := Added(Before(files, cs, i), cs[i]);
    n in added && added[n] == text
  }

  /** Nothing is lost and nothing comes from elsewhere: the files after any runs
      are the first ones and, of each run, exactly what that run added. */
  lemma ExecAccounts(files: Files, cs: seq<Command>, n: string, text: string)
    ensures (n in Exec(files, cs) && Exec(files, cs)[n] == text) <==>
            || (n in files && files[n] == text)
            || exists i: nat :: i < |cs| && Adds(files, cs, i, n, text)
  {
    assert Exec(files, cs[..0]) == files;
    hide Added, Step, Exec;
    var last := Exec(files, cs);
    forall i: nat | i < |cs| && Adds(files, cs, i, n, text)
      ensures n in last && last[n] == text
    {
      StepAdds(Before(files, cs, i), cs[i]);
      ExecSplit(files, cs, i);
      ExecKeeps(files, cs, i + 1);
    }
    ExecKeeps(files, cs, 0);
    if n in last && last[n] == text {
      ExecComesFrom(files, cs, n);
    }
  }

  lemma StepComesFrom(files: Files, cs: seq<Command>, i: nat, n: string)
    requires i < |cs| && n in Before(files, cs, i + 1)
    ensures var prior, text := Before(files, cs, i), Before(files, cs, i + 1)[n];
            (n in prior && prior[n] == text) || Adds(files, cs, i, n, text)
  {
    ExecSplit(files, cs, i);
    StepAdds(Before(files, cs, i), cs[i]);
    hide Before, Step, Added;
  }

  lemma {:induction false} BeforeComesFrom(files: Files, cs: seq<Command>, m: nat, n: string)
    requires m <= |cs| && n in Before(files, cs, m)
    ensures var text := Before(files, cs, m)[n];
            || (n in files && files[n] == text)
            || exists i: nat :: i < m && Adds(files, cs, i, n, text)
  {
    assert Before(files, cs, 0) == files;
    hide Adds, Step, Exec, Before;
    if m > 0 {
      StepComesFrom(files, cs, m - 1, n);
      if !Adds(files, cs, m - 1, n, Before(files, cs, m)[n]) {
        BeforeComesFrom(files, cs, m - 1, n);
      }
    }
  }

  lemma ExecComesFrom(files: Files, cs: seq<Command>, n: string)
    requires n in Exec(files, cs)
    ensures var text := Exec(files, cs)[n];
            || (n in files && files[n] == text)
            || exists i: nat :: i < |cs| && Adds(files, cs, i, n, text)
  {
    hide Exec, Adds;
    assert cs[..|cs|] == cs;
    BeforeComesFrom(files, cs, |cs|, n);
  }

  lemma KeyIsAdded(files: Files, c: Command)
    requires Outcome(files, c).Ok?
    ensures KeyName(Outcome(files, c).value) in Added(files, c)
  {
    hide TxtName, KeyName, KeyText, Transcription, LoadBytes, ParseKeypair;
  }

  /** A generated JSON file outlives its run only where the generator itself
      failed. */
  lemma JsonOnlyFromFailedKeygen(cs: seq<Command>, n: string)
    requires IsJson(n) && n in Exec(map[], cs)
    ensures exists i: nat :: i < |cs| && cs[i].Grind? && !cs[i].grind.keygen.exitsOk
                             && n in cs[i].grind.keygen.writes
  {
    ExecComesFrom(map[], cs, n);
    var text := Exec(map[], cs)[n];
    var i: nat :| i < |cs| && Adds(map[], cs, i, n, text);
    var files := Before(map[], cs, i);
    AddedFile(files, cs[i], n);
    hide TxtName, KeyName, KeyText, Outcome, Added, IsJson;
    if Outcome(files, cs[i]).Ok? {
      KindsOfNames(Outcome(files, cs[i]).value);
    }
  }

  // Runs broken off anywhere ---------------------------------------------------

  ghost function Generated(files: Files, c: Command): Files
  {
    match c
    case Grind(e) => NewFiles(files, e.keygen)
    case Convert(_) => map[]
  }

  ghost function OwnNames(files: Files, c: Command): set<string>
  {
    match c
    case Grind(e) => GrindNames(files, e)
    case Convert(e) => ConvertNames(e)
  }

  /** Those names are of one keypair only, the generated or the parsed one. */
  lemma OwnNamesAre(files: Files, c: Command, n: string)
    requires n in OwnNames(files, c)
    ensures exists k: seq<byte> :: |k| == 64 &&
              match c
              case Grind(e) =>
                && n in {Base58.Encode(k[32..]) + ".txt", Base58.Encode(k[32..]) + ".key"}
                && exists m :: e.keygen.writes.Keys - files.Keys == {m} && LoadBytes(e.keygen.writes[m]) == Ok(k)
              case Convert(e) =>
                && n == Base58.Encode(k[32..]) + ".key"
                && e.input.Some? && ParseKeypair(e.input.value) == Ok(k)
  {
    hide LoadBytes, ParseKeypair, Base58.Encode;
    match c
    case Grind(e) =>
      NewFilesAre(files, e.keygen);
      var m := Only(NewFiles(files, e.keygen).Keys);
      assert e.keygen.writes.Keys - files.Keys == {m};
      NamesInFull(LoadBytes(e.keygen.writes[m]).value);
    case Convert(e) =>
      NamesInFull(ParseKeypair(e.input.value).value);
  }

  /** What a run can leave when it is broken off after any of its changes: the
      earlier files untouched, generated JSON files, and anything at all under
      the names of its one keypair. */
  ghost predicate MayLeave(files: Files, c: Command, f: Files)
  {
    Within(f, files, Generated(files, c), OwnNames(files, c))
  }

  /** Successive directories, each run either completed or broken off. */
  ghost predicate IsTrace(dirs: seq<Files>, cs: seq<Command>)
  {
    && |dirs| == |cs| + 1
    && forall i :: 0 <= i < |cs| ==> dirs[i + 1] == Step(dirs[i], cs[i]) || MayLeave(dirs[i], cs[i], dirs[i + 1])
  }

  ghost predicate BrokenOffAt(dirs: seq<Files>, cs: seq<Command>, i: nat, n: string)
    requires |dirs| == |cs| + 1
  {
    && i < |cs|
    && dirs[i + 1] != Step(dirs[i], cs[i])
    && n !in dirs[i] && n in OwnNames(dirs[i], cs[i])
  }

  /** Even so no run changes or removes an earlier file. */
  lemma {:induction false} TraceKeeps(dirs: seq<Files>, cs: seq<Command>, i: nat)
    requires IsTrace(dirs, cs) && i < |dirs|
    ensures Extends(dirs[|cs|], dirs[i])
    decreases |cs| - i
  {
    hide Step, OwnNames, Generated;
    if i < |cs| {
      StepAdds(dirs[i], cs[i]);
      TraceKeeps(dirs, cs, i + 1);
    }
  }

  /** No run succeeds for the address of an earlier run that succeeded and was
      completed, whatever was broken off in between. */
  lemma SuccessesDiffer(dirs: seq<Files>, cs: seq<Command>, i: nat, j: nat)
    requires IsTrace(dirs, cs) && i < j < |cs| && dirs[i + 1] == Step(dirs[i], cs[i])
    ensures var a, b := Outcome(dirs[i], cs[i]), Outcome(dirs[j], cs[j]);
            a.Ok? && b.Ok? ==> a.value[32..] != b.value[32..]
  {
    hide Added, Step, Outcome, KeyName, TxtName, MayLeave;
    if Outcome(dirs[i], cs[i]).Ok? && Outcome(dirs[j], cs[j]).Ok? {
      StepAdds(dirs[i], cs[i]);
      KeyIsAdded(dirs[i], cs[i]);
      TraceKeeps(dirs[..j + 1], cs[..j], i + 1);
      OutcomeIsNew(dirs[j], cs[j]);
      NamesCollideIff(Outcome(dirs[i], cs[i]).value, Outcome(dirs[j], cs[j]).value);
    }
  }

  /** Completed runs are a trace, so all this holds of them. */
  lemma ExecIsTrace(files: Files, cs: seq<Command>)
    ensures var dirs := seq(|cs| + 1, i requires 0 <= i <= |cs| => Before(files, cs, i));
            && IsTrace(dirs, cs) && dirs[0] == files && dirs[|cs|] == Exec(files, cs)
            && forall i :: 0 <= i < |cs| ==> dirs[i + 1] == Step(dirs[i], cs[i])
  {
    hide Step, MayLeave;
    forall i: nat | i < |cs|
      ensures Before(files, cs, i + 1) == Step(Before(files, cs, i), cs[i])
    {
      ExecSplit(files, cs, i);
    }
    assert cs[..|cs|] == cs;
  }

  /** Starting from an empty directory, every file is sound but those that a run
      broken off was writing. */
  lemma {:induction false} TraceSound(dirs: seq<Files>, cs: seq<Command>, n: string)
    requires IsTrace(dirs, cs) && dirs[0] == map[] && n in dirs[|cs|]
    ensures SoundFile(n, dirs[|cs|][n]) || exists i: nat :: BrokenOffAt(dirs, cs, i, n)
    decreases |cs|
  {
    hide Step, OwnNames, Generated, SoundFile;
    if cs != [] {
      var k := |cs| - 1;
      var dir, c := dirs[k], cs[k];
      if n in dir {
        var dirs', cs' := dirs[..k + 1], cs[..k];
        assert IsTrace(dirs', cs');
        TraceSound(dirs', cs', n);
        StepAdds(dir, c);
        if i: nat :| BrokenOffAt(dirs', cs', i, n) {
          assert BrokenOffAt(dirs, cs, i, n);
        }
      } else if dirs[k + 1] == Step(dir, c) {
        StepAdds(dir, c);
        AddedIsSound(dir, c, n);
      } else if n in OwnNames(dir, c) {
        assert BrokenOffAt(dirs, cs, k, n);
      } else {
        GeneratedIsSound(dir, c, n);
      }
    }
  }

  lemma GeneratedIsSound(files: Files, c: Command, n: string)
    requires n in Generated(files, c)
    ensures SoundFile(n, Generated(files, c)[n])
  {
    assert c.Grind? && n in c.grind.keygen.writes;
    OneKind(n);
  }
}
