/** The output directory and the commands that write to it, step by step. */
module OutputDirectory {
  import Base58
  import opened Json
  import opened Keypair
  import opened Names
  import opened OpenSsh
  import opened Outcomes
  import opened Positional
  import opened Protocol
  import opened Results

  const OWNER_ONLY: nat := 7 * 8 * 8

  /** All three permissions for the owner, and none for anybody else. */
  predicate ClosedToOthers(mode: Option<nat>)
  {
    mode.Some? && mode.value / 64 == 7 && mode.value % 64 == 0
  }

  /** The directory after one change to its files. */
  datatype Snapshot = Snapshot(files: Files, mode: Option<nat>)

  /** Every change since was found the directory in that mode, and left it
      within the bounds. */
  ghost predicate Logged(was: seq<Snapshot>, now: seq<Snapshot>, mode: Option<nat>,
                         base: Files, added: Files, names: set<string>)
  {
    && was <= now
    && forall i :: |was| <= i < |now| ==> now[i].mode == mode && Within(now[i].files, base, added, names)
  }

  /** The record is complete: it ends with the files as they are, and without a
      new entry nothing has changed. */
  ghost predicate Recorded(was: seq<Snapshot>, before: Files, now: seq<Snapshot>, after: Files)
  {
    if was == now then before == after else now != [] && now[|now| - 1].files == after
  }

  /** Every change since was, but the last few, found kept in place. */
  ghost predicate Holds(was: seq<Snapshot>, now: seq<Snapshot>, last: nat, kept: Files)
  {
    was <= now && forall i :: |was| <= i < |now| - last ==> Extends(now[i].files, kept)
  }

  lemma WithinTrans(f: Files, mid: Files, inner: set<string>, base: Files, added: Files, names: set<string>)
    requires Within(f, mid, map[], inner) && Within(mid, base, added, names) && inner <= names
    ensures Within(f, base, added, names)
  {
  }

  /** What is logged from mid on is logged from base on, if mid is in bounds. */
  lemma LogJoin(h0: seq<Snapshot>, h1: seq<Snapshot>, h2: seq<Snapshot>, mode: Option<nat>,
                mid: Files, inner: set<string>, base: Files, added: Files, names: set<string>)
    requires Logged(h0, h1, mode, base, added, names) && Logged(h1, h2, mode, mid, map[], inner)
    requires Within(mid, base, added, names) && inner <= names
    ensures Logged(h0, h2, mode, base, added, names)
  {
    hide Within;
    forall i | |h0| <= i < |h2|
      ensures h2[i].mode == mode && Within(h2[i].files, base, added, names)
    {
      if i < |h1| {
        assert h2[i] == h1[i];
      } else {
        WithinTrans(h2[i].files, mid, inner, base, added, names);
      }
    }
  }

  lemma LoggedIsClosed(h0: seq<Snapshot>, h1: seq<Snapshot>, base: Files, added: Files, names: set<string>)
    ensures Logged(h0, h1, Some(OWNER_ONLY), base, added, names) ==>
            forall i :: |h0| <= i < |h1| ==> ClosedToOthers(h1[i].mode)
  {
  }

  lemma LogStep(h0: seq<Snapshot>, h1: seq<Snapshot>, s: Snapshot,
                base: Files, added: Files, names: set<string>)
    requires Logged(h0, h1, s.mode, base, added, names) && Within(s.files, base, added, names)
    ensures Logged(h0, h1 + [s], s.mode, base, added, names)
  {
  }

  lemma LogTrans(h0: seq<Snapshot>, h1: seq<Snapshot>, h2: seq<Snapshot>, mode: Option<nat>,
                 base: Files, added: Files, names: set<string>)
    requires Logged(h0, h1, mode, base, added, names) && Logged(h1, h2, mode, base, added, names)
    ensures Logged(h0, h2, mode, base, added, names)
  {
    hide Within;
    assert forall i :: |h0| <= i < |h1| ==> h2[i] == h1[i];
  }

  lemma LogNothing(h: seq<Snapshot>, mode: Option<nat>, base: Files, added: Files, names: set<string>)
    ensures Logged(h, h, mode, base, added, names) && Recorded(h, base, h, base)
  {
  }

  lemma LogWiden(h0: seq<Snapshot>, h1: seq<Snapshot>, mode: Option<nat>,
                 base: Files, inner: set<string>, added: Files, names: set<string>)
    requires Logged(h0, h1, mode, base, map[], inner) && inner <= names
    ensures Logged(h0, h1, mode, base, added, names)
  {
  }

  lemma LogMore(h0: seq<Snapshot>, h1: seq<Snapshot>, mode: Option<nat>,
                base: Files, added: Files, names: set<string>)
    requires Logged(h0, h1, mode, base, added, {})
    ensures Logged(h0, h1, mode, base, added, names)
  {
  }

  lemma WithinMore(f: Files, base: Files, added: Files, names: set<string>)
    requires Within(f, base, map[], names) || Within(f, base, added, {})
    ensures Within(f, base, added, names)
  {
  }

  lemma RemoveOneMore(files: Files, base: Files, names: set<string>, left: set<string>, p: string)
    requires files - names == base && names !! base.Keys && names <= files.Keys
    requires left <= names && p in left
    ensures p in files - (names - left)
    ensures files - (names - left) - {p} == files - (names - (left - {p}))
    ensures Within(files - (names - left) - {p}, base, files - base.Keys, {})
  {
    assert names - (left - {p}) == (names - left) + {p};
    assert forall n :: n in base ==> n !in names;
  }

  /** The names of the JSON files among some. */
  function JsonNames(files: Files): set<string>
  {
    set n | n in files && IsJson(n)
  }

  lemma UnionMinus(a: Files, b: Files)
    requires a.Keys !! b.Keys
    ensures (a + b) - b.Keys == a
    ensures (a + b) - a.Keys == b
  {
    var r, q := (a + b) - b.Keys, (a + b) - a.Keys;
    assert r.Keys == a.Keys && q.Keys == b.Keys;
  }

  /** The generator's files come to the old ones and are none of them. */
  lemma NewFilesApart(base: Files, k: Keygen)
    ensures var added := NewFiles(base, k);
            && added.Keys !! base.Keys && added.Keys <= (base + added).Keys && |added.Keys| == |added|
            && (base + added) - added.Keys == base && (base + added) - base.Keys == added
            && Extends(base + added, added)
            && Within(base + added, base, added, {})
  {
    UnionMinus(base, NewFiles(base, k));
  }

  lemma NewFilesFound(base: Files, k: Keygen)
    ensures JsonNames(base + NewFiles(base, k)) - JsonNames(base) == NewFiles(base, k).Keys
  {
  }

  /** The generated file cannot be in the way of the files made from it ... */
  lemma TranscriptionIgnoresJson(
    base: Files, json: string, text: string, loaded: Result<seq<byte>>, e: GrindEnv)
    requires IsJson(json) && json !in base
    requires loaded != Err(KeygenFailed)
    ensures Transcription(base[json := text], json, loaded, e) == Transcription(base, json, loaded, e)
  {
  }

  /** ... nor is anything else lost with it. */
  lemma TranscribedIgnoresJson(
    base: Files, json: string, text: string, t: Result<seq<byte>>, check: Word)
    requires IsJson(json) && json !in base
    requires t.Ok? ==> |t.value| == KEYPAIR_LEN && TxtName(t.value) !in base && KeyName(t.value) !in base
    ensures Transcribed(base[json := text], t, check) - {json} == Transcribed(base, t, check)
    ensures json in Transcribed(base[json := text], t, check)
  {
    hide TxtName, KeyName, KeyText, IsJson, IsTxt, IsKey;
    if t.Ok? {
      KindsOfNames(t.value);
      RemoveBelow(base, json, text, TxtName(t.value), Base58.Encode(t.value),
                  KeyName(t.value), KeyText(t.value, check));
    } else {
      UndoPut(base, json, text);
    }
  }

  lemma TranscribedWithin(base: Files, t: Result<seq<byte>>, loaded: Result<seq<byte>>, check: Word)
    requires t.Ok? ==> t == loaded && |t.value| == KEYPAIR_LEN
    requires t.Ok? ==> TxtName(t.value) !in base && KeyName(t.value) !in base
    ensures Within(Transcribed(base, t, check), base, map[], PairNames(loaded))
  {
    hide TxtName, KeyName, KeyText, Base58.Encode;
    if t.Ok? {
      PutTwoWithin(base, TxtName(t.value), Base58.Encode(t.value), KeyName(t.value), KeyText(t.value, check));
    }
  }

  lemma PutTwoWithin(base: Files, a: string, x: string, b: string, y: string)
    requires a !in base && b !in base
    ensures Within(base[a := x][b := y], base, map[], {a, b})
  {
  }

  lemma OneNewName(base: Files, k: Keygen, name: string, text: string)
    requires var added := NewFiles(base, k);
             |added| == 1 && name == Only(added.Keys) && text == added[name]
    ensures IsJson(name) && name !in base
    ensures base + NewFiles(base, k) == base[name := text]
    ensures Within(base[name := text], base, NewFiles(base, k), {})
  {
    hide IsJson, Only;
    var added := NewFiles(base, k);
    assert name in k.writes && name !in base;
    UnionOne(base, added, name);
    PutWithin(base, added, name);
    hide NewFiles, Within;
  }

  lemma PutWithin(base: Files, added: Files, name: string)
    requires name in added && name !in base
    ensures Within(base[name := added[name]], base, added, {})
  {
  }

  lemma UnionOne(base: Files, added: Files, name: string)
    requires added.Keys == {name}
    ensures base + added == base[name := added[name]]
  {
  }

  /** The runs that end before there is one generated file to go on with. */
  lemma EarlyOutcome(base: Files, e: GrindEnv)
    ensures var added, t, f := NewFiles(base, e.keygen), GrindOutcome(base, e), GrindFiles(base, e);
            if !e.prepare.Prepared? then t == Err(OsError) && f == base
            else if !e.keygen.exitsOk then t == Err(KeygenFailed) && f == base + added
            else |added| != 1 ==> t == Err(RuntimeError) && f == base
  {
    hide LoadBytes, Transcription, NewFiles;
  }

  lemma OneNewOutcome(base: Files, e: GrindEnv, name: string, text: string)
    requires e.prepare.Prepared? && e.keygen.exitsOk
    requires var added := NewFiles(base, e.keygen);
             |added| == 1 && name == Only(added.Keys) && text == added[name]
    ensures var t := GrindOutcome(base, e);
            && t == Transcription(base, name, LoadBytes(text), e)
            && GrindFiles(base, e) == Transcribed(base, t, e.random)
            && GrindNames(base, e) == PairNames(LoadBytes(text))
  {
    hide LoadBytes, Transcription, Transcribed, PairNames, Only, NewFiles;
  }

  /** A run that finds one generated file comes to what its transcription does. */
  lemma OneNewFile(base: Files, e: GrindEnv, name: string, text: string)
    requires e.prepare.Prepared? && e.keygen.exitsOk
    requires var added := NewFiles(base, e.keygen);
             |added| == 1 && name == Only(added.Keys) && text == added[name]
    ensures IsJson(name) && name !in base
    ensures var t := Transcription(base[name := text], name, LoadBytes(text), e);
            var files := Transcribed(base[name := text], t, e.random);
            && t == GrindOutcome(base, e)
            && name in files && files - {name} == GrindFiles(base, e)
            && PairNames(LoadBytes(text)) == GrindNames(base, e)
            && Within(GrindFiles(base, e), base, map[], PairNames(LoadBytes(text)))
  {
    hide LoadBytes, Transcription, Transcribed, TxtName, KeyName, IsJson, Within, PairNames, Only, NewFiles,
         GrindOutcome, GrindFiles, GrindNames;
    OneNewName(base, e.keygen, name, text);
    OneNewOutcome(base, e, name, text);
    var t := GrindOutcome(base, e);
    TranscriptionIgnoresJson(base, name, text, LoadBytes(text), e);
    TranscribedIgnoresJson(base, name, text, t, e.random);
    TranscribedWithin(base, t, LoadBytes(text), e.random);
  }

  lemma HeldUntilLast(h0: seq<Snapshot>, h1: seq<Snapshot>, h2: seq<Snapshot>, s: Snapshot,
                      mid: Files, kept: Files, names: set<string>)
    requires Holds(h0, h1, 0, kept) && Logged(h1, h2, s.mode, mid, map[], names) && Extends(mid, kept)
    ensures Holds(h0, h2 + [s], 1, kept)
  {
    forall i | |h0| <= i < |h2|
      ensures Extends(h2[i].files, kept)
    {
      if i < |h1| {
        assert h2[i] == h1[i];
      } else {
        assert Within(h2[i].files, mid, map[], names);
      }
    }
  }

  /** Until then the generated file is there. */
  lemma OneNewFileHeld(h0: seq<Snapshot>, h1: seq<Snapshot>, h2: seq<Snapshot>, s: Snapshot,
                       base: Files, k: Keygen, name: string, text: string, names: set<string>)
    requires var added := NewFiles(base, k);
             |added| == 1 && name == Only(added.Keys) && text == added[name]
    requires Holds(h0, h1, 0, NewFiles(base, k)) && Logged(h1, h2, s.mode, base[name := text], map[], names)
    ensures Holds(h0, h2 + [s], 1, NewFiles(base, k))
  {
    hide NewFiles, Only, Holds, Logged;
    var added := NewFiles(base, k);
    assert added.Keys == {name};
    assert Extends(base[name := text], added);
    hide Extends;
    HeldUntilLast(h0, h1, h2, s, base[name := text], added, names);
  }

  lemma RecordLast(h0: seq<Snapshot>, h1: seq<Snapshot>, h2: seq<Snapshot>, s: Snapshot, before: Files)
    requires h0 <= h1 <= h2
    ensures Recorded(h0, before, h2 + [s], s.files)
  {
  }

  /** The whole log of such a run, which ends with the removal of the generated
      file. */
  lemma OneNewFileLogged(h0: seq<Snapshot>, h1: seq<Snapshot>, h2: seq<Snapshot>, mode: Option<nat>,
                         base: Files, e: GrindEnv, name: string, text: string)
    requires e.prepare.Prepared? && e.keygen.exitsOk
    requires var added := NewFiles(base, e.keygen);
             |added| == 1 && name == Only(added.Keys) && text == added[name]
    requires Logged(h0, h1, mode, base, NewFiles(base, e.keygen), {})
    requires Holds(h0, h1, 0, NewFiles(base, e.keygen))
    requires Logged(h1, h2, mode, base[name := text], map[], PairNames(LoadBytes(text)))
    ensures var last := Snapshot(GrindFiles(base, e), mode);
            && Logged(h0, h2 + [last], mode, base, NewFiles(base, e.keygen), GrindNames(base, e))
            && Holds(h0, h2 + [last], 1, NewFiles(base, e.keygen))
            && Recorded(h0, base, h2 + [last], last.files)
  {
    assert h0 <= h1 <= h2;
    hide LoadBytes, PairNames, Within, Logged, Holds, Recorded, Only, NewFiles, GrindOutcome, GrindFiles, GrindNames;
    var last := Snapshot(GrindFiles(base, e), mode);
    RecordLast(h0, h1, h2, last, base);
    OneNewFileHeld(h0, h1, h2, last, base, e.keygen, name, text, PairNames(LoadBytes(text)));
    var added, names := NewFiles(base, e.keygen), GrindNames(base, e);
    OneNewName(base, e.keygen, name, text);
    OneNewFile(base, e, name, text);
    WithinMore(base[name := text], base, added, names);
    WithinMore(GrindFiles(base, e), base, added, names);
    LogMore(h0, h1, mode, base, added, names);
    LogJoin(h0, h1, h2, mode, base[name := text], names, base, added, names);
    LogStep(h0, h2, last, base, added, names);
  }

  lemma HoldsFirst(h: seq<Snapshot>, s: Snapshot, kept: Files)
    requires Extends(s.files, kept)
    ensures Holds(h, h + [s], 0, kept)
  {
  }

  lemma RemoveBelow(base: Files, n: string, v: string, a: string, x: string, b: string, y: string)
    requires n !in base && a !in base && b !in base && n != a && n != b
    ensures base[n := v][a := x][b := y] - {n} == base[a := x][b := y]
  {
  }

  lemma UndoPut(base: Files, n: string, v: string)
    requires n !in base
    ensures base[n := v] - {n} == base
  {
  }

  class OutDir {
    var files: Files
    var mode: Option<nat>             // none while the directory does not exist
    ghost var history: seq<Snapshot>  // the directory after each change to its files

    constructor ()
      ensures files == map[] && mode == None && history == []
    {
      files, mode, history := map[], None, [];
    }

    // Primitive steps ------------------------------------------------------

    method Put(name: string, contents: string)
      modifies this
      ensures files == old(files)[name := contents] && mode == old(mode)
      ensures history == old(history) + [Snapshot(files, mode)]
    {
      files := files[name := contents];
      history := history + [Snapshot(files, mode)];
    }

    method Unlink(name: string)
      requires name in files
      modifies this
      ensures files == old(files) - {name} && mode == old(mode)
      ensures history == old(history) + [Snapshot(files, mode)]
    {
      files := files - {name};
      history := history + [Snapshot(files, mode)];
    }

    method RunKeygen(k: Keygen)
      modifies this
      ensures files == old(files) + NewFiles(old(files), k) && mode == old(mode)
      ensures history == old(history) + [Snapshot(files, mode)]
    {
      files := k.writes + files;
      assert files == old(files) + NewFiles(old(files), k);
      history := history + [Snapshot(files, mode)];
    }

    // Writing --------------------------------------------------------------

    /** Creates path exclusively; a failure to write removes it again. */
    method WriteSecret(path: string, contents: string, w: Write) returns (r: Result<string>)
      modifies this
      ensures r == CreateResult(old(files), path, w) && mode == old(mode)
      ensures r == Ok(path) <==> w.Written? && path !in old(files)
      ensures r == Err(FileExists) <==> !w.OpenFails? && path in old(files)
      ensures r in {Ok(path), Err(FileExists), Err(OsError)}
      ensures files == if r.Ok? then old(files)[path := contents] else old(files)
      ensures Logged(old(history), history, mode, old(files), map[], {path})
      ensures Recorded(old(history), old(files), history, files)
    {
      if w.OpenFails? {
        return Err(OsError);
      }
      if path in files {
        return Err(FileExists);
      }
      Put(path, "");
      if w.WriteFails? {
        Put(path, w.partial);
        Unlink(path);
        return Err(OsError);
      }
      Put(path, contents);
      r := Ok(path);
    }

    method WriteKeyFile(keypair: seq<byte>, w: Write) returns (r: Result<string>)
      modifies this
      ensures r == if |keypair| != KEYPAIR_LEN then Err(ValueError)
                   else CreateResult(old(files), TxtName(keypair), w)
      ensures files == if r.Ok? then WithTxt(old(files), keypair) else old(files)
      ensures mode == old(mode)
      ensures Logged(old(history), history, mode, old(files), map[], {TxtName(keypair)})
      ensures Recorded(old(history), old(files), history, files)
      ensures |keypair| != KEYPAIR_LEN ==> history == old(history)
      ensures r.Ok? ==> |keypair| == 64
                        && files == old(files)[Base58.Encode(keypair[32..]) + ".txt" := Base58.Encode(keypair)]
    {
      if |keypair| != KEYPAIR_LEN {
        return Err(ValueError);
      }
      var address := Base58.B58Encode(keypair[32..]);
      var secret := Base58.B58Encode(keypair);
      r := WriteSecret(address + ".txt", secret, w);
    }

    method WriteSshKeyFile(keypair: seq<byte>, random: Word, w: Write) returns (r: Result<string>)
      modifies this
      ensures r == if |keypair| != KEYPAIR_LEN then Err(ValueError)
                   else CreateResult(old(files), KeyName(keypair), w)
      ensures files == if r.Ok? then WithKey(old(files), keypair, random) else old(files)
      ensures mode == old(mode)
      ensures Logged(old(history), history, mode, old(files), map[], {KeyName(keypair)})
      ensures Recorded(old(history), old(files), history, files)
      ensures r.Ok? ==> |keypair| == 64 && KeyStored(old(files), files, keypair, random)
    {
      hide KeyStored;
      var address := Base58.B58Encode(PublicHalf(keypair));
      var text := OpensshPrivateKey(keypair, AddressComment(keypair), [], random);
      if text.Err? {
        if |keypair| == KEYPAIR_LEN {
          KeyFileReadsBack(keypair, random);
          assert false;
        }
        return Err(text.error);
      }
      r := WriteSecret(address + ".key", text.value, w);
      if r.Ok? {
        WithKeyStores(old(files), keypair, random);
      }
    }

    // Preparing and grinding -----------------------------------------------

    method PrepareOutDir(p: Prepare) returns (r: Result<()>)
      modifies this`mode
      ensures r.Ok? <==> p.Prepared?
      ensures r.Ok? ==> ClosedToOthers(mode)
      ensures r.Err? ==> r.error == OsError
      ensures mode == match p
                      case Prepared => Some(OWNER_ONLY)
                      case MkdirFails => old(mode)
                      case ChmodFails => if old(mode).None? then Some(OWNER_ONLY) else old(mode)
    {
      if p.MkdirFails? {
        return Err(OsError);
      }
      if mode.None? {
        mode := Some(OWNER_ONLY);
      }
      if p.ChmodFails? {
        return Err(OsError);
      }
      mode := Some(OWNER_ONLY);
      r := Ok(());
    }

    /** Removes what is new, one by one. */
    method RemoveAll(names: set<string>, ghost base: Files)
      requires files - names == base && names !! base.Keys && names <= files.Keys
      modifies this
      ensures files == base && mode == old(mode)
      ensures Logged(old(history), history, mode, base, old(files) - base.Keys, {})
      ensures Recorded(old(history), old(files), history, files)
    {
      var left := names;
      while left != {}
        invariant left <= names && mode == old(mode)
        invariant files == old(files) - (names - left)
        invariant Logged(old(history), history, mode, base, old(files) - base.Keys, {})
        invariant Recorded(old(history), old(files), history, files)
        decreases |left|
      {
        var p :| p in left;
        RemoveOneMore(old(files), base, names, left, p);
        LogStep(old(history), history, Snapshot(files - {p}, mode), base, old(files) - base.Keys, {});
        Unlink(p);
        left := left - {p};
      }
      assert names - left == names;
    }

    /** Runs the generator. Unless it leaves exactly one new JSON file, all new
        ones are removed; after a failing exit they stay. */
    method Grind(k: Keygen) returns (r: Result<string>)
      modifies this
      ensures mode == old(mode)
      ensures Logged(old(history), history, mode, old(files), NewFiles(old(files), k), {})
      ensures Recorded(old(history), old(files), history, files)
      ensures var added := NewFiles(old(files), k);
              if !k.exitsOk then r == Err(KeygenFailed) && files == old(files) + added
              else if |added| != 1 then r == Err(RuntimeError) && files == old(files)
              else r == Ok(Only(added.Keys)) && files == old(files) + added
      ensures r.Ok? ==> Holds(old(history), history, 0, NewFiles(old(files), k))
    {
      hide Holds, JsonNames, Extends, Within, Logged, NewFiles;
      ghost var base, added, was := files, NewFiles(files, k), history;
      var before := JsonNames(files);
      NewFilesApart(base, k);
      NewFilesFound(base, k);
      LogNothing(was, mode, base, added, {});
      LogStep(was, was, Snapshot(base + added, mode), base, added, {});
      HoldsFirst(was, Snapshot(base + added, mode), added);
      RunKeygen(k);
      if !k.exitsOk {
        return Err(KeygenFailed);
      }
      var found := JsonNames(files) - before;
      if |found| != 1 {
        ghost var ran := history;
        RemoveAll(found, base);
        LogTrans(was, ran, history, mode, base, added, {});
        return Err(RuntimeError);
      }
      var p :| p in found;
      r := Ok(p);
    }

    // The commands ---------------------------------------------------------

    /** Writes both files of a keypair, or neither. */
    method WritePair(keypair: seq<byte>, e: GrindEnv) returns (r: Result<seq<string>>)
      modifies this
      ensures var t := PairResult(old(files), keypair, e);
              && files == Transcribed(old(files), t, e.random)
              && r == if t.Ok? then Ok([TxtName(keypair), KeyName(keypair)]) else Err(t.error)
      ensures mode == old(mode)
      ensures Logged(old(history), history, mode, old(files), map[], {TxtName(keypair), KeyName(keypair)})
      ensures Recorded(old(history), old(files), history, files)
      ensures |keypair| != KEYPAIR_LEN ==> history == old(history)
      ensures r.Ok? ==> |keypair| == 64 && PairStored(old(files), files, keypair, e.random)
    {
      hide TxtName, KeyName, KeyText, PairStored, KeyStored, WithKey, Base58.Encode;
      ghost var names := {TxtName(keypair), KeyName(keypair)};
      var txt := WriteKeyFile(keypair, e.txt);
      LogWiden(old(history), history, mode, old(files), {TxtName(keypair)}, map[], names);
      if txt.Err? {
        return Err(txt.error);
      }
      NamesCollideIff(keypair, keypair);
      ghost var mid, was := files, history;
      var key := WriteSshKeyFile(keypair, e.random, e.key);
      LogJoin(old(history), was, history, mode, mid, {KeyName(keypair)}, old(files), map[], names);
      if key.Err? {
        LogStep(old(history), history, Snapshot(old(files), mode), old(files), map[], names);
        UndoPut(old(files), TxtName(keypair), Base58.Encode(keypair));
        Unlink(txt.value);
        return Err(key.error);
      }
      TranscribedStores(old(files), keypair, e.random);
      r := Ok([txt.value, key.value]);
    }

    /** Turns the generated file into the two key files: both or neither. */
    method TranscribeJson(jsonPath: string, e: GrindEnv) returns (r: Result<seq<string>>)
      requires jsonPath in files
      modifies this
      ensures var t := Transcription(old(files), jsonPath, LoadBytes(old(files)[jsonPath]), e);
              && files == Transcribed(old(files), t, e.random)
              && r == if t.Ok? then Ok([TxtName(t.value), KeyName(t.value)]) else Err(t.error)
      ensures mode == old(mode)
      ensures Logged(old(history), history, mode, old(files), map[],
                     PairNames(LoadBytes(old(files)[jsonPath])))
      ensures Recorded(old(history), old(files), history, files)
      ensures var loaded := LoadBytes(old(files)[jsonPath]);
              && (r.Ok? ==> loaded.Ok? && |loaded.value| == 64 && PairStored(old(files), files, loaded.value, e.random))
              && (r == Err(RuntimeError) <==>
                   e.readOk && loaded.Ok? && jsonPath != Address(loaded.value) + ".json")
    {
      hide PairStored;
      if !e.readOk {
        return Err(OsError);
      }
      var loaded := LoadBytes(files[jsonPath]);
      TranscriptionIs(files, e, jsonPath, loaded);
      if loaded.Err? {
        return Err(loaded.error);
      }
      var keypair := loaded.value;
      var address := Base58.B58Encode(PublicHalf(keypair));
      if address + ".json" != jsonPath {
        return Err(RuntimeError);
      }
      r := WritePair(keypair, e);
    }

    /** The grind command. The generated file is removed whatever happens, and
        the directory is closed to others before anything is put in it. */
    method CmdGrind(e: GrindEnv) returns (r: Result<seq<string>>)
      modifies this
      ensures files == GrindFiles(old(files), e)
      ensures var t := GrindOutcome(old(files), e);
              r == if t.Ok? then Ok([TxtName(t.value), KeyName(t.value)]) else Err(t.error)
      ensures Logged(old(history), history, Some(OWNER_ONLY), old(files),
                     NewFiles(old(files), e.keygen), GrindNames(old(files), e))
      ensures r.Ok? ==> Holds(old(history), history, 1, NewFiles(old(files), e.keygen))
      ensures Recorded(old(history), old(files), history, files)
      ensures forall i :: |old(history)| <= i < |history| ==> ClosedToOthers(history[i].mode)
      ensures r.Ok? ==> exists k: seq<byte> ::
                && |k| == 64 && Generates(old(files), e, Base58.Encode(k[32..]) + ".json", Ok(k))
                && PairStored(old(files), files, k, e.random)
                && r.value == [Base58.Encode(k[32..]) + ".txt", Base58.Encode(k[32..]) + ".key"]
      ensures r.Err? && r.error != KeygenFailed ==> files == old(files)
    {
      hide LoadBytes, Transcription, WithTxt, WithKey, TxtName, KeyName, IsJson, Only, PairNames, Within, Logged, Holds,
           Recorded, GrindOutcome, GrindFiles, GrindNames, NewFiles, Transcribed, Generates, PairStored, ClosedToOthers;
      EarlyOutcome(files, e);
      GrindSummary(files, e);
      LogNothing(history, Some(OWNER_ONLY), files, NewFiles(files, e.keygen), GrindNames(files, e));
      var prepared := PrepareOutDir(e.prepare);
      if prepared.Err? {
        return Err(prepared.error);
      }
      var json := Grind(e.keygen);
      LogMore(old(history), history, mode, old(files), NewFiles(old(files), e.keygen), GrindNames(old(files), e));
      LoggedIsClosed(old(history), history, old(files), NewFiles(old(files), e.keygen), GrindNames(old(files), e));
      if json.Err? {
        return Err(json.error);
      }
      var name := json.value;
      ghost var ground, text := history, files[name];
      OneNewName(old(files), e.keygen, name, text);
      OneNewFile(old(files), e, name, text);
      r := TranscribeJson(name, e);
      OneNewFileLogged(old(history), ground, history, mode, old(files), e, name, text);
      Unlink(name);
      LoggedIsClosed(old(history), history, old(files), NewFiles(old(files), e.keygen), GrindNames(old(files), e));
    }

    /** The convert command: the directory is left alone until the input parses,
        and closed to others before anything is put in it. */
    method CmdConvert(e: ConvertEnv) returns (r: Result<seq<string>>)
      modifies this
      ensures files == ConvertFiles(old(files), e)
      ensures var t := ConvertOutcome(old(files), e);
              r == if t.Ok? then Ok([KeyName(t.value)]) else Err(t.error)
      ensures r.Ok? <==>
              && e.input.Some? && ParseKeypair(e.input.value).Ok?
              && e.prepare.Prepared? && e.key.Written?
              && KeyName(ParseKeypair(e.input.value).value) !in old(files)
      ensures Logged(old(history), history, Some(OWNER_ONLY), old(files), map[], ConvertNames(e))
      ensures Recorded(old(history), old(files), history, files)
      ensures (e.input.None? || ParseKeypair(e.input.value).Err?) ==>
              mode == old(mode) && history == old(history)
      ensures forall i :: |old(history)| <= i < |history| ==> ClosedToOthers(history[i].mode)
      ensures r.Ok? ==>
                && e.input.Some? && ParseKeypair(e.input.value).Ok?
                && var k := ParseKeypair(e.input.value).value;
                   && r.value == [Base58.Encode(k[32..]) + ".key"]
                   && KeyStored(old(files), files, k, e.random)
      ensures r == Err(ValueError) <==> e.input.Some? && ParseKeypair(e.input.value).Err?
      ensures r == Err(FileExists) <==>
                && e.input.Some? && ParseKeypair(e.input.value).Ok?
                && e.prepare.Prepared? && !e.key.OpenFails?
                && Base58.Encode(ParseKeypair(e.input.value).value[32..]) + ".key" in old(files)
      ensures r.Err? ==> files == old(files) && r.error in {ValueError, FileExists, OsError}
    {
      hide ParseKeypair, KeyText, KeyStored;
      if e.input.None? {
        return Err(OsError);
      }
      var keypair := ParseKeypair(e.input.value);
      if keypair.Err? {
        return Err(keypair.error);
      }
      var prepared := PrepareOutDir(e.prepare);
      if prepared.Err? {
        return Err(prepared.error);
      }
      var key := WriteSshKeyFile(keypair.value, e.random, e.key);
      if key.Err? {
        return Err(key.error);
      }
      r := Ok([key.value]);
    }
  }
}
