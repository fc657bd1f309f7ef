/** Persistence to three checksummed files and what a crash can leave behind
    (persistence/store.py).

    Every file is replaced atomically; the directory is synced only after all
    replacements, so a crash may keep any subset of those issued. JSON is a
    parameter, of which a lemma names what it needs. */
module ChainStore {
  import opened Types
  import opened HashUtils

  /** A JSON value where `int()` is applied: a number, something else `int()` takes, or neither. */
  datatype JsonInt = Number(n: int) | Convertible(n: int) | NotANumber

  /** A key of the meta object: missing, null, a text, or a value of another type. */
  datatype Entry = NoEntry | NullEntry | Text(value: string) | OtherEntry

  datatype Meta = Meta(schemaVersion: JsonInt, nodeId: string, genesisPrevHash: string, chainChecksum: Entry, stakesChecksum: Entry)

  /** Parsed text: not JSON, JSON of the wrong shape, or a value. */
  datatype Json<+T> = NotJson | WrongShape | Parsed(value: T)

  /** `PersistedState` without the key files. */
  datatype PersistedState = PersistedState(chain: Chain, nodeId: string, genesisPrevHash: string, genesisStakes: map<string, int>)

  /** `canon` is the sorted dump, without ASCII escapes, of the JSON value in a text; checksums are taken of it. */
  datatype Codec = Codec(
    sha: string -> HexHash,
    canon: string -> string,
    dumpChain: Chain -> string, parseChain: string -> Json<Chain>,
    dumpStakes: map<string, int> -> string, parseStakes: string -> Json<map<string, JsonInt>>,
    dumpMeta: Meta -> string, parseMeta: string -> Json<Meta>)

  datatype StoreSettings = StoreSettings(schemaVersion: int, maxChainFileBytes: int)

  function Numbers(stakes: map<string, int>): map<string, JsonInt> {
    map v | v in stakes :: Number(stakes[v])
  }

  /** JSON gives back what was dumped, and the sorted dumps that checksums are taken of tell chains and stakes apart. */
  ghost predicate JsonLaws(codec: Codec) {
    && (forall c :: codec.parseChain(codec.dumpChain(c)) == Parsed(c))
    && (forall m :: codec.parseStakes(codec.dumpStakes(m)) == Parsed(Numbers(m)))
    && (forall m :: codec.parseMeta(codec.dumpMeta(m)) == Parsed(m))
    && (forall c, d :: codec.canon(codec.dumpChain(c)) == codec.canon(codec.dumpChain(d)) ==> c == d)
    && (forall m, n :: codec.canon(codec.dumpStakes(m)) == codec.canon(codec.dumpStakes(n)) ==> m == n)
  }

  /** `_compute_checksum` of the JSON value in a text. */
  function Checksum(codec: Codec, text: string): string {
    codec.sha(codec.canon(text))
  }

  function ChainChecksum(codec: Codec, chain: Chain): string {
    Checksum(codec, codec.dumpChain(chain))
  }

  function StakesChecksum(codec: Codec, stakes: map<string, int>): string {
    Checksum(codec, codec.dumpStakes(stakes))
  }

  /** What `load` asks of a file under an entry: one that is neither missing nor null must be its checksum. */
  predicate Passes(entry: Entry, checksum: string) {
    entry.NoEntry? || entry.NullEntry? || entry == Text(checksum)
  }

  // ---------- files ----------

  datatype Files = Files(chain: Option<string>, stakes: Option<string>, meta: Option<string>)

  datatype Target = ChainFile | StakesFile | MetaFile

  datatype Replacement = Replacement(target: Target, text: string)

  function Replace(files: Files, r: Replacement): Files {
    match r.target
    case ChainFile => files.(chain := Some(r.text))
    case StakesFile => files.(stakes := Some(r.text))
    case MetaFile => files.(meta := Some(r.text))
  }

  /** The files after those replacements whose position is in `landed` have reached the disk. */
  function Land(files: Files, steps: seq<Replacement>, landed: set<int>): Files {
    if steps == [] then files
    else
      var n := |steps| - 1;
      var before := Land(files, steps[..n], landed);
      if n in landed then Replace(before, steps[n]) else before
  }

  // ---------- `save` ----------

  function MetaOf(codec: Codec, settings: StoreSettings, state: PersistedState): Meta {
    Meta(Number(settings.schemaVersion), state.nodeId, state.genesisPrevHash,
         Text(ChainChecksum(codec, state.chain)), Text(StakesChecksum(codec, state.genesisStakes)))
  }

  /** The size check of `save` and of `load`. */
  predicate SizeOk(settings: StoreSettings, text: string) {
    settings.maxChainFileBytes <= 0 || |text| <= settings.maxChainFileBytes
  }

  /** The replacements of a save, in order; none when the chain is too large. */
  function SaveSteps(codec: Codec, settings: StoreSettings, state: PersistedState): seq<Replacement> {
    if !SizeOk(settings, codec.dumpChain(state.chain)) then []
    else [Replacement(ChainFile, codec.dumpChain(state.chain)),
          Replacement(StakesFile, codec.dumpStakes(state.genesisStakes)),
          Replacement(MetaFile, codec.dumpMeta(MetaOf(codec, settings, state)))]
  }

  // ---------- `load` ----------

  datatype Loaded = Nothing | Refused(error: string) | Restored(state: PersistedState)

  predicate AllConvertible(stakes: map<string, JsonInt>) {
    forall v :: v in stakes ==> !stakes[v].NotANumber?
  }

  function Converted(stakes: map<string, JsonInt>): map<string, int>
    requires AllConvertible(stakes)
  {
    map v | v in stakes :: (match stakes[v] case Number(n) => n case Convertible(n) => n)
  }

  /** The stakes part of `load`. */
  function LoadStakes(codec: Codec, file: Option<string>, checksum: Entry): Result<map<string, int>> {
    match file
    case None => if checksum.NoEntry? then Success(map[]) else Failure("Missing genesis_stakes file")
    case Some(text) =>
      match codec.parseStakes(text)
      case NotJson => Failure("Invalid JSON")
      case WrongShape => Failure("genesis_stakes file must contain a JSON object")
      case Parsed(stakes) =>
        if !AllConvertible(stakes) then Failure("Invalid stake value")
        else if !Passes(checksum, Checksum(codec, text)) then Failure("Genesis stakes checksum mismatch")
        else Success(Converted(stakes))
  }

  /** The chain part of `load`. */
  function LoadChain(codec: Codec, settings: StoreSettings, file: Option<string>, checksum: Entry): Result<Chain> {
    match file
    case None => Failure("Missing chain file")
    case Some(text) =>
      if !SizeOk(settings, text) then Failure("Chain file too large")
      else
        match codec.parseChain(text)
        case NotJson => Failure("Invalid JSON")
        case WrongShape => Failure("chain file must contain a JSON array")
        case Parsed(chain) =>
          if !Passes(checksum, Checksum(codec, text)) then Failure("Chain checksum mismatch")
          else Success(chain)
  }

  function Load(codec: Codec, settings: StoreSettings, files: Files): Loaded {
    if files.meta.None? then Nothing
    else
      match codec.parseMeta(files.meta.value)
      case NotJson => Refused("Invalid JSON")
      case WrongShape => Refused("meta file must contain a JSON object")
      case Parsed(meta) =>
        if meta.schemaVersion.NotANumber? then Refused("Invalid schema_version")
        else if meta.schemaVersion.n != settings.schemaVersion then Refused("Unsupported schema version")
        else
          var chain := LoadChain(codec, settings, files.chain, meta.chainChecksum);
          if chain.Failure? then Refused(chain.error)
          else
            var stakes := LoadStakes(codec, files.stakes, meta.stakesChecksum);
            if stakes.Failure? then Refused(stakes.error)
            else Restored(PersistedState(chain.value, meta.nodeId, meta.genesisPrevHash, stakes.value))
  }

  /** The data directory. */
  class DataDir {
    var chainFile: Option<string>
    var stakesFile: Option<string>
    var metaFile: Option<string>

    constructor ()
      ensures Contents() == Files(None, None, None)
    {
      chainFile, stakesFile, metaFile := None, None, None;
    }

    function Contents(): Files
      reads this
    {
      Files(chainFile, stakesFile, metaFile)
    }

    /** `save` without a crash: every replacement lands; a chain that is too large changes nothing. */
    method Save(codec: Codec, settings: StoreSettings, state: PersistedState) returns (ok: bool)
      modifies this
      ensures ok <==> settings.maxChainFileBytes <= 0 || |codec.dumpChain(state.chain)| <= settings.maxChainFileBytes
      ensures Contents() ==
        if !ok then old(Contents())
        else
          var meta := Meta(Number(settings.schemaVersion), state.nodeId, state.genesisPrevHash,
                           Text(codec.sha(codec.canon(codec.dumpChain(state.chain)))),
                           Text(codec.sha(codec.canon(codec.dumpStakes(state.genesisStakes)))));
          Files(Some(codec.dumpChain(state.chain)), Some(codec.dumpStakes(state.genesisStakes)), Some(codec.dumpMeta(meta)))
      ensures Contents() == Land(old(Contents()), SaveSteps(codec, settings, state), {0, 1, 2})
    {
      var meta := MetaOf(codec, settings, state);
      var chainBytes := codec.dumpChain(state.chain);
      if !SizeOk(settings, chainBytes) {
        return false;
      }
      LandAll(Contents(), SaveSteps(codec, settings, state));
      chainFile := Some(chainBytes);
      stakesFile := Some(codec.dumpStakes(state.genesisStakes));
      metaFile := Some(codec.dumpMeta(meta));
      ok := true;
    }

    /** The loop of `load` that converts the stakes, in whatever order the dict is walked. */
    static method ConvertStakes(stakes: map<string, JsonInt>) returns (r: Option<map<string, int>>)
      ensures r == if AllConvertible(stakes) then Some(Converted(stakes)) else None
    {
      var out: map<string, int> := map[];
      var rest := stakes.Keys;
      while rest != {}
        invariant rest <= stakes.Keys
        invariant out.Keys == stakes.Keys - rest
        invariant forall v :: v in out ==> !stakes[v].NotANumber? && out[v] == stakes[v].n
        decreases rest
      {
        var v :| v in rest;
        match stakes[v] {
          case NotANumber => return None;
          case Number(n) => out := out[v := n];
          case Convertible(n) => out := out[v := n];
        }
        rest := rest - {v};
      }
      assert AllConvertible(stakes) && out == Converted(stakes);
      r := Some(out);
    }

    method ReadStakes(codec: Codec, checksum: Entry) returns (r: Result<map<string, int>>)
      ensures r == LoadStakes(codec, stakesFile, checksum)
    {
      if stakesFile.None? {
        return if checksum.NoEntry? then Success(map[]) else Failure("Missing genesis_stakes file");
      }
      match codec.parseStakes(stakesFile.value)
      case NotJson => return Failure("Invalid JSON");
      case WrongShape => return Failure("genesis_stakes file must contain a JSON object");
      case Parsed(stakes) =>
        var converted := ConvertStakes(stakes);
        if converted.None? {
          return Failure("Invalid stake value");
        }
        if !Passes(checksum, Checksum(codec, stakesFile.value)) {
          return Failure("Genesis stakes checksum mismatch");
        }
        return Success(converted.value);
    }

    /** `load`. */
    method LoadState(codec: Codec, settings: StoreSettings) returns (r: Loaded)
      ensures r == Load(codec, settings, Contents())
    {
      if metaFile.None? {
        return Nothing;
      }
      match codec.parseMeta(metaFile.value)
      case NotJson => return Refused("Invalid JSON");
      case WrongShape => return Refused("meta file must contain a JSON object");
      case Parsed(meta) =>
        if meta.schemaVersion.NotANumber? {
          return Refused("Invalid schema_version");
        }
        if meta.schemaVersion.n != settings.schemaVersion {
          return Refused("Unsupported schema version");
        }
        var chain := LoadChain(codec, settings, chainFile, meta.chainChecksum);
        if chain.Failure? {
          return Refused(chain.error);
        }
        var stakes := ReadStakes(codec, meta.stakesChecksum);
        if stakes.Failure? {
          return Refused(stakes.error);
        }
        return Restored(PersistedState(chain.value, meta.nodeId, meta.genesisPrevHash, stakes.value));
    }
  }

  // ---------- crashes ----------

  lemma Land3(files: Files, a: Replacement, b: Replacement, c: Replacement, landed: set<int>)
    ensures Land(files, [a, b, c], landed) ==
      var x := if 0 in landed then Replace(files, a) else files;
      var y := if 1 in landed then Replace(x, b) else x;
      if 2 in landed then Replace(y, c) else y
  {
    assert [a, b, c][..2] == [a, b] && [a, b][..1] == [a] && [a][..0] == [];
    assert Land(files, [a], landed) == if 0 in landed then Replace(files, a) else files;
    assert Land(files, [a, b], landed) ==
      if 1 in landed then Replace(Land(files, [a], landed), b) else Land(files, [a], landed);
  }

  lemma LandAll(files: Files, steps: seq<Replacement>)
    requires |steps| == 3
    ensures Land(files, steps, {0, 1, 2}) == Replace(Replace(Replace(files, steps[0]), steps[1]), steps[2])
  {
    Land3(files, steps[0], steps[1], steps[2], {0, 1, 2});
    assert steps == [steps[0], steps[1], steps[2]];
  }

  /** What a file of a given save holds. */
  function FilesOf(codec: Codec, settings: StoreSettings, chain: PersistedState, stakes: PersistedState, meta: PersistedState): Files {
    Files(Some(codec.dumpChain(chain.chain)), Some(codec.dumpStakes(stakes.genesisStakes)),
          Some(codec.dumpMeta(MetaOf(codec, settings, meta))))
  }

  /** The texts whose checksums are compared when files of these states meet. */
  function Checked(codec: Codec, states: seq<PersistedState>): set<string> {
    (set i | 0 <= i < |states| :: codec.canon(codec.dumpChain(states[i].chain)))
    + (set i | 0 <= i < |states| :: codec.canon(codec.dumpStakes(states[i].genesisStakes)))
  }

  ghost predicate NoChecksumCollision(codec: Codec, states: seq<PersistedState>) {
    forall x, y :: x in Checked(codec, states) && y in Checked(codec, states) && codec.sha(x) == codec.sha(y) ==> x == y
  }

  lemma ConvertedNumbers(a: map<string, int>)
    ensures AllConvertible(Numbers(a)) && Converted(Numbers(a)) == a
  {
  }

  lemma ChecksumsTell(codec: Codec, states: seq<PersistedState>, i: nat, j: nat)
    requires JsonLaws(codec) && NoChecksumCollision(codec, states) && i < |states| && j < |states|
    ensures ChainChecksum(codec, states[i].chain) == ChainChecksum(codec, states[j].chain) <==> states[i].chain == states[j].chain
    ensures StakesChecksum(codec, states[i].genesisStakes) == StakesChecksum(codec, states[j].genesisStakes)
       <==> states[i].genesisStakes == states[j].genesisStakes
  {
    assert codec.canon(codec.dumpChain(states[i].chain)) in Checked(codec, states);
    assert codec.canon(codec.dumpChain(states[j].chain)) in Checked(codec, states);
    assert codec.canon(codec.dumpStakes(states[i].genesisStakes)) in Checked(codec, states);
    assert codec.canon(codec.dumpStakes(states[j].genesisStakes)) in Checked(codec, states);
  }

  lemma LoadChainUnder(codec: Codec, settings: StoreSettings, chain: Chain, entry: Entry)
    requires JsonLaws(codec) && SizeOk(settings, codec.dumpChain(chain))
    ensures LoadChain(codec, settings, Some(codec.dumpChain(chain)), entry)
      == if Passes(entry, ChainChecksum(codec, chain)) then Success(chain) else Failure("Chain checksum mismatch")
  {
    assert codec.parseChain(codec.dumpChain(chain)) == Parsed(chain);
  }

  lemma LoadStakesUnder(codec: Codec, stakes: map<string, int>, entry: Entry)
    requires JsonLaws(codec)
    ensures LoadStakes(codec, Some(codec.dumpStakes(stakes)), entry)
      == if Passes(entry, StakesChecksum(codec, stakes)) then Success(stakes) else Failure("Genesis stakes checksum mismatch")
  {
    assert codec.parseStakes(codec.dumpStakes(stakes)) == Parsed(Numbers(stakes));
    ConvertedNumbers(stakes);
  }

  /** Loading files of three saves: the checksums decide. */
  lemma LoadSavedFiles(codec: Codec, settings: StoreSettings, c: PersistedState, s: PersistedState, m: PersistedState)
    requires JsonLaws(codec) && SizeOk(settings, codec.dumpChain(c.chain))
    ensures Load(codec, settings, FilesOf(codec, settings, c, s, m)) ==
      if ChainChecksum(codec, m.chain) != ChainChecksum(codec, c.chain) then Refused("Chain checksum mismatch")
      else if StakesChecksum(codec, m.genesisStakes) != StakesChecksum(codec, s.genesisStakes) then
        Refused("Genesis stakes checksum mismatch")
      else Restored(PersistedState(c.chain, m.nodeId, m.genesisPrevHash, s.genesisStakes))
  {
    LoadChainUnder(codec, settings, c.chain, Text(ChainChecksum(codec, m.chain)));
    LoadStakesUnder(codec, s.genesisStakes, Text(StakesChecksum(codec, m.genesisStakes)));
    assert codec.parseMeta(codec.dumpMeta(MetaOf(codec, settings, m))) == Parsed(MetaOf(codec, settings, m));
  }

  /** Loading a mixture: it succeeds exactly when the mixture is no mixture. */
  lemma LoadMixture(codec: Codec, settings: StoreSettings, states: seq<PersistedState>, c: nat, s: nat, m: nat)
    requires JsonLaws(codec) && NoChecksumCollision(codec, states) && c < |states| && s < |states| && m < |states|
    requires SizeOk(settings, codec.dumpChain(states[c].chain))
    ensures var r := Load(codec, settings, FilesOf(codec, settings, states[c], states[s], states[m]));
      if states[c].chain == states[m].chain && states[s].genesisStakes == states[m].genesisStakes
      then r == Restored(states[m]) else r.Refused?
  {
    LoadSavedFiles(codec, settings, states[c], states[s], states[m]);
    ChecksumsTell(codec, states, c, m);
    ChecksumsTell(codec, states, s, m);
  }

  /** Load after an undisturbed save gives back the four saved values. */
  lemma SaveThenLoad(codec: Codec, settings: StoreSettings, files: Files, state: PersistedState)
    requires JsonLaws(codec) && SizeOk(settings, codec.dumpChain(state.chain))
    ensures Load(codec, settings, Land(files, SaveSteps(codec, settings, state), {0, 1, 2})) == Restored(state)
  {
    LandAll(files, SaveSteps(codec, settings, state));
    LoadSavedFiles(codec, settings, state, state, state);
  }

  /** A crash while `new` is saved over `old`, whatever subset of the replacements
      lands: the state of whichever meta file survives is loaded if the chain and the
      stakes on disk are that state's, and otherwise the load is refused. */
  lemma CrashOutcome(codec: Codec, settings: StoreSettings, before: PersistedState, after: PersistedState, landed: set<int>)
    requires JsonLaws(codec) && NoChecksumCollision(codec, [before, after])
    requires SizeOk(settings, codec.dumpChain(before.chain)) && SizeOk(settings, codec.dumpChain(after.chain))
    ensures var files := Land(FilesOf(codec, settings, before, before, before), SaveSteps(codec, settings, after), landed);
      var chain := (if 0 in landed then after else before).chain;
      var stakes := (if 1 in landed then after else before).genesisStakes;
      var owner := if 2 in landed then after else before;
      if chain == owner.chain && stakes == owner.genesisStakes
      then Load(codec, settings, files) == Restored(owner) else Load(codec, settings, files).Refused?
  {
    var states := [before, after];
    var steps := SaveSteps(codec, settings, after);
    Land3(FilesOf(codec, settings, before, before, before), steps[0], steps[1], steps[2], landed);
    LoadMixture(codec, settings, states, if 0 in landed then 1 else 0, if 1 in landed then 1 else 0, if 2 in landed then 1 else 0);
  }

  // ---------- any number of saves and crashes ----------

  /** A save of `state` of which the replacements in `landed` reached the disk. */
  datatype Attempt = Attempt(state: PersistedState, landed: set<int>)

  function AfterAttempts(codec: Codec, settings: StoreSettings, files: Files, attempts: seq<Attempt>): Files {
    if attempts == [] then files
    else
      var n := |attempts| - 1;
      Land(AfterAttempts(codec, settings, files, attempts[..n]), SaveSteps(codec, settings, attempts[n].state), attempts[n].landed)
  }

  function StatesOf(attempts: seq<Attempt>): seq<PersistedState> {
    seq(|attempts|, i requires 0 <= i < |attempts| => attempts[i].state)
  }

  /** The last attempt whose replacement of the file at position `step` has landed; a chain that is
      too large is never written. */
  function LastLanded(codec: Codec, settings: StoreSettings, attempts: seq<Attempt>, step: int): (k: Option<nat>)
    ensures k.Some? ==> k.value < |attempts| && SizeOk(settings, codec.dumpChain(attempts[k.value].state.chain))
  {
    if attempts == [] then None
    else
      var n := |attempts| - 1;
      if step in attempts[n].landed && SizeOk(settings, codec.dumpChain(attempts[n].state.chain)) then Some(n)
      else LastLanded(codec, settings, attempts[..n], step)
  }

  /** The directory written by the attempts c (chain), s (stakes) and m (meta). */
  function FilesBy(codec: Codec, settings: StoreSettings, attempts: seq<Attempt>, c: Option<nat>, s: Option<nat>, m: Option<nat>): Files
    requires (c.Some? ==> c.value < |attempts|) && (s.Some? ==> s.value < |attempts|) && (m.Some? ==> m.value < |attempts|)
  {
    Files(if c.None? then None else Some(codec.dumpChain(attempts[c.value].state.chain)),
          if s.None? then None else Some(codec.dumpStakes(attempts[s.value].state.genesisStakes)),
          if m.None? then None else Some(codec.dumpMeta(MetaOf(codec, settings, attempts[m.value].state))))
  }

  function Left(codec: Codec, settings: StoreSettings, attempts: seq<Attempt>): Files {
    FilesBy(codec, settings, attempts, LastLanded(codec, settings, attempts, 0),
            LastLanded(codec, settings, attempts, 1), LastLanded(codec, settings, attempts, 2))
  }

  /** Every file is the one its last landed replacement wrote. */
  lemma {:induction false} AttemptsLeave(codec: Codec, settings: StoreSettings, attempts: seq<Attempt>)
    ensures AfterAttempts(codec, settings, Files(None, None, None), attempts) == Left(codec, settings, attempts)
  {
    if attempts != [] {
      var n := |attempts| - 1;
      AttemptsLeave(codec, settings, attempts[..n]);
      var steps := SaveSteps(codec, settings, attempts[n].state);
      if steps != [] {
        Land3(Left(codec, settings, attempts[..n]), steps[0], steps[1], steps[2], attempts[n].landed);
      }
    }
  }

  /** A load under a checksummed meta file needs the other two files. */
  lemma MissingFileRefused(codec: Codec, settings: StoreSettings, files: Files, m: PersistedState)
    requires JsonLaws(codec) && files.meta == Some(codec.dumpMeta(MetaOf(codec, settings, m)))
    requires files.chain.None? || files.stakes.None?
    ensures Load(codec, settings, files).Refused?
  {
    assert codec.parseMeta(files.meta.value) == Parsed(MetaOf(codec, settings, m));
  }

  /** The chain file and the stakes file hold what the save of the meta file wrote. */
  ghost predicate Together(attempts: seq<Attempt>, c: Option<nat>, s: Option<nat>, m: nat)
    requires (c.Some? ==> c.value < |attempts|) && (s.Some? ==> s.value < |attempts|) && m < |attempts|
  {
    && c.Some? && attempts[c.value].state.chain == attempts[m].state.chain
    && s.Some? && attempts[s.value].state.genesisStakes == attempts[m].state.genesisStakes
  }

  /** From an empty directory, through any number of saves each cut short at any point with any
      subset of its replacements kept: a load finds nothing without a meta file; otherwise it
      yields the state of the meta file if the files on disk are that state's, and is refused if not. */
  lemma LoadAfterAttempts(codec: Codec, settings: StoreSettings, attempts: seq<Attempt>)
    requires JsonLaws(codec) && NoChecksumCollision(codec, StatesOf(attempts))
    ensures var r := Load(codec, settings, AfterAttempts(codec, settings, Files(None, None, None), attempts));
      var c, s := LastLanded(codec, settings, attempts, 0), LastLanded(codec, settings, attempts, 1);
      var m := LastLanded(codec, settings, attempts, 2);
      if m.None? then r == Nothing
      else if Together(attempts, c, s, m.value) then r == Restored(attempts[m.value].state)
      else r.Refused?
  {
    AttemptsLeave(codec, settings, attempts);
    var c, s := LastLanded(codec, settings, attempts, 0), LastLanded(codec, settings, attempts, 1);
    var m := LastLanded(codec, settings, attempts, 2);
    if m.Some? {
      if c.None? || s.None? {
        MissingFileRefused(codec, settings, Left(codec, settings, attempts), attempts[m.value].state);
      } else {
        var states := StatesOf(attempts);
        assert Left(codec, settings, attempts) == FilesOf(codec, settings, states[c.value], states[s.value], states[m.value]);
        LoadMixture(codec, settings, states, c.value, s.value, m.value);
      }
    }
  }

  /** So a load that succeeds yields exactly one of the states that were saved, never a mixture. */
  lemma NeverMixes(codec: Codec, settings: StoreSettings, attempts: seq<Attempt>)
    requires JsonLaws(codec) && NoChecksumCollision(codec, StatesOf(attempts))
    ensures var r := Load(codec, settings, AfterAttempts(codec, settings, Files(None, None, None), attempts));
      r.Restored? ==> r.state in StatesOf(attempts)
  {
    LoadAfterAttempts(codec, settings, attempts);
    var m := LastLanded(codec, settings, attempts, 2);
    if m.Some? {
      assert StatesOf(attempts)[m.value] == attempts[m.value].state;
    }
  }

  /** All three replacements of an attempt are made and reach the disk. */
  predicate Lands(codec: Codec, settings: StoreSettings, a: Attempt) {
    SizeOk(settings, codec.dumpChain(a.state.chain)) && {0, 1, 2} <= a.landed
  }

  lemma HalfLanded(codec: Codec, settings: StoreSettings, attempts: seq<Attempt>)
    requires |attempts| >= 2 && Lands(codec, settings, attempts[|attempts| - 2])
    requires var half := attempts[|attempts| - 1]; half.landed == {0} && SizeOk(settings, codec.dumpChain(half.state.chain))
    ensures LastLanded(codec, settings, attempts, 0) == Some(|attempts| - 1)
    ensures LastLanded(codec, settings, attempts, 2) == Some(|attempts| - 2)
  {
    var n := |attempts| - 1;
    assert attempts[..n][n - 1] == attempts[n - 1];
    assert LastLanded(codec, settings, attempts, 2) == LastLanded(codec, settings, attempts[..n], 2);
  }

  /** A save that fails after it has replaced the chain file by another chain leaves a directory
      that does not load, until a later save completes. */
  lemma HalfSaveRefused(codec: Codec, settings: StoreSettings, attempts: seq<Attempt>)
    requires JsonLaws(codec) && NoChecksumCollision(codec, StatesOf(attempts))
    requires |attempts| >= 2 && Lands(codec, settings, attempts[|attempts| - 2])
    requires var half := attempts[|attempts| - 1];
      && half.landed == {0} && SizeOk(settings, codec.dumpChain(half.state.chain))
      && half.state.chain != attempts[|attempts| - 2].state.chain
    ensures Load(codec, settings, AfterAttempts(codec, settings, Files(None, None, None), attempts)).Refused?
  {
    HalfLanded(codec, settings, attempts);
    LoadAfterAttempts(codec, settings, attempts);
  }

  // ---------- what the checksum entries are good for ----------

  /** Position of the state whose stakes file is on disk, or None for a missing file. */
  predicate StakesPass(codec: Codec, states: seq<PersistedState>, s: Option<nat>, entry: Entry)
    requires s.Some? ==> s.value < |states|
  {
    if s.None? then entry.NoEntry? else Passes(entry, StakesChecksum(codec, states[s.value].genesisStakes))
  }

  function StakesRead(states: seq<PersistedState>, s: Option<nat>): map<string, int>
    requires s.Some? ==> s.value < |states|
  {
    if s.None? then map[] else states[s.value].genesisStakes
  }

  /** The chain file of one state, the stakes file of another or none, and the meta file of a
      third with arbitrary checksum entries. */
  function MixedFiles(codec: Codec, settings: StoreSettings, states: seq<PersistedState>, c: nat, s: Option<nat>, m: nat,
                      chainEntry: Entry, stakesEntry: Entry): Files
    requires c < |states| && (s.Some? ==> s.value < |states|) && m < |states|
  {
    var meta := MetaOf(codec, settings, states[m]).(chainChecksum := chainEntry, stakesChecksum := stakesEntry);
    Files(Some(codec.dumpChain(states[c].chain)),
          if s.None? then None else Some(codec.dumpStakes(states[s.value].genesisStakes)),
          Some(codec.dumpMeta(meta)))
  }

  /** A load under arbitrary entries: each file must pass its own entry, and nothing else is compared. */
  lemma LoadUnderEntries(codec: Codec, settings: StoreSettings, states: seq<PersistedState>, c: nat, s: Option<nat>, m: nat,
                         chainEntry: Entry, stakesEntry: Entry)
    requires JsonLaws(codec) && c < |states| && (s.Some? ==> s.value < |states|) && m < |states|
    requires SizeOk(settings, codec.dumpChain(states[c].chain))
    ensures var r := Load(codec, settings, MixedFiles(codec, settings, states, c, s, m, chainEntry, stakesEntry));
      if Passes(chainEntry, ChainChecksum(codec, states[c].chain)) && StakesPass(codec, states, s, stakesEntry)
      then r == Restored(PersistedState(states[c].chain, states[m].nodeId, states[m].genesisPrevHash, StakesRead(states, s)))
      else r.Refused?
  {
    var meta := MetaOf(codec, settings, states[m]).(chainChecksum := chainEntry, stakesChecksum := stakesEntry);
    assert codec.parseMeta(codec.dumpMeta(meta)) == Parsed(meta);
    LoadChainUnder(codec, settings, states[c].chain, chainEntry);
    if s.Some? {
      LoadStakesUnder(codec, states[s.value].genesisStakes, stakesEntry);
    }
  }

  /** The load succeeds with something that is not state m. */
  predicate Mixes(codec: Codec, settings: StoreSettings, states: seq<PersistedState>, c: nat, s: Option<nat>, m: nat,
                  chainEntry: Entry, stakesEntry: Entry)
    requires m < |states|
  {
    c < |states| && (s.Some? ==> s.value < |states|)
    && var r := Load(codec, settings, MixedFiles(codec, settings, states, c, s, m, chainEntry, stakesEntry));
      r.Restored? && r.state != states[m]
  }

  /** The entry is the one `save` wrote, or has been lost. */
  predicate SavedOrLost(entry: Entry, checksum: string) {
    entry == Text(checksum) || entry.NoEntry? || entry.NullEntry?
  }

  predicate OtherChain(states: seq<PersistedState>, c: nat, m: nat)
    requires m < |states|
  {
    c < |states| && states[c].chain != states[m].chain
  }

  predicate OtherStakes(states: seq<PersistedState>, s: nat, m: nat)
    requires m < |states|
  {
    s < |states| && states[s].genesisStakes != states[m].genesisStakes
  }

  /** A way to mix: a file that differs from what state m saved and passes its lost entry. */
  ghost predicate Open(states: seq<PersistedState>, m: nat, chainEntry: Entry, stakesEntry: Entry)
    requires m < |states|
  {
    || (!chainEntry.Text? && exists c: nat :: OtherChain(states, c, m))
    || (!stakesEntry.Text? && exists s: nat :: OtherStakes(states, s, m))
    || (stakesEntry.NoEntry? && states[m].genesisStakes != map[])
  }

  lemma MixNeedsOpening(codec: Codec, settings: StoreSettings, states: seq<PersistedState>, c: nat, s: Option<nat>, m: nat,
                        chainEntry: Entry, stakesEntry: Entry)
    requires JsonLaws(codec) && NoChecksumCollision(codec, states) && m < |states|
    requires forall i :: 0 <= i < |states| ==> SizeOk(settings, codec.dumpChain(states[i].chain))
    requires SavedOrLost(chainEntry, ChainChecksum(codec, states[m].chain))
    requires SavedOrLost(stakesEntry, StakesChecksum(codec, states[m].genesisStakes))
    requires Mixes(codec, settings, states, c, s, m, chainEntry, stakesEntry)
    ensures Open(states, m, chainEntry, stakesEntry)
  {
    LoadUnderEntries(codec, settings, states, c, s, m, chainEntry, stakesEntry);
    ChecksumsTell(codec, states, c, m);
    if states[c].chain != states[m].chain {
      assert OtherChain(states, c, m);
    } else if s.Some? {
      ChecksumsTell(codec, states, s.value, m);
      assert OtherStakes(states, s.value, m);
    }
  }

  lemma OpeningMixes(codec: Codec, settings: StoreSettings, states: seq<PersistedState>, m: nat, chainEntry: Entry, stakesEntry: Entry)
    returns (c: nat, s: Option<nat>)
    requires JsonLaws(codec) && m < |states|
    requires forall i :: 0 <= i < |states| ==> SizeOk(settings, codec.dumpChain(states[i].chain))
    requires SavedOrLost(chainEntry, ChainChecksum(codec, states[m].chain))
    requires SavedOrLost(stakesEntry, StakesChecksum(codec, states[m].genesisStakes))
    requires Open(states, m, chainEntry, stakesEntry)
    ensures Mixes(codec, settings, states, c, s, m, chainEntry, stakesEntry)
  {
    c, s := m, Some(m);
    if !chainEntry.Text? && exists c: nat :: OtherChain(states, c, m) {
      c :| OtherChain(states, c, m);
    } else if stakesEntry.NoEntry? && states[m].genesisStakes != map[] {
      s := None;
    } else {
      var other: nat :| OtherStakes(states, other, m);
      s := Some(other);
    }
    LoadUnderEntries(codec, settings, states, c, s, m, chainEntry, stakesEntry);
  }

  /** The checksum entries are exactly what prevents mixtures: under a meta file whose entries are
      as saved or lost, files of the saved states can be loaded into something else than its own
      state if and only if a lost entry lets another chain, other stakes or no stakes file pass. */
  lemma LostEntryMixesExactly(codec: Codec, settings: StoreSettings, states: seq<PersistedState>, m: nat,
                              chainEntry: Entry, stakesEntry: Entry)
    requires JsonLaws(codec) && NoChecksumCollision(codec, states) && m < |states|
    requires forall i :: 0 <= i < |states| ==> SizeOk(settings, codec.dumpChain(states[i].chain))
    requires SavedOrLost(chainEntry, ChainChecksum(codec, states[m].chain))
    requires SavedOrLost(stakesEntry, StakesChecksum(codec, states[m].genesisStakes))
    ensures (exists c: nat, s: Option<nat> :: Mixes(codec, settings, states, c, s, m, chainEntry, stakesEntry))
       <==> Open(states, m, chainEntry, stakesEntry)
  {
    if c: nat, s: Option<nat> :| Mixes(codec, settings, states, c, s, m, chainEntry, stakesEntry) {
      MixNeedsOpening(codec, settings, states, c, s, m, chainEntry, stakesEntry);
    }
    if Open(states, m, chainEntry, stakesEntry) {
      var c, s := OpeningMixes(codec, settings, states, m, chainEntry, stakesEntry);
      assert Mixes(codec, settings, states, c, s, m, chainEntry, stakesEntry);
    }
  }

  // ---------- exactly what is loaded ----------

  /** The size limit counts only if it is positive. */
  predicate WithinLimit(settings: StoreSettings, text: string) {
    settings.maxChainFileBytes > 0 ==> |text| <= settings.maxChainFileBytes
  }

  /** A load finds nothing exactly without a meta file. It restores a state exactly when the meta file has the
      schema version in force and that node id and genesis value, the chain file is there, within the
      limit and parses to that chain, the stakes file parses to numbers or things convertible to those
      stakes, or is missing as the meta file says and the stakes are none, and each file passes its entry. */
  lemma LoadExactly(codec: Codec, settings: StoreSettings, files: Files, state: PersistedState)
    ensures Load(codec, settings, files) == Nothing <==> files.meta.None?
    ensures Load(codec, settings, files) == Restored(state) <==>
      && files.meta.Some? && codec.parseMeta(files.meta.value).Parsed?
      && var meta := codec.parseMeta(files.meta.value).value;
      && (meta.schemaVersion == Number(settings.schemaVersion) || meta.schemaVersion == Convertible(settings.schemaVersion))
      && state.nodeId == meta.nodeId && state.genesisPrevHash == meta.genesisPrevHash
      && files.chain.Some? && WithinLimit(settings, files.chain.value)
      && codec.parseChain(files.chain.value) == Parsed(state.chain)
      && (meta.chainChecksum == NoEntry || meta.chainChecksum == NullEntry
          || meta.chainChecksum == Text(codec.sha(codec.canon(files.chain.value))))
      && (files.stakes.None? ==> meta.stakesChecksum == NoEntry && state.genesisStakes == map[])
      && (files.stakes.Some? ==>
            && codec.parseStakes(files.stakes.value).Parsed?
            && var stakes := codec.parseStakes(files.stakes.value).value;
            && stakes.Keys == state.genesisStakes.Keys
            && (forall v :: v in stakes ==>
                  stakes[v] == Number(state.genesisStakes[v]) || stakes[v] == Convertible(state.genesisStakes[v]))
            && (meta.stakesChecksum == NoEntry || meta.stakesChecksum == NullEntry
                || meta.stakesChecksum == Text(codec.sha(codec.canon(files.stakes.value)))))
  {
    if files.meta.Some? && codec.parseMeta(files.meta.value).Parsed? {
      StakesExactly(codec, files.stakes, codec.parseMeta(files.meta.value).value.stakesChecksum, state.genesisStakes);
    }
  }

  lemma StakesExactly(codec: Codec, file: Option<string>, entry: Entry, stakes: map<string, int>)
    ensures LoadStakes(codec, file, entry) == Success(stakes) <==>
      if file.None? then entry == NoEntry && stakes == map[]
      else
        && codec.parseStakes(file.value).Parsed?
        && var raw := codec.parseStakes(file.value).value;
        && raw.Keys == stakes.Keys
        && (forall v :: v in raw ==> raw[v] == Number(stakes[v]) || raw[v] == Convertible(stakes[v]))
        && (entry == NoEntry || entry == NullEntry || entry == Text(codec.sha(codec.canon(file.value))))
  {
    if file.Some? && codec.parseStakes(file.value).Parsed? {
      var raw := codec.parseStakes(file.value).value;
      if AllConvertible(raw) {
        ConvertedExactly(raw, stakes);
      } else {
        var v :| v in raw && raw[v].NotANumber?;
      }
    }
  }

  lemma ConvertedExactly(raw: map<string, JsonInt>, stakes: map<string, int>)
    requires AllConvertible(raw)
    ensures Converted(raw) == stakes <==>
      raw.Keys == stakes.Keys && forall v :: v in raw ==> raw[v] == Number(stakes[v]) || raw[v] == Convertible(stakes[v])
  {
    assert Converted(raw).Keys == raw.Keys;
    forall v | v in raw ensures raw[v] == Number(Converted(raw)[v]) || raw[v] == Convertible(Converted(raw)[v]) {
    }
    if raw.Keys == stakes.Keys && forall v :: v in raw ==> raw[v] == Number(stakes[v]) || raw[v] == Convertible(stakes[v]) {
      assert Converted(raw) == stakes;
    }
  }

  /** So another schema version is refused, and so is a chain file beyond the limit. */
  lemma WrongFilesRefused(codec: Codec, settings: StoreSettings, files: Files)
    requires files.meta.Some?
    requires
      || (codec.parseMeta(files.meta.value).Parsed?
          && var version := codec.parseMeta(files.meta.value).value.schemaVersion;
          && (version.NotANumber? || version.n != settings.schemaVersion))
      || (files.chain.Some? && settings.maxChainFileBytes > 0 && |files.chain.value| > settings.maxChainFileBytes)
    ensures Load(codec, settings, files).Refused?
  {
    var r := Load(codec, settings, files);
    if r.Restored? {
      LoadExactly(codec, settings, files, r.state);
    }
  }
}
