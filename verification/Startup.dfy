/** Starting a node from its data directory (`Node.__init__` and `_restore_chain` of node.py):
    what is loaded, the consensus the factory makes of it, and the stored chain checked against
    a registry that holds the node's own key only. */
module Startup {
  import opened Types
  import opened HashUtils
  import opened Rules
  import opened ChainValidator
  import opened Ledger
  import opened SyncSession
  import opened PersistWorker
  import opened NodeModel
  import opened ChainStore

  datatype Protocol = Working(pow: PowSettings) | Staking(pos: PosSettings)

  /** What a start-up is given besides the stored state: settings, the genesis stakes and node id
      it falls back on, and the signing key it ends up with (given, stored or generated). */
  datatype Setup = Setup(env: Crypto, genesis: string, protocol: Protocol, nodeId: string, stakes: map<string, int>,
                         key: string, limits: Limits)

  /** The state worked with is the stored one where it has a node id or stakes. */
  function ChosenId(setup: Setup, stored: Option<PersistedState>): string {
    if stored.Some? && stored.value.nodeId != "" then stored.value.nodeId else setup.nodeId
  }

  function ChosenStakes(setup: Setup, stored: Option<PersistedState>): map<string, int> {
    if stored.Some? && stored.value.genesisStakes != map[] then stored.value.genesisStakes else setup.stakes
  }

  /** Every stake passes `register_validator`. */
  predicate Registrable(stakes: map<string, int>, minStake: nat) {
    forall v :: v in stakes ==> stakes[v] >= minStake
  }

  function AsStakes(stakes: map<string, int>, minStake: nat): Stakes
    requires Registrable(stakes, minStake)
  {
    map v | v in stakes :: stakes[v]
  }

  /** The configuration after `create_consensus`. */
  function ConfigOf(setup: Setup, nodeId: string, stakes: map<string, int>): Result<Config> {
    match setup.protocol
    case Working(pow) => Success(Config(Pow(setup.env, setup.genesis, pow), Author(None, None, false), setup.limits, 0))
    case Staking(pos) =>
      if !Registrable(stakes, pos.minStake) then Failure("Stake is below minimum")
      else
        var genesis := AsStakes(stakes, pos.minStake);
        var keys := FactoryKeys(setup.env, genesis, Some(nodeId), Some(setup.key));
        Success(Config(Pos(setup.env, setup.genesis, pos.blockReward, keys, genesis),
                       Author(Some(nodeId), Some(setup.key), true), setup.limits, pos.minStake))
  }

  /** The configuration setting by setting: genesis value and protocol parameters as given; under PoS exactly
      if every stake reaches the minimum, with the stakes as given and no key but the node's own. */
  lemma ConfigExactly(setup: Setup, nodeId: string, stakes: map<string, int>)
    requires nodeId != ""
    ensures var made := ConfigOf(setup, nodeId, stakes);
      && (setup.protocol.Working? ==>
            && made.Success? && made.value.limits == setup.limits
            && made.value.rules == Pow(setup.env, setup.genesis, setup.protocol.pow))
      && (setup.protocol.Staking? ==>
            && (made.Success? <==> forall v :: v in stakes ==> stakes[v] >= setup.protocol.pos.minStake)
            && (made.Success? ==>
                  var cfg := made.value;
                  && cfg.rules.Pos? && cfg.rules.env == setup.env && cfg.rules.genesis == setup.genesis
                  && cfg.rules.reward == setup.protocol.pos.blockReward && cfg.minStake == setup.protocol.pos.minStake
                  && cfg.rules.stakes.Keys == stakes.Keys && (forall v :: v in stakes ==> cfg.rules.stakes[v] == stakes[v])
                  && cfg.rules.keys == map[nodeId := setup.env.publicKey(setup.key)]
                  && cfg.author == Author(Some(nodeId), Some(setup.key), true) && cfg.limits == setup.limits))
  {
  }

  datatype Running = Running(nodeId: string, stakes: map<string, int>, cfg: Config, state: NodeState)

  ghost function StartFrom(setup: Setup, stored: Option<PersistedState>): Result<Running> {
    var nodeId, stakes := ChosenId(setup, stored), ChosenStakes(setup, stored);
    match ConfigOf(setup, nodeId, stakes)
    case Failure(error) => Failure(error)
    case Success(cfg) =>
      match if stored.None? then Boot(cfg, None, "") else Boot(cfg, Some(stored.value.chain), stored.value.genesisPrevHash)
      case Failure(error) => Failure(error)
      case Success(state) => Success(Running(nodeId, stakes, cfg, state))
  }

  /** `__init__` on what `load` has found. */
  ghost function Start(setup: Setup, found: Loaded): Result<Running> {
    match found
    case Refused(error) => Failure(error)
    case Nothing => StartFrom(setup, None)
    case Restored(state) => StartFrom(setup, Some(state))
  }

  /** What a node that started with `setup` writes when its chain is `chain`. */
  function Written(setup: Setup, nodeId: string, stakes: map<string, int>, chain: Chain): PersistedState {
    PersistedState(chain, nodeId, setup.genesis, stakes)
  }

  /** `cfg` is the configuration of a node that started with `setup`; other keys may have been registered since. */
  ghost predicate StartedWith(setup: Setup, nodeId: string, stakes: map<string, int>, cfg: Config) {
    && nodeId != "" && (stakes == map[] ==> setup.stakes == map[])
    && SignaturesVerify(setup.env)
    && var first := ConfigOf(setup, nodeId, stakes);
    && first.Success?
    && (cfg == first.value || (cfg.rules.Pos? && first.value.rules.Pos? && cfg == first.value.(rules := first.value.rules.(keys := cfg.rules.keys))))
  }

  /** The setup of a later start: the fallback node id and the signing key may differ. */
  ghost predicate SameSettings(setup: Setup, again: Setup) {
    again == setup.(nodeId := again.nodeId, key := again.key)
  }

  /** The node proposed every block itself and signed it with `key`. */
  predicate OwnBlocks(setup: Setup, nodeId: string, key: string, chain: Chain) {
    forall i :: 0 <= i < |chain| ==> chain[i].header.validatorId == Some(nodeId) && chain[i].publicKey == Some(setup.env.publicKey(key))
  }

  /** A start from a stored state succeeds with a healthy node on the stored chain. */
  ghost predicate StartsOn(r: Result<Running>, nodeId: string, stakes: map<string, int>, chain: Chain) {
    r.Success? && r.value.nodeId == nodeId && r.value.stakes == stakes && r.value.state.book.chain == chain
    && !r.value.cfg.rules.Legacy? && Healthy(r.value.cfg, r.value.state)
  }

  /** The rules under which the stored chain is checked again. */
  lemma ValidAgain(setup: Setup, again: Setup, nodeId: string, stakes: map<string, int>, cfg: Config, chain: Chain)
    requires StartedWith(setup, nodeId, stakes, cfg) && SameSettings(setup, again) && ValidChain(cfg.rules, chain)
    ensures ConfigOf(again, nodeId, stakes).Success?
    ensures ValidChain(ConfigOf(again, nodeId, stakes).value.rules, chain)
       <==> (setup.protocol.Staking? ==> OwnBlocks(setup, nodeId, again.key, chain))
  {
    if setup.protocol.Staking? {
      var rules := ConfigOf(again, nodeId, stakes).value.rules;
      assert rules.keys == map[nodeId := setup.env.publicKey(again.key)];
      assert rules == cfg.rules.(keys := rules.keys);
      ValidUnderKeys(cfg.rules, rules.keys, chain);
      assert forall b :: KeyKnown(rules.keys, b) <==>
        b.header.validatorId == Some(nodeId) && b.publicKey == Some(setup.env.publicKey(again.key));
    }
  }

  /** A restart from what a node has saved succeeds, on exactly that chain, if and only if the node
      runs proof of work or every saved block is its own, signed with the key it restarts with. */
  lemma RestartExactly(setup: Setup, again: Setup, nodeId: string, stakes: map<string, int>, cfg: Config, chain: Chain)
    requires StartedWith(setup, nodeId, stakes, cfg) && SameSettings(setup, again) && ValidChain(cfg.rules, chain)
    ensures var r := StartFrom(again, Some(Written(setup, nodeId, stakes, chain)));
      && (r.Success? <==> (setup.protocol.Staking? ==> OwnBlocks(setup, nodeId, again.key, chain)))
      && (r.Success? ==> StartsOn(r, nodeId, stakes, chain))
      && (r.Failure? ==> r.error == "Persisted chain failed integrity verification")
  {
    ValidAgain(setup, again, nodeId, stakes, cfg, chain);
    var next := ConfigOf(again, nodeId, stakes).value;
    VerifiedIsValid(next.rules, chain);
    if Boot(next, Some(chain), setup.genesis).Success? {
      BootHealthy(next, Some(chain), setup.genesis);
    }
  }

  /** One block of another validator is enough to refuse the restart. */
  lemma ForeignBlockStopsRestart(setup: Setup, again: Setup, nodeId: string, stakes: map<string, int>, cfg: Config, chain: Chain, i: nat)
    requires StartedWith(setup, nodeId, stakes, cfg) && SameSettings(setup, again) && ValidChain(cfg.rules, chain)
    requires setup.protocol.Staking? && i < |chain| && chain[i].header.validatorId != Some(nodeId)
    ensures StartFrom(again, Some(Written(setup, nodeId, stakes, chain))) == Failure("Persisted chain failed integrity verification")
  {
    RestartExactly(setup, again, nodeId, stakes, cfg, chain);
  }

  // ---------- start-up after saves that were cut short ----------

  /** A start that finds nothing holds the empty chain under the given id. */
  lemma FreshStart(setup: Setup)
    requires SignaturesVerify(setup.env) && setup.nodeId != "" && ConfigOf(setup, setup.nodeId, setup.stakes).Success?
    ensures StartsOn(Start(setup, Nothing), setup.nodeId, setup.stakes, [])
  {
    BootHealthy(ConfigOf(setup, setup.nodeId, setup.stakes).value, None, "");
  }

  /** A restart on a saved chain, or on nothing that can be loaded. */
  lemma StartOnSurvivor(setup: Setup, again: Setup, nodeId: string, stakes: map<string, int>, cfg: Config, chain: Chain, found: Loaded)
    requires StartedWith(setup, nodeId, stakes, cfg) && SameSettings(setup, again) && ValidChain(cfg.rules, chain)
    requires found == Restored(Written(setup, nodeId, stakes, chain)) || found.Refused?
    ensures var r := Start(again, found);
      && (r.Success? <==> found.Restored? && (setup.protocol.Staking? ==> OwnBlocks(setup, nodeId, again.key, chain)))
      && (r.Success? ==> StartsOn(r, nodeId, stakes, chain))
  {
    RestartExactly(setup, again, nodeId, stakes, cfg, chain);
  }

  /** The state was saved by the node, with a chain that verifies. */
  ghost predicate SavedBy(setup: Setup, nodeId: string, stakes: map<string, int>, cfg: Config, state: PersistedState) {
    state == Written(setup, nodeId, stakes, state.chain) && ValidChain(cfg.rules, state.chain)
  }

  /** Through any number of saves cut short by crashes or failures: without a meta file a start is a
      fresh one. Otherwise it succeeds if and only if the chain file holds the chain the meta file was
      written with, a stakes file is there and, under proof of stake, every block of that chain is
      the node's own under the key it starts with. It is then healthy on that chain. */
  lemma StartAfterAttempts(codec: Codec, settings: StoreSettings, setup: Setup, again: Setup, nodeId: string, stakes: map<string, int>,
                           cfg: Config, attempts: seq<Attempt>)
    requires StartedWith(setup, nodeId, stakes, cfg) && SameSettings(setup, again) && again.nodeId != ""
    requires JsonLaws(codec) && NoChecksumCollision(codec, StatesOf(attempts))
    requires forall k :: 0 <= k < |attempts| ==> SavedBy(setup, nodeId, stakes, cfg, attempts[k].state)
    ensures var r := Start(again, Load(codec, settings, AfterAttempts(codec, settings, Files(None, None, None), attempts)));
      var c, s := LastLanded(codec, settings, attempts, 0), LastLanded(codec, settings, attempts, 1);
      var m := LastLanded(codec, settings, attempts, 2);
      if m.None? then
        (r.Success? <==> ConfigOf(again, again.nodeId, again.stakes).Success?) && (r.Success? ==> StartsOn(r, again.nodeId, again.stakes, []))
      else
        var chain := attempts[m.value].state.chain;
        && (r.Success? <==>
             c.Some? && s.Some? && attempts[c.value].state.chain == chain
             && (setup.protocol.Staking? ==> OwnBlocks(setup, nodeId, again.key, chain)))
        && (r.Success? ==> StartsOn(r, nodeId, stakes, chain))
  {
    LoadAfterAttempts(codec, settings, attempts);
    var m := LastLanded(codec, settings, attempts, 2);
    if m.Some? {
      assert SavedBy(setup, nodeId, stakes, cfg, attempts[m.value].state);
      StartOnSurvivor(setup, again, nodeId, stakes, cfg, attempts[m.value].state.chain,
                      Load(codec, settings, AfterAttempts(codec, settings, Files(None, None, None), attempts)));
      assert forall k :: 0 <= k < |attempts| ==> attempts[k].state.genesisStakes == stakes;
    } else if ConfigOf(again, again.nodeId, again.stakes).Success? {
      FreshStart(again);
    }
  }

  // ---------- start-up after a crash of a running node ----------

  /** The attempts are the node's saves: a complete one has landed, a failed one in any part. */
  ghost predicate Realizes(codec: Codec, settings: StoreSettings, setup: Setup, nodeId: string, stakes: map<string, int>,
                           attempts: seq<Attempt>, saves: seq<Save<Chain>>) {
    |attempts| == |saves|
    && forall k :: 0 <= k < |attempts| ==>
      && attempts[k].state == Written(setup, nodeId, stakes, saves[k].value)
      && (saves[k].complete ==> Lands(codec, settings, attempts[k]))
  }

  lemma {:induction false} LandedOnce(codec: Codec, settings: StoreSettings, attempts: seq<Attempt>, step: int)
    requires attempts != [] && Lands(codec, settings, attempts[0]) && 0 <= step <= 2
    ensures LastLanded(codec, settings, attempts, step).Some?
  {
    if |attempts| > 1 {
      LandedOnce(codec, settings, attempts[..|attempts| - 1], step);
    }
  }

  /** The saves of a run and the one that the crash cuts short. */
  function WithCrash(setup: Setup, nodeId: string, stakes: map<string, int>, attempts: seq<Attempt>, memory: Chain, landed: set<int>): seq<Attempt> {
    attempts + [Attempt(Written(setup, nodeId, stakes, memory), landed)]
  }

  lemma CrashSavesSound(codec: Codec, settings: StoreSettings, setup: Setup, nodeId: string, stakes: map<string, int>,
                        cfg: Config, s: NodeState, attempts: seq<Attempt>, landed: set<int>)
    requires StartedWith(setup, nodeId, stakes, cfg) && Healthy(cfg, s)
    requires Realizes(codec, settings, setup, nodeId, stakes, attempts, s.saver.saves)
    ensures var all := WithCrash(setup, nodeId, stakes, attempts, s.book.chain, landed);
      && (forall k :: 0 <= k < |all| ==> SavedBy(setup, nodeId, stakes, cfg, all[k].state))
      && LastLanded(codec, settings, all, 0).Some? && LastLanded(codec, settings, all, 1).Some? && LastLanded(codec, settings, all, 2).Some?
  {
    var all := WithCrash(setup, nodeId, stakes, attempts, s.book.chain, landed);
    LandedOnce(codec, settings, all, 0);
    LandedOnce(codec, settings, all, 1);
    LandedOnce(codec, settings, all, 2);
  }

  /** A node dies at any moment of any run, whatever saves have failed half-way before, and any part of
      a save in progress has landed. It starts again if and only if the chain file and the meta file
      were last written with the same chain and, under proof of stake, every block of it is its
      own under the key it restarts with. It is then healthy on that chain. */
  lemma StartAfterCrash(codec: Codec, settings: StoreSettings, setup: Setup, again: Setup, nodeId: string, stakes: map<string, int>,
                        cfg: Config, s: NodeState, attempts: seq<Attempt>, landed: set<int>)
    requires StartedWith(setup, nodeId, stakes, cfg) && SameSettings(setup, again) && again.nodeId != "" && Healthy(cfg, s)
    requires Realizes(codec, settings, setup, nodeId, stakes, attempts, s.saver.saves)
    requires var all := WithCrash(setup, nodeId, stakes, attempts, s.book.chain, landed);
      JsonLaws(codec) && NoChecksumCollision(codec, StatesOf(all))
    ensures var all := WithCrash(setup, nodeId, stakes, attempts, s.book.chain, landed);
      var c, m := LastLanded(codec, settings, all, 0), LastLanded(codec, settings, all, 2);
      var r := Start(again, Load(codec, settings, AfterAttempts(codec, settings, Files(None, None, None), all)));
      && c.Some? && m.Some?
      && var chain := all[m.value].state.chain;
      && (r.Success? <==>
           all[c.value].state.chain == chain && (setup.protocol.Staking? ==> OwnBlocks(setup, nodeId, again.key, chain)))
      && (r.Success? ==> StartsOn(r, nodeId, stakes, chain))
  {
    var all := WithCrash(setup, nodeId, stakes, attempts, s.book.chain, landed);
    CrashSavesSound(codec, settings, setup, nodeId, stakes, cfg, s, attempts, landed);
    StartAfterAttempts(codec, settings, setup, again, nodeId, stakes, cfg, all);
  }

  lemma LastOfCrash(codec: Codec, settings: StoreSettings, attempts: seq<Attempt>, crash: Attempt, step: int)
    requires attempts != [] && Lands(codec, settings, attempts[|attempts| - 1]) && 0 <= step <= 2
    ensures LastLanded(codec, settings, attempts + [crash], step) ==
      Some(if step in crash.landed && SizeOk(settings, codec.dumpChain(crash.state.chain)) then |attempts| else |attempts| - 1)
  {
    assert (attempts + [crash])[..|attempts|] == attempts;
  }

  /** If the last save before the crash was complete, the chain that survives is the one on disk or, if the
      meta file has landed, the one in memory; the two files belong together exactly when both or
      neither have landed, or the chains are equal. */
  lemma StartAfterCleanSave(codec: Codec, settings: StoreSettings, setup: Setup, again: Setup, nodeId: string, stakes: map<string, int>,
                            cfg: Config, s: NodeState, attempts: seq<Attempt>, landed: set<int>)
    requires StartedWith(setup, nodeId, stakes, cfg) && SameSettings(setup, again) && again.nodeId != "" && Healthy(cfg, s)
    requires Realizes(codec, settings, setup, nodeId, stakes, attempts, s.saver.saves) && s.saver.saves[|s.saver.saves| - 1].complete
    requires var all := WithCrash(setup, nodeId, stakes, attempts, s.book.chain, landed);
      JsonLaws(codec) && NoChecksumCollision(codec, StatesOf(all))
    ensures var all := WithCrash(setup, nodeId, stakes, attempts, s.book.chain, landed);
      var r := Start(again, Load(codec, settings, AfterAttempts(codec, settings, Files(None, None, None), all)));
      var kept := if SizeOk(settings, codec.dumpChain(s.book.chain)) then landed else {};
      var survivor := if 2 in kept then s.book.chain else s.saver.disk;
      && (r.Success? <==>
           ((0 in kept <==> 2 in kept) || s.saver.disk == s.book.chain)
           && (setup.protocol.Staking? ==> OwnBlocks(setup, nodeId, again.key, survivor)))
      && (r.Success? ==> StartsOn(r, nodeId, stakes, survivor))
  {
    StartAfterCrash(codec, settings, setup, again, nodeId, stakes, cfg, s, attempts, landed);
    var crash := Attempt(Written(setup, nodeId, stakes, s.book.chain), landed);
    LastOfCrash(codec, settings, attempts, crash, 0);
    LastOfCrash(codec, settings, attempts, crash, 2);
  }

  // ---------- start-up after the first save ----------

  /** The load after the first save into an empty directory was cut short. */
  lemma LoadAfterFirstCut(codec: Codec, settings: StoreSettings, first: PersistedState, landed: set<int>)
    requires JsonLaws(codec) && SizeOk(settings, codec.dumpChain(first.chain))
    ensures var found := Load(codec, settings, Land(Files(None, None, None), SaveSteps(codec, settings, first), landed));
      if 2 !in landed then found == Nothing
      else if 0 in landed && 1 in landed then found == Restored(first)
      else found.Refused?
  {
    var steps := SaveSteps(codec, settings, first);
    Land3(Files(None, None, None), steps[0], steps[1], steps[2], landed);
    LoadSavedFiles(codec, settings, first, first, first);
    assert codec.parseMeta(codec.dumpMeta(MetaOf(codec, settings, first))) == Parsed(MetaOf(codec, settings, first));
  }

  /** A new node dies during its first save, of the empty chain. It starts again if and only if the
      meta file has not landed without the other two. */
  lemma StartAfterFirstCrash(codec: Codec, settings: StoreSettings, setup: Setup, again: Setup, landed: set<int>)
    requires SignaturesVerify(setup.env) && setup.nodeId != "" && again.nodeId != "" && SameSettings(setup, again)
    requires ConfigOf(setup, setup.nodeId, setup.stakes).Success?
    requires JsonLaws(codec) && SizeOk(settings, codec.dumpChain([]))
    ensures var first := Written(setup, setup.nodeId, setup.stakes, []);
      var r := Start(again, Load(codec, settings, Land(Files(None, None, None), SaveSteps(codec, settings, first), landed)));
      && (r.Success? <==> (2 in landed ==> 0 in landed && 1 in landed))
      && (r.Success? ==> StartsOn(r, if 2 in landed then setup.nodeId else again.nodeId, setup.stakes, []))
  {
    var first := Written(setup, setup.nodeId, setup.stakes, []);
    LoadAfterFirstCut(codec, settings, first, landed);
    EmptyRestart(setup, again);
    FreshStart(again);
  }

  /** A node with an empty chain has nothing of others on disk. */
  lemma EmptyRestart(setup: Setup, again: Setup)
    requires SignaturesVerify(setup.env) && setup.nodeId != "" && SameSettings(setup, again)
    requires ConfigOf(setup, setup.nodeId, setup.stakes).Success?
    ensures StartsOn(Start(again, Restored(Written(setup, setup.nodeId, setup.stakes, []))), setup.nodeId, setup.stakes, [])
  {
    RestartExactly(setup, again, setup.nodeId, setup.stakes, ConfigOf(setup, setup.nodeId, setup.stakes).value, []);
  }

  // ---------- runs from a start ----------

  /** A proof-of-stake node stays healthy over every run from its start, with no proviso:
      the factory has registered the key it signs with. */
  lemma StakeNodeStaysHealthy(setup: Setup, found: Loaded, events: seq<Event>)
    requires setup.protocol.Staking? && SignaturesVerify(setup.env) && setup.nodeId != ""
    requires Start(setup, found).Success?
    ensures var node := Start(setup, found).value; Healthy(node.cfg, RunNode(node.cfg, node.state, events))
  {
    var node := Start(setup, found).value;
    var stored := if found.Restored? then Some(found.state) else None;
    assert node.nodeId == ChosenId(setup, stored) != "";
    if stored.Some? {
      BootHealthy(node.cfg, Some(stored.value.chain), stored.value.genesisPrevHash);
    } else {
      BootHealthy(node.cfg, None, "");
    }
    KeyedRunAdmissible(node.cfg, node.state, events);
    RunHealthy(node.cfg, node.state, events);
  }
}
