/** The two consensus objects (the classes of consensus/pow.py and consensus/pos.py). */
module Engines {
  import opened Types
  import opened HashUtils
  import opened ConsensusBase
  import opened StakeMaps
  import opened Rules
  import opened ForkChoice
  import Work = ProofOfWork
  import Stake = ProofOfStake

  /** The valid chains among `chains`, in order. */
  ghost function ValidOnly(r: Rules, chains: seq<Chain>): (valid: seq<Chain>)
    ensures forall c :: c in valid ==> ValidChain(r, c)
  {
    if chains == [] then []
    else
      var last := chains[|chains| - 1];
      ValidOnly(r, chains[..|chains| - 1]) + (if ValidChain(r, last) then [last] else [])
  }

  lemma {:induction false} BestOfValid(r: Rules, chains: seq<Chain>)
    requires !r.Legacy?
    ensures BestOf(r, ValidOnly(r, chains)) == BestOf(r, chains)
  {
    if chains != [] {
      var front, last := chains[..|chains| - 1], chains[|chains| - 1];
      BestOfValid(r, front);
      if ValidChain(r, last) {
        assert (ValidOnly(r, front) + [last])[..|ValidOnly(r, front)|] == ValidOnly(r, front);
      } else {
        assert ValidOnly(r, chains) == ValidOnly(r, front);
      }
    }
  }

  lemma ValidOnlyStep(r: Rules, chains: seq<Chain>, i: nat)
    requires i < |chains|
    ensures ValidOnly(r, chains[..i + 1]) == ValidOnly(r, chains[..i]) + (if ValidChain(r, chains[i]) then [chains[i]] else [])
  {
    assert chains[..i + 1][..i] == chains[..i];
  }

  lemma BestOfFirst(r: Rules, chains: seq<Chain>)
    requires !r.Legacy? && chains != [] && ValidChain(r, chains[0])
    ensures BestOf(r, chains[..1]) == Some(chains[0])
  {
    assert chains[..1][..0] == [];
  }

  lemma BestOfStep(r: Rules, chains: seq<Chain>, i: nat)
    requires !r.Legacy? && i < |chains| && ValidChain(r, chains[i]) && BestOf(r, chains[..i]).Some?
    ensures var best := BestOf(r, chains[..i]).value;
      BestOf(r, chains[..i + 1]) == Some(if ScoreLt(ScoreOf(r, best), ScoreOf(r, chains[i])) then chains[i] else best)
  {
    assert chains[..i + 1][..i] == chains[..i];
  }

  /** The outcome of the filter: an exception of a check, or the valid chains. */
  ghost function Filtered(r: Rules, chains: seq<Chain>): Result<seq<Chain>> {
    var raised := FirstRaise(r, chains);
    if raised.Some? then Failure(raised.value) else Success(ValidOnly(r, chains))
  }

  class ProofOfWork {
    const env: Crypto
    const settings: PowSettings
    const genesisPrevHash: string

    constructor (env: Crypto, settings: PowSettings, genesisPrevHash: string)
      ensures this.env == env && this.settings == settings && this.genesisPrevHash == genesisPrevHash
    {
      this.env := env;
      this.settings := settings;
      this.genesisPrevHash := genesisPrevHash;
    }

    function TheRules(): Rules {
      Pow(env, genesisPrevHash, settings)
    }

    /** One round of `_is_chain_valid`. */
    method CheckNext(chain: Chain, index: nat) returns (v: Verdict)
      requires index < |chain|
      ensures v == SelectorVerdict(TheRules(), chain[..index], chain[index])
    {
      var previous := if index > 0 then Some(chain[index - 1]) else None;
      assert previous == Tip(chain[..index]);
      v := ValidateChainLink(chain[index], previous, genesisPrevHash);
      if v.Valid? {
        v := Work.ValidateBlock(env, settings, chain[index], chain[..index]);
      }
    }

    /** The pass over the chain. */
    method CheckAll(chain: Chain) returns (v: Verdict)
      ensures v == CheckChain(TheRules(), chain)
    {
      ghost var r := TheRules();
      ghost var outcome := CheckChain(r, chain);
      var index := 0;
      while index < |chain|
        invariant 0 <= index <= |chain|
        invariant outcome == CheckFrom(r, chain, index)
      {
        v := CheckNext(chain, index);
        CheckRound(r, chain, index, v);
        if !v.Valid? {
          return;
        }
        index := index + 1;
      }
      v := Valid;
    }

    /** `_is_chain_valid`. */
    method IsChainValid(chain: Chain) returns (ok: Result<bool>)
      ensures ok == Answer(CheckChain(TheRules(), chain))
      ensures ok == Success(true) <==> ValidChain(TheRules(), chain)
      ensures ok.Failure? <==> CheckChain(TheRules(), chain).Raises?
    {
      CheckedIsValid(TheRules(), chain);
      var v := CheckAll(chain);
      ok := Answer(v);
    }

    /** `_total_difficulty`. */
    method SumDifficulty(chain: Chain) returns (total: int)
      ensures total == TotalDifficulty(chain)
    {
      total := 0;
      for i := 0 to |chain|
        invariant total == TotalDifficulty(chain[..i])
      {
        assert chain[..i + 1][..i] == chain[..i];
        total := total + GetOr(chain[i].header.difficulty, 0);
      }
      assert chain[..|chain|] == chain;
    }

    /** The filter of `select_canonical_chain`. */
    method KeepValid(chains: seq<Chain>) returns (valid: Result<seq<Chain>>)
      ensures valid == Filtered(TheRules(), chains)
    {
      var kept := [];
      for i := 0 to |chains|
        invariant kept == ValidOnly(TheRules(), chains[..i])
        invariant FirstRaise(TheRules(), chains) == FirstRaise(TheRules(), chains[i..])
      {
        var ok := IsChainValid(chains[i]);
        ValidOnlyStep(TheRules(), chains, i);
        if ok.Failure? {
          return Failure(ok.error);
        }
        if ok.value {
          kept := kept + [chains[i]];
        }
      }
      assert chains[..|chains|] == chains;
      valid := Success(kept);
    }

    /** `select_canonical_chain`. */
    method SelectCanonicalChain(chains: seq<Chain>) returns (selected: Result<Chain>)
      ensures selected == Select(TheRules(), chains)
    {
      var kept := KeepValid(chains);
      if kept.Failure? {
        return Failure(kept.error);
      }
      BestOfValid(TheRules(), chains);
      var best := Best(kept.value);
      selected := Success(best);
    }

    /** `max(valid_chains, key=...)`, or the empty list. */
    method Best(valid: seq<Chain>) returns (best: Chain)
      requires forall c :: c in valid ==> ValidChain(TheRules(), c)
      ensures best == Canonical(TheRules(), valid)
    {
      ghost var r := TheRules();
      if valid == [] {
        return [];
      }
      best := valid[0];
      var work := SumDifficulty(best);
      BestOfFirst(r, valid);
      for i := 1 to |valid|
        invariant BestOf(r, valid[..i]) == Some(best)
        invariant work == TotalDifficulty(best)
      {
        BestOfStep(r, valid, i);
        var candidate := SumDifficulty(valid[i]);
        if candidate > work || (candidate == work && |valid[i]| > |best|) {
          best, work := valid[i], candidate;
        }
      }
      assert valid[..|valid|] == valid;
    }
  }

  class ProofOfStake {
    const env: Crypto
    const settings: PosSettings
    const genesisPrevHash: string
    const privateKey: Option<string>
    var nodeValidatorId: Option<string>
    var validators: Stakes
    var genesisStakes: Option<Stakes>
    var validatorPublicKeys: map<string, string>

    constructor (env: Crypto, settings: PosSettings, genesisPrevHash: string, privateKey: Option<string>,
                 nodeValidatorId: Option<string>, genesisStakes: Option<Stakes>)
      ensures this.env == env && this.settings == settings && this.genesisPrevHash == genesisPrevHash
      ensures this.privateKey == privateKey && this.nodeValidatorId == nodeValidatorId
      ensures validators == map[] && this.genesisStakes == genesisStakes && validatorPublicKeys == map[]
    {
      this.env := env;
      this.settings := settings;
      this.genesisPrevHash := genesisPrevHash;
      this.privateKey := privateKey;
      this.nodeValidatorId := nodeValidatorId;
      this.validators := map[];
      this.genesisStakes := genesisStakes;
      this.validatorPublicKeys := map[];
    }

    /** The rules a replay from `stakes` follows. */
    function TheRules(stakes: Stakes): Rules
      reads this
    {
      Pos(env, genesisPrevHash, settings.blockReward, validatorPublicKeys, stakes)
    }

    /** `register_validator`; an empty PEM counts as none. */
    method RegisterValidator(id: string, stake: nat, pem: Option<string>) returns (registered: bool)
      modifies this`validators, this`validatorPublicKeys
      ensures registered <==> stake >= settings.minStake
      ensures validators == if registered then old(validators)[id := stake] else old(validators)
      ensures validatorPublicKeys ==
        if registered then Stake.RegisteredKeys(env, old(validatorPublicKeys), nodeValidatorId, privateKey, id, pem)
        else old(validatorPublicKeys)
    {
      if stake < settings.minStake {
        return false;
      }
      validators := validators[id := stake];
      if pem.Some? && pem.value != "" {
        validatorPublicKeys := validatorPublicKeys[id := pem.value];
      } else if nodeValidatorId == Some(id) && privateKey.Some? {
        validatorPublicKeys := validatorPublicKeys[id := env.publicKey(privateKey.value)];
      }
      registered := true;
    }

    /** `compute_validators_from_chain`: the replay loop. */
    method ComputeValidatorsFromChain(chain: Chain, genesis: Stakes) returns (m: Stakes)
      ensures m == Replay(chain, genesis, settings.blockReward)
    {
      m := genesis;
      for i := 0 to |chain|
        invariant m == Replay(chain[..i], genesis, settings.blockReward)
      {
        assert chain[..i + 1][..i] == chain[..i];
        m := Reward(m, chain[i], settings.blockReward);
      }
      assert chain[..|chain|] == chain;
    }

    /** `validate_block`; `length` is the length of the chain passed along. */
    method ValidateBlock(b: Block, length: nat, validatorsAtState: Option<Stakes>, expectedHeight: Option<int>)
      returns (v: Verdict)
      ensures v == Stake.ValidateBlock(env, validatorPublicKeys, b, GetOr(expectedHeight, length + 1),
                                       GetOr(validatorsAtState, validators))
    {
      var stakes := GetOr(validatorsAtState, validators);
      var h := b.header;
      if h.consensusType != Some("pos") {
        return Invalid("consensus_type is not pos");
      }
      if h.validatorId.None? || h.validatorId.value == "" || h.slot.None? || h.slot.value < 0 {
        return Invalid("missing PoS fields");
      }
      if stakes == map[] {
        return Invalid("no validators registered");
      }
      if h.slot.value != GetOr(expectedHeight, length + 1) {
        return Invalid("slot does not match block height");
      }
      if h.validatorId.value !in stakes {
        return Invalid("unknown validator");
      }
      if !Stake.HasDict(b) || h.prevHash.None? || h.tranHash.None? {
        return Invalid("missing PoS fields");
      }
      var proposer := SelectProposer(env, h.slot.value, stakes);
      if proposer.Failure? {
        return Raises(proposer.error);
      }
      v := Stake.ValidateSeal(env, validatorPublicKeys, b, proposer.value);
    }

    /** `prepare_block`: stakes come from the chain whenever genesis stakes are set. */
    method PrepareBlock(b: Block, chain: Chain) returns (r: Result<Block>)
      requires b.header.prevHash.Some? && b.body.Some?
      ensures r == Stake.Proposed(env, nodeValidatorId, privateKey, b, |chain| + 1,
                                  if genesisStakes.Some? then Replay(chain, genesisStakes.value, settings.blockReward)
                                  else validators)
    {
      var slot := |chain| + 1;
      var stakes := validators;
      if genesisStakes.Some? {
        stakes := ComputeValidatorsFromChain(chain, genesisStakes.value);
      }
      var proposer := SelectProposer(env, slot, stakes);
      if proposer.Failure? {
        return Failure(proposer.error);
      }
      if nodeValidatorId.None? {
        return Failure("node_validator_id is not set");
      }
      if proposer.value != nodeValidatorId.value {
        return Failure("Not proposer for slot");
      }
      if privateKey.None? {
        return Failure("Private key required for PoS block proposal");
      }
      r := Success(Stake.Sealed(env, privateKey.value, b, proposer.value, slot));
    }

    /** `on_block_added`. */
    method OnBlockAdded(b: Block)
      modifies this`validators
      ensures validators == Reward(old(validators), b, settings.blockReward)
    {
      validators := Reward(validators, b, settings.blockReward);
    }

    /** `sync_validators_from_chain`. */
    method SyncValidatorsFromChain(chain: Chain, stakes: Stakes)
      modifies this`validators, this`genesisStakes
      ensures genesisStakes == Some(stakes)
      ensures validators == Replay(chain, stakes, settings.blockReward)
    {
      genesisStakes := Some(stakes);
      var m := ComputeValidatorsFromChain(chain, stakes);
      validators := m;
    }

    /** One round of `validate_chain_with_genesis_stakes`; `m` holds the stakes so far. */
    method CheckNext(chain: Chain, stakes: Stakes, index: nat, m: Stakes) returns (v: Verdict)
      requires index < |chain| && m == Replay(chain[..index], stakes, settings.blockReward)
      ensures v == SelectorVerdict(TheRules(stakes), chain[..index], chain[index])
    {
      var previous := if index > 0 then Some(chain[index - 1]) else None;
      assert previous == Tip(chain[..index]);
      v := ValidateChainLink(chain[index], previous, genesisPrevHash);
      if v.Valid? {
        v := ValidateBlock(chain[index], |chain|, Some(m), Some(index + 1));
      }
    }

    /** The pass over the chain: replays and checks at once. */
    method CheckAll(chain: Chain, stakes: Stakes) returns (v: Verdict)
      ensures v == CheckChain(TheRules(stakes), chain)
    {
      ghost var r := TheRules(stakes);
      ghost var outcome := CheckChain(r, chain);
      var m := stakes;
      var index := 0;
      while index < |chain|
        invariant 0 <= index <= |chain|
        invariant m == Replay(chain[..index], stakes, settings.blockReward)
        invariant outcome == CheckFrom(r, chain, index)
      {
        v := CheckNext(chain, stakes, index, m);
        CheckRound(r, chain, index, v);
        if !v.Valid? {
          return;
        }
        assert chain[..index + 1][..index] == chain[..index];
        m := Reward(m, chain[index], settings.blockReward);
        index := index + 1;
      }
      v := Valid;
    }

    /** `validate_chain_with_genesis_stakes`. */
    method ValidateChainWithGenesisStakes(chain: Chain, stakes: Stakes) returns (ok: Result<bool>)
      ensures ok == Answer(CheckChain(TheRules(stakes), chain))
      ensures ok == Success(true) <==> ValidChain(TheRules(stakes), chain)
      ensures ok.Failure? <==> CheckChain(TheRules(stakes), chain).Raises?
    {
      CheckedIsValid(TheRules(stakes), chain);
      var v := CheckAll(chain, stakes);
      ok := Answer(v);
    }

    /** `_stake_weight`. */
    method SumStakeWeight(chain: Chain, m: Stakes) returns (weight: nat)
      ensures weight == StakeWeight(chain, m)
    {
      weight := 0;
      for i := 0 to |chain|
        invariant weight == StakeWeight(chain[..i], m)
      {
        assert chain[..i + 1][..i] == chain[..i];
        if NamesValidator(chain[i], m) {
          weight := weight + m[chain[i].header.validatorId.value];
        }
      }
      assert chain[..|chain|] == chain;
    }

    /** The score function inside `select_canonical_chain`. */
    method ScoreChain(chain: Chain, stakes: Stakes) returns (s: Score)
      ensures s == ScoreOf(TheRules(stakes), chain)
    {
      var end := ComputeValidatorsFromChain(chain, stakes);
      var weight := SumStakeWeight(chain, end);
      s := Score(|chain|, weight, if chain == [] then "" else GetOr(chain[|chain| - 1].header.tranHash, ""));
    }

    /** The filter of `select_canonical_chain`. */
    method KeepValid(chains: seq<Chain>, stakes: Stakes) returns (valid: Result<seq<Chain>>)
      ensures valid == Filtered(TheRules(stakes), chains)
    {
      var kept := [];
      for i := 0 to |chains|
        invariant kept == ValidOnly(TheRules(stakes), chains[..i])
        invariant FirstRaise(TheRules(stakes), chains) == FirstRaise(TheRules(stakes), chains[i..])
      {
        var ok := ValidateChainWithGenesisStakes(chains[i], stakes);
        ValidOnlyStep(TheRules(stakes), chains, i);
        if ok.Failure? {
          return Failure(ok.error);
        }
        if ok.value {
          kept := kept + [chains[i]];
        }
      }
      assert chains[..|chains|] == chains;
      valid := Success(kept);
    }

    /** `select_canonical_chain`. */
    method SelectCanonicalChain(chains: seq<Chain>, stakes: Stakes) returns (selected: Result<Chain>)
      ensures selected == Select(TheRules(stakes), chains)
    {
      var kept := KeepValid(chains, stakes);
      if kept.Failure? {
        return Failure(kept.error);
      }
      BestOfValid(TheRules(stakes), chains);
      var best := Best(kept.value, stakes);
      selected := Success(best);
    }

    /** `max(valid_chains, key=score)`, or the empty list. */
    method Best(valid: seq<Chain>, stakes: Stakes) returns (best: Chain)
      requires forall c :: c in valid ==> ValidChain(TheRules(stakes), c)
      ensures best == Canonical(TheRules(stakes), valid)
    {
      ghost var r := TheRules(stakes);
      if valid == [] {
        return [];
      }
      best := valid[0];
      var top := ScoreChain(best, stakes);
      BestOfFirst(r, valid);
      for i := 1 to |valid|
        invariant BestOf(r, valid[..i]) == Some(best)
        invariant top == ScoreOf(r, best)
      {
        BestOfStep(r, valid, i);
        var candidate := ScoreChain(valid[i], stakes);
        if ScoreLt(top, candidate) {
          best, top := valid[i], candidate;
        }
      }
      assert valid[..|valid|] == valid;
    }
  }
}
