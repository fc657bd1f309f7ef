/** The mutable chain object (blockchain.py) and the consensus factory (consensus/factory.py). */
module BlockChainObject {
  import opened Types
  import opened HashUtils
  import opened ConsensusBase
  import opened StakeMaps
  import opened Rules
  import opened Engines
  import opened ChainValidator
  import opened Ledger
  import Work = ProofOfWork
  import Stake = ProofOfStake

  class BlockChain {
    const env: Crypto
    const enableSignature: bool
    const consensus: Consensus
    const genesisPrevHash: string
    const privateKey: Option<string>
    var chain: Chain

    constructor (env: Crypto, enableSignature: bool, consensus: Consensus, genesisPrevHash: string, privateKey: Option<string>)
      ensures this.env == env && this.enableSignature == enableSignature && this.consensus == consensus
      ensures this.genesisPrevHash == genesisPrevHash && this.privateKey == privateKey && chain == []
    {
      this.env := env;
      this.enableSignature := enableSignature;
      this.consensus := consensus;
      this.genesisPrevHash := genesisPrevHash;
      this.privateKey := privateKey;
      this.chain := [];
    }

    /** The objects whose fields the methods may change. */
    function Parts(): set<object> {
      {this} + (if consensus.StakeConsensus? then {consensus.pos} else {})
    }

    /** Wired as `Node` wires it: one genesis value, one crypto, genesis stakes set. */
    ghost predicate Wired()
      reads Parts()
    {
      match consensus
      case NoConsensus => true
      case WorkConsensus(pow) => pow.genesisPrevHash == genesisPrevHash && pow.env == env
      case StakeConsensus(pos) => pos.genesisPrevHash == genesisPrevHash && pos.env == env && pos.genesisStakes.Some?
    }

    /** The rules in force for the genesis stakes `stakes`. */
    function TheRules(stakes: Stakes): Rules
      reads Parts()
    {
      match consensus
      case NoConsensus => Legacy(env, genesisPrevHash)
      case WorkConsensus(pow) => pow.TheRules()
      case StakeConsensus(pos) => pos.TheRules(stakes)
    }

    function TheAuthor(): Author
      reads Parts()
    {
      match consensus
      case StakeConsensus(pos) => Author(pos.nodeValidatorId, pos.privateKey, enableSignature)
      case _ => Author(None, privateKey, enableSignature)
    }

    /** Chain and cache as one value. */
    function TheBook(): Book
      reads Parts()
    {
      Book(chain, if consensus.StakeConsensus? then consensus.pos.validators else map[])
    }

    /** Nothing but chain and cache has changed. */
    twostate predicate SameSetup()
      reads Parts()
    {
      consensus.StakeConsensus? ==>
        && consensus.pos.nodeValidatorId == old(consensus.pos.nodeValidatorId)
        && consensus.pos.genesisStakes == old(consensus.pos.genesisStakes)
        && consensus.pos.validatorPublicKeys == old(consensus.pos.validatorPublicKeys)
    }

    /** `chain.append` followed by the consensus hook. */
    method AppendBlock(b: Block, ghost r: Rules)
      requires Wired()
      requires if consensus.StakeConsensus? then r.Pos? && r.reward == consensus.pos.settings.blockReward else !r.Pos?
      modifies Parts()
      ensures Wired() && SameSetup()
      ensures TheBook() == Append(r, old(TheBook()), b)
    {
      chain := chain + [b];
      if consensus.StakeConsensus? {
        consensus.pos.OnBlockAdded(b);
      }
    }

    method MineNext(pow: ProofOfWork, prevHash: string, body: TransactionBody, now: int) returns (r: Result<Block>)
      requires ParentHash(pow.TheRules(), chain) == Some(prevHash)
      ensures r == Produce(pow.TheRules(), Author(None, privateKey, enableSignature), chain, body, now)
    {
      r := Work.MineBlock(pow.env, pow.settings, Draft(pow.TheRules(), chain, prevHash, body, now), chain);
    }

    method ProposeNext(pos: ProofOfStake, stakes: Stakes, prevHash: string, body: TransactionBody, now: int) returns (r: Result<Block>)
      requires pos.genesisStakes == Some(stakes)
      ensures r == Stake.Proposed(pos.env, pos.nodeValidatorId, pos.privateKey, Draft(pos.TheRules(stakes), chain, prevHash, body, now),
                                  |chain| + 1, Replay(chain, stakes, pos.settings.blockReward))
    {
      r := pos.PrepareBlock(Draft(pos.TheRules(stakes), chain, prevHash, body, now), chain);
    }

    /** The part of `add_new_block` before the append. */
    method MakeBlock(body: TransactionBody, now: int, ghost stakes: Stakes) returns (r: Result<Block>)
      requires Wired() && (consensus.StakeConsensus? ==> consensus.pos.genesisStakes == Some(stakes))
      ensures r == Produce(TheRules(stakes), TheAuthor(), chain, body, now)
    {
      var prevHash := genesisPrevHash;
      if chain != [] {
        if chain[|chain| - 1].header.tranHash.None? {
          return Failure("tran_hash");
        }
        prevHash := chain[|chain| - 1].header.tranHash.value;
      }
      match consensus {
        case WorkConsensus(pow) => r := MineNext(pow, prevHash, body, now);
        case StakeConsensus(pos) =>
          r := ProposeNext(pos, pos.genesisStakes.value, prevHash, body, now);
          ProducedByStake(TheRules(stakes), TheAuthor(), chain, prevHash, body, now);
        case NoConsensus => r := SignIfEnabled(Draft(Legacy(env, genesisPrevHash), chain, prevHash, body, now));
      }
    }

    /** The signing branch for a chain without consensus. */
    function SignIfEnabled(block: Block): Result<Block> {
      if !enableSignature then Success(block)
      else if privateKey.None? then Failure("private key is not set")
      else Success(Stake.SignBlock(env, privateKey.value, block))
    }

    /** `add_new_block`. */
    method AddNewBlock(body: TransactionBody, now: int, ghost stakes: Stakes) returns (r: Result<Block>)
      requires Wired() && (consensus.StakeConsensus? ==> consensus.pos.genesisStakes == Some(stakes))
      modifies Parts()
      ensures Wired() && SameSetup()
      ensures r == Produce(old(TheRules(stakes)), old(TheAuthor()), old(chain), body, now)
      ensures chain == if r.Success? then old(chain) + [r.value] else old(chain)
      ensures TheBook() == Apply(old(TheRules(stakes)), old(TheAuthor()), old(TheBook()), AddNew(body, now))
    {
      r := MakeBlock(body, now, stakes);
      if r.Success? {
        AppendBlock(r.value, TheRules(stakes));
      }
    }

    method CheckWork(b: Block, pow: ProofOfWork) returns (ok: bool)
      requires pow.genesisPrevHash == genesisPrevHash
      ensures ok <==> Accepts(pow.TheRules(), chain, b)
    {
      var link := ValidateChainLink(b, Tip(chain), genesisPrevHash);
      if !link.Valid? {
        return false;
      }
      var result := Work.ValidateBlock(pow.env, pow.settings, b, chain);
      ok := result.Valid?;
    }

    method CheckStake(b: Block, pos: ProofOfStake, stakes: Stakes) returns (ok: bool)
      requires pos.genesisPrevHash == genesisPrevHash
      ensures ok <==> Accepts(pos.TheRules(stakes), chain, b)
    {
      var link := ValidateChainLink(b, Tip(chain), genesisPrevHash);
      if !link.Valid? {
        return false;
      }
      var validators := pos.ComputeValidatorsFromChain(chain, stakes);
      var result := pos.ValidateBlock(b, |chain|, Some(validators), None);
      ok := result.Valid?;
    }

    /** The checks of `add_block`. */
    method CheckBlock(b: Block, stakes: Stakes) returns (ok: bool)
      requires Wired()
      ensures ok <==> AddVerdict(TheRules(stakes), chain, b).Valid?
    {
      if chain == [] && !IndexIs(b, 1) {
        return false;
      }
      match consensus {
        case WorkConsensus(pow) => ok := CheckWork(b, pow);
        case StakeConsensus(pos) => ok := CheckStake(b, pos, stakes);
        case NoConsensus => ok := LegacyAddVerdict(Legacy(env, genesisPrevHash), chain, b).Valid?;
      }
    }

    /** `add_block`: the verdict depends on the chain and the genesis stakes, never on the cache. */
    method AddBlock(b: Block, stakes: Stakes) returns (ok: bool)
      requires Wired()
      modifies Parts()
      ensures Wired() && SameSetup()
      ensures ok <==> AddVerdict(old(TheRules(stakes)), old(chain), b).Valid?
      ensures chain == if ok then old(chain) + [b] else old(chain)
      ensures TheBook() == Apply(old(TheRules(stakes)), old(TheAuthor()), old(TheBook()), Add(b))
    {
      ok := CheckBlock(b, stakes);
      if ok {
        AppendBlock(b, TheRules(stakes));
      }
    }

    /** `verify_chain_integrity` on any chain. */
    method Check(candidate: Chain, stakes: Stakes) returns (v: ChainVerdict)
      requires Wired()
      ensures v == Verify(TheRules(stakes), candidate)
    {
      match consensus {
        case StakeConsensus(pos) => v := VerifyStakeChain(candidate, pos, genesisPrevHash, stakes);
        case WorkConsensus(pow) => v := VerifyGeneralChain(env, candidate, pow, genesisPrevHash);
        case NoConsensus => v := VerifyGeneralChain(env, candidate, null, genesisPrevHash);
      }
    }

    /** `verify_chain`. */
    method VerifyChain(stakes: Stakes) returns (v: ChainVerdict)
      requires Wired()
      ensures v == Verify(TheRules(stakes), chain)
    {
      v := Check(chain, stakes);
    }

    /** `replace_chain`. */
    method ReplaceChain(newChain: Chain, stakes: Stakes) returns (ok: bool)
      requires Wired() && (consensus.StakeConsensus? ==> consensus.pos.genesisStakes == Some(stakes))
      modifies Parts()
      ensures Wired() && SameSetup()
      ensures ok <==> ValidChain(old(TheRules(stakes)), newChain)
      ensures chain == if ok then newChain else old(chain)
      ensures TheBook() == Apply(old(TheRules(stakes)), old(TheAuthor()), old(TheBook()), Replace(newChain))
    {
      var verdict := Check(newChain, stakes);
      VerifiedIsValid(TheRules(stakes), newChain);
      if !verdict.Verified? {
        return false;
      }
      chain := newChain;
      if consensus.StakeConsensus? {
        consensus.pos.SyncValidatorsFromChain(chain, stakes);
      }
      ok := true;
    }

    /** `get_blocks_from`. */
    method GetBlocksFrom(fromHeight: int, limit: Option<nat>) returns (blocks: Chain)
      ensures blocks == BlocksFrom(chain, fromHeight, limit)
    {
      var start := if fromHeight < 1 then 0 else fromHeight - 1;
      blocks := if start > |chain| then [] else chain[start..];
      if limit.Some? && limit.value < |blocks| {
        blocks := blocks[..limit.value];
      }
    }
  }

  ghost predicate AllAtLeast(m: Stakes, low: nat) {
    forall v :: v in m ==> m[v] >= low
  }

  /** `create_consensus` for PoS: every genesis validator is registered, in whatever
      order the dict is walked, and the node itself when genesis does not list it. */
  method CreateStakeConsensus(env: Crypto, settings: PosSettings, genesisPrevHash: string, privateKey: Option<string>,
                              nodeId: Option<string>, stakes: Stakes) returns (r: Result<ProofOfStake>)
    ensures r.Success? <==> AllAtLeast(InitialCache(stakes, nodeId, settings.minStake), settings.minStake)
    ensures r.Success? ==> fresh(r.value)
    ensures r.Success? ==> r.value.env == env && r.value.settings == settings && r.value.genesisPrevHash == genesisPrevHash
    ensures r.Success? ==> r.value.privateKey == privateKey && r.value.nodeValidatorId == nodeId
    ensures r.Success? ==> r.value.genesisStakes == Some(stakes)
    ensures r.Success? ==> r.value.validators == InitialCache(stakes, nodeId, settings.minStake)
    ensures r.Success? ==> r.value.validatorPublicKeys == FactoryKeys(env, stakes, nodeId, privateKey)
  {
    var pos := new ProofOfStake(env, settings, genesisPrevHash, privateKey, nodeId, Some(stakes));
    var wanted := InitialCache(stakes, nodeId, settings.minStake);
    ghost var keys := FactoryKeys(env, stakes, nodeId, privateKey);
    var rest := wanted.Keys;
    while rest != {}
      invariant rest <= wanted.Keys
      invariant pos.validators == map v | v in wanted && v !in rest :: wanted[v]
      invariant forall v :: v in wanted && v !in rest ==> wanted[v] >= settings.minStake
      invariant pos.nodeValidatorId == nodeId && pos.genesisStakes == Some(stakes)
      invariant pos.validatorPublicKeys ==
        if nodeId.Some? && nodeId.value in wanted && nodeId.value !in rest then keys else map[]
      decreases rest
    {
      var v :| v in rest;
      assert nodeId == Some(v) ==> keys == if privateKey.Some? then map[v := env.publicKey(privateKey.value)] else map[];
      var registered := pos.RegisterValidator(v, wanted[v], None);
      if !registered {
        return Failure("Stake is below minimum");
      }
      rest := rest - {v};
    }
    r := Success(pos);
  }
}
