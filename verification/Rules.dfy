/** What a valid chain is, and that the three places that decide it agree:
    `BlockChain.add_block`, `verify_chain_integrity` and the selectors' own checks. */
module Rules {
  import opened Types
  import opened HashUtils
  import opened ConsensusBase
  import opened StakeMaps
  import Work = ProofOfWork
  import Stake = ProofOfStake

  /** Everything a validity decision depends on besides the chain. `Pos` has the
      genesis stakes that every caller in `Node` supplies. */
  datatype Rules =
    | Legacy(env: Crypto, genesis: string)
    | Pow(env: Crypto, genesis: string, pow: PowSettings)
    | Pos(env: Crypto, genesis: string, reward: nat, keys: map<string, string>, stakes: Stakes)

  /** The consensus rule for one block on top of `prefix`. */
  ghost function ConsensusVerdict(r: Rules, prefix: Chain, b: Block): Verdict {
    match r
    case Pow(env, _, pow) => Work.ValidateBlock(env, pow, b, prefix)
    case Pos(env, _, reward, keys, stakes) =>
      Stake.ValidateBlock(env, keys, b, |prefix| + 1, Replay(prefix, stakes, reward))
    case Legacy(env, _) => LegacySeal(env, b)
  }

  /** The hash check the verifier applies when no consensus is configured; it hashes a null body too. */
  function LegacySeal(env: Crypto, b: Block): Verdict {
    if b.header.consensusType.Some? then Invalid("consensus_type present but no consensus validator configured")
    else if b.body.None? then Raises("tran_body")
    else if b.header.prevHash.None? then Raises("prev_hash")
    else if b.header.tranHash != Some(env.sha(LegacyPreimage(b.header.prevHash.value, BodyHash(env, b.body.value)))) then
      Invalid("legacy tran_hash mismatch")
    else Valid
  }

  /** The selectors' check of one block: link, then consensus. */
  ghost function SelectorVerdict(r: Rules, prefix: Chain, b: Block): Verdict {
    var link := ValidateChainLink(b, Tip(prefix), r.genesis);
    if !link.Valid? then link else ConsensusVerdict(r, prefix, b)
  }

  /** `b` extends `prefix`. */
  ghost predicate Accepts(r: Rules, prefix: Chain, b: Block) {
    SelectorVerdict(r, prefix, b).Valid?
  }

  /** Every block extends the blocks before it. */
  ghost predicate ValidChain(r: Rules, chain: Chain) {
    forall i {:trigger Accepts(r, chain[..i], chain[i])} :: 0 <= i < |chain| ==> Accepts(r, chain[..i], chain[i])
  }

  /** The checks `add_block` makes before it appends. */
  ghost function AddVerdict(r: Rules, chain: Chain, b: Block): Verdict {
    if chain == [] && !IndexIs(b, 1) then Invalid("")
    else if r.Legacy? then LegacyAddVerdict(r, chain, b)
    else SelectorVerdict(r, chain, b)
  }

  function LegacyAddVerdict(r: Rules, chain: Chain, b: Block): Verdict {
    if b.header.prevHash.None? then Raises("prev_hash")
    else if chain != [] && chain[|chain| - 1].header.tranHash.None? then Raises("tran_hash")
    else if chain != [] && b.header.prevHash.value != chain[|chain| - 1].header.tranHash.value then Invalid("")
    else if chain != [] && (chain[|chain| - 1].index.None? || chain[|chain| - 1].index.value.Other?) then Raises("block_index")
    else if chain != [] && !IndexIs(b, chain[|chain| - 1].index.value.value + 1) then Invalid("")
    else if chain == [] && b.header.prevHash.value != r.genesis then Invalid("")
    else if b.body.None? || b.body.value.Null? then Invalid("")
    else if b.header.tranHash != Some(r.env.sha(LegacyPreimage(b.header.prevHash.value, BodyHash(r.env, b.body.value)))) then
      Invalid("")
    else Valid
  }

  /** The checks `verify_chain_integrity` makes for the block at one index. */
  ghost function VerifierVerdict(r: Rules, prefix: Chain, b: Block): Verdict {
    if prefix == [] && b.header.prevHash.None? then Raises("prev_hash")
    else if prefix == [] && b.header.prevHash.value != r.genesis then Invalid("genesis prev_hash mismatch")
    else if prefix == [] && !r.Pos? && b.index.None? then Raises("block_index")
    else if prefix == [] && !r.Pos? && !IndexIs(b, 1) then Invalid("first block_index must be 1")
    else SelectorVerdict(r, prefix, b)
  }

  /** The verifier and the selectors accept the same blocks. */
  lemma VerifierAgrees(r: Rules, prefix: Chain, b: Block)
    ensures VerifierVerdict(r, prefix, b).Valid? <==> Accepts(r, prefix, b)
  {
  }

  /** With a consensus, `add_block` accepts what the verifier accepts. */
  lemma AddAgrees(r: Rules, chain: Chain, b: Block)
    requires !r.Legacy?
    ensures AddVerdict(r, chain, b).Valid? <==> VerifierVerdict(r, chain, b).Valid?
  {
  }

  /** Without a consensus the verifier also wants `consensus_type` to be absent,
      which `add_block` never looks at. */
  lemma LegacyAddAgreesExactly(r: Rules, chain: Chain, b: Block)
    requires r.Legacy? && AddVerdict(r, chain, b).Valid?
    ensures VerifierVerdict(r, chain, b).Valid? <==> b.header.consensusType.None?
  {
  }

  /** The verifier on its part hashes a null body, which `add_block` refuses. */
  lemma LegacyVerifiedAddsExactly(r: Rules, chain: Chain, b: Block)
    requires r.Legacy? && VerifierVerdict(r, chain, b).Valid?
    ensures AddVerdict(r, chain, b).Valid? <==> b.body != Some(Null)
  {
  }

  /** A block that `add_block` takes although the verifier refuses the chain it makes. */
  lemma LegacyGap(env: Crypto, genesis: string) returns (b: Block)
    ensures AddVerdict(Legacy(env, genesis), [], b).Valid?
    ensures !ValidChain(Legacy(env, genesis), [b])
  {
    var body := Dict(TransactionBody([], []));
    var hash := env.sha(LegacyPreimage(genesis, BodyHash(env, body)));
    b := Block(Some(Exact(1)), NoStamp, Header(Some(genesis), Some(hash), Some("pow"), None, None, None, None), 0, Some(body), None, None);
    assert !Accepts(Legacy(env, genesis), [b][..0], [b][0]);
  }

  /** A block that the verifier takes although `add_block` refuses it. */
  lemma LegacyNullGap(env: Crypto, genesis: string) returns (b: Block)
    ensures ValidChain(Legacy(env, genesis), [b])
    ensures !AddVerdict(Legacy(env, genesis), [], b).Valid?
  {
    var hash := env.sha(LegacyPreimage(genesis, BodyHash(env, Null)));
    b := Block(Some(Exact(1)), NoStamp, Header(Some(genesis), Some(hash), None, None, None, None, None), 0, Some(Null), None, None);
    assert [b][..0] == [];
  }

  lemma ValidAppend(r: Rules, chain: Chain, b: Block)
    ensures ValidChain(r, chain + [b]) <==> ValidChain(r, chain) && Accepts(r, chain, b)
  {
    var longer := chain + [b];
    assert longer[..|chain|] == chain;
    assert forall i :: 0 <= i < |chain| ==> longer[..i] == chain[..i] && longer[i] == chain[i];
    if ValidChain(r, longer) {
      assert Accepts(r, longer[..|chain|], longer[|chain|]);
      forall i | 0 <= i < |chain| ensures Accepts(r, chain[..i], chain[i]) {
        assert Accepts(r, longer[..i], longer[i]);
      }
    }
  }

  /** Checking one more block of a chain. */
  lemma ValidNext(r: Rules, chain: Chain, i: nat)
    requires i < |chain|
    ensures ValidChain(r, chain[..i + 1]) <==> ValidChain(r, chain[..i]) && Accepts(r, chain[..i], chain[i])
  {
    assert chain[..i + 1] == chain[..i] + [chain[i]];
    ValidAppend(r, chain[..i], chain[i]);
  }

  /** The selectors' pass over a chain from position `i` on: the first verdict that is not valid. */
  ghost function CheckFrom(r: Rules, chain: Chain, i: nat): Verdict
    requires i <= |chain|
    decreases |chain| - i
  {
    if i == |chain| then Valid
    else
      var v := SelectorVerdict(r, chain[..i], chain[i]);
      if v.Valid? then CheckFrom(r, chain, i + 1) else v
  }

  ghost function CheckChain(r: Rules, chain: Chain): Verdict {
    CheckFrom(r, chain, 0)
  }

  /** One round of the pass. */
  lemma CheckRound(r: Rules, chain: Chain, i: nat, v: Verdict)
    requires i < |chain| && v == SelectorVerdict(r, chain[..i], chain[i])
    ensures CheckFrom(r, chain, i) == if v.Valid? then CheckFrom(r, chain, i + 1) else v
  {
  }

  lemma {:induction false} CheckFromExactly(r: Rules, chain: Chain, i: nat)
    requires i <= |chain| && ValidChain(r, chain[..i])
    ensures CheckFrom(r, chain, i).Valid? <==> ValidChain(r, chain)
    decreases |chain| - i
  {
    if i == |chain| {
      assert chain[..i] == chain;
    } else {
      var v := SelectorVerdict(r, chain[..i], chain[i]);
      CheckRound(r, chain, i, v);
      ValidNext(r, chain, i);
      if v.Valid? {
        CheckFromExactly(r, chain, i + 1);
      } else if ValidChain(r, chain) {
        PrefixValid(r, chain, i + 1);
      }
    }
  }

  /** The pass accepts exactly the valid chains. */
  lemma CheckedIsValid(r: Rules, chain: Chain)
    ensures CheckChain(r, chain).Valid? <==> ValidChain(r, chain)
  {
    assert chain[..0] == [];
    CheckFromExactly(r, chain, 0);
  }

  /** Validity is closed under prefixes. */
  lemma PrefixValid(r: Rules, chain: Chain, n: nat)
    requires ValidChain(r, chain) && n <= |chain|
    ensures ValidChain(r, chain[..n])
  {
    forall i | 0 <= i < n ensures Accepts(r, chain[..n][..i], chain[..n][i]) {
      assert chain[..n][..i] == chain[..i];
    }
  }

  /** What any accepted block carries. */
  lemma AcceptedCarries(r: Rules, prefix: Chain, b: Block)
    requires ConsensusVerdict(r, prefix, b).Valid?
    ensures b.header.prevHash.Some? && b.header.tranHash.Some? && b.body.Some?
    ensures r.Pos? ==> NamesValidator(b, r.stakes)
  {
  }

  /** How an accepted block is linked. */
  lemma AcceptedLinks(prefix: Chain, b: Block, genesis: string)
    requires ValidateChainLink(b, Tip(prefix), genesis).Valid?
    ensures if prefix == [] then IndexIs(b, 1) && b.header.prevHash == Some(genesis)
            else prefix[|prefix| - 1].index.Some? && !prefix[|prefix| - 1].index.value.Other?
                 && IndexIs(b, prefix[|prefix| - 1].index.value.value + 1)
                 && b.header.prevHash == prefix[|prefix| - 1].header.tranHash
  {
  }

  /** The block carries both hashes and a body, and follows the end of `prefix`. */
  predicate Follows(prefix: Chain, b: Block, genesis: string) {
    && b.header.prevHash.Some? && b.header.tranHash.Some? && b.body.Some?
    && if prefix == [] then IndexIs(b, 1) && b.header.prevHash == Some(genesis)
       else prefix[|prefix| - 1].index.Some? && !prefix[|prefix| - 1].index.value.Other?
            && IndexIs(b, prefix[|prefix| - 1].index.value.value + 1)
            && b.header.prevHash == prefix[|prefix| - 1].header.tranHash
  }

  lemma AcceptedFollows(r: Rules, prefix: Chain, b: Block)
    requires Accepts(r, prefix, b)
    ensures Follows(prefix, b, r.genesis)
  {
    AcceptedCarries(r, prefix, b);
    AcceptedLinks(prefix, b, r.genesis);
  }

  lemma ValidFollows(r: Rules, chain: Chain, i: nat)
    requires ValidChain(r, chain) && i < |chain|
    ensures Follows(chain[..i], chain[i], r.genesis)
  {
    AcceptedFollows(r, chain[..i], chain[i]);
  }

  /** Block indices count from one and each block names its parent's hash. */
  lemma {:induction false} ValidLinks(r: Rules, chain: Chain, i: nat)
    requires ValidChain(r, chain) && i < |chain|
    ensures IndexIs(chain[i], i + 1)
    ensures chain[i].header.prevHash == if i == 0 then Some(r.genesis) else chain[i - 1].header.tranHash
    ensures chain[i].header.prevHash.Some? && chain[i].header.tranHash.Some? && chain[i].body.Some?
  {
    ValidFollows(r, chain, i);
    if i > 0 {
      ValidLinks(r, chain, i - 1);
      assert chain[..i][|chain[..i]| - 1] == chain[i - 1];
    }
  }

  /** With a consensus, one more block keeps a verified chain verified exactly when `add_block` accepts
      it. Without one, a block that is accepted must carry no `consensus_type`, and a block that
      keeps the chain verified is accepted unless its body is null. */
  lemma IncrementalEqualsReplay(r: Rules, chain: Chain, b: Block)
    requires ValidChain(r, chain)
    ensures AddVerdict(r, chain, b).Valid? ==>
      (ValidChain(r, chain + [b]) <==> (r.Legacy? ==> b.header.consensusType.None?))
    ensures ValidChain(r, chain + [b]) ==>
      (AddVerdict(r, chain, b).Valid? <==> (r.Legacy? ==> b.body != Some(Null)))
  {
    ValidAppend(r, chain, b);
    VerifierAgrees(r, chain, b);
    if r.Legacy? {
      if AddVerdict(r, chain, b).Valid? {
        LegacyAddAgreesExactly(r, chain, b);
      }
      if VerifierVerdict(r, chain, b).Valid? {
        LegacyVerifiedAddsExactly(r, chain, b);
      }
    } else {
      AddAgrees(r, chain, b);
    }
  }

  /** The chain `add_block` builds from `blocks`, refused blocks dropped. */
  ghost function AddAll(r: Rules, chain: Chain, blocks: Chain): (built: Chain)
    ensures |built| <= |chain| + |blocks|
    decreases |blocks|
  {
    if blocks == [] then chain
    else AddAll(r, if AddVerdict(r, chain, blocks[0]).Valid? then chain + [blocks[0]] else chain, blocks[1..])
  }

  /** No block stands in the way of rebuilding: without a consensus, no body is null. */
  predicate Addable(r: Rules, b: Block) {
    r.Legacy? ==> b.body != Some(Null)
  }

  lemma AddAllStep(r: Rules, chain: Chain, n: nat)
    requires ValidChain(r, chain) && n < |chain|
    ensures if Addable(r, chain[n]) then AddAll(r, chain[..n], chain[n..]) == AddAll(r, chain[..n + 1], chain[n + 1..])
            else |AddAll(r, chain[..n], chain[n..])| < |chain|
  {
    PrefixValid(r, chain, n);
    PrefixValid(r, chain, n + 1);
    assert chain[..n + 1] == chain[..n] + [chain[n]];
    IncrementalEqualsReplay(r, chain[..n], chain[n]);
    assert chain[n..][0] == chain[n] && chain[n..][1..] == chain[n + 1..];
  }

  /** The blocks of a verified chain can be added one by one if and only if all are addable. */
  lemma {:induction false} RebuildFromPrefix(r: Rules, chain: Chain, n: nat)
    requires ValidChain(r, chain) && n <= |chain|
    ensures AddAll(r, chain[..n], chain[n..]) == chain <==> forall i :: n <= i < |chain| ==> Addable(r, chain[i])
    decreases |chain| - n
  {
    if n < |chain| {
      AddAllStep(r, chain, n);
      RebuildFromPrefix(r, chain, n + 1);
    } else {
      assert chain[..n] == chain;
    }
  }

  /** From the empty chain, adding the blocks of a verified chain rebuilds it if and only if
      there is a consensus or no body is null. */
  lemma RebuildFromEmpty(r: Rules, chain: Chain)
    requires ValidChain(r, chain)
    ensures AddAll(r, [], chain) == chain <==> forall i :: 0 <= i < |chain| ==> Addable(r, chain[i])
  {
    assert chain[..0] == [] && chain[0..] == chain;
    RebuildFromPrefix(r, chain, 0);
  }

  /** On a valid PoS chain every block names a genesis validator, so stakes and
      fork weight obey their closed forms. */
  lemma ValidPosChainStakes(r: Rules, chain: Chain)
    requires r.Pos? && ValidChain(r, chain)
    ensures AllCredited(chain, r.stakes)
    ensures Total(Replay(chain, r.stakes, r.reward)) == Total(r.stakes) + r.reward * |chain|
    ensures StakeWeight(chain, Replay(chain, r.stakes, r.reward))
         == WeightFormula(SortedKeys(r.stakes.Keys), chain, r.stakes, r.reward)
  {
    forall i | 0 <= i < |chain| ensures NamesValidator(chain[i], r.stakes) {
      assert Accepts(r, chain[..i], chain[i]);
      AcceptedCarries(r, chain[..i], chain[i]);
    }
    ReplayTotal(chain, r.stakes, r.reward);
    ForkWeight(chain, r.stakes, r.reward);
  }

  /** Only one validator can extend a PoS chain: it holds stake after the chain's rewards,
      and every block that extends the chain is signed under its registered key. */
  lemma OneProposerPerHeight(r: Rules, prefix: Chain, x: Block, y: Block)
    requires r.Pos? && Accepts(r, prefix, x) && Accepts(r, prefix, y)
    ensures x.header.validatorId == y.header.validatorId && x.header.validatorId.Some?
    ensures var v := x.header.validatorId.value;
      && v in r.stakes && Replay(prefix, r.stakes, r.reward)[v] > 0
      && Stake.SealedBy(r.env, r.keys, x, v, |prefix| + 1) && Stake.SealedBy(r.env, r.keys, y, v, |prefix| + 1)
  {
    var validators := Replay(prefix, r.stakes, r.reward);
    Stake.ValidExactly(r.env, r.keys, x, |prefix| + 1, validators);
    Stake.ValidExactly(r.env, r.keys, y, |prefix| + 1, validators);
    ProposerHasStake(r.env, |prefix| + 1, validators);
  }

  // ---------- another key registry ----------

  /** The registry `keys` holds the public key that the block carries for its validator. */
  predicate KeyKnown(keys: map<string, string>, b: Block) {
    b.header.validatorId.Some? && b.header.validatorId.value in keys && b.publicKey == Some(keys[b.header.validatorId.value])
  }

  lemma AcceptedUnderKeys(r: Rules, keys: map<string, string>, prefix: Chain, b: Block)
    requires r.Pos? && Accepts(r, prefix, b)
    ensures Accepts(r.(keys := keys), prefix, b) <==> KeyKnown(keys, b)
  {
    var validators := Replay(prefix, r.stakes, r.reward);
    Stake.ValidExactly(r.env, r.keys, b, |prefix| + 1, validators);
    Stake.ValidExactly(r.env, keys, b, |prefix| + 1, validators);
  }

  /** A node with other registered keys accepts a valid PoS chain exactly when its registry
      holds the key of every block. */
  lemma ValidUnderKeys(r: Rules, keys: map<string, string>, chain: Chain)
    requires r.Pos? && ValidChain(r, chain)
    ensures ValidChain(r.(keys := keys), chain) <==> forall i :: 0 <= i < |chain| ==> KeyKnown(keys, chain[i])
  {
    forall i | 0 <= i < |chain|
      ensures Accepts(r.(keys := keys), chain[..i], chain[i]) <==> KeyKnown(keys, chain[i])
    {
      assert Accepts(r, chain[..i], chain[i]);
      AcceptedUnderKeys(r, keys, chain[..i], chain[i]);
    }
  }
}
