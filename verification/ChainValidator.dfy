/** Whole-chain verification (chain_validator.py). */
module ChainValidator {
  import opened Types
  import opened HashUtils
  import opened ConsensusBase
  import opened StakeMaps
  import opened Rules
  import opened Engines
  import Work = ProofOfWork

  /** `ChainVerificationResult`, or an exception at the block with that index. */
  datatype ChainVerdict = Verified | FailedAt(index: nat, reason: string) | RaisedAt(index: nat, error: string)

  /** The consensus object handed to the verifier. */
  datatype Consensus = NoConsensus | WorkConsensus(pow: ProofOfWork) | StakeConsensus(pos: ProofOfStake)

  /** Indices in verdicts count from one. */
  function At(v: Verdict, index: nat): ChainVerdict {
    match v
    case Valid => Verified
    case Invalid(reason) => FailedAt(index, reason)
    case Raises(error) => RaisedAt(index, error)
  }

  /** Checking the blocks from position `i` on. */
  ghost function VerifyFrom(r: Rules, chain: Chain, i: nat): ChainVerdict
    requires i <= |chain|
    decreases |chain| - i
  {
    if i == |chain| then Verified
    else
      var v := VerifierVerdict(r, chain[..i], chain[i]);
      if v.Valid? then VerifyFrom(r, chain, i + 1) else At(v, i + 1)
  }

  /** `verify_chain_integrity`. */
  ghost function Verify(r: Rules, chain: Chain): ChainVerdict {
    VerifyFrom(r, chain, 0)
  }

  /** One step of the verifier: it goes on exactly when the chain stays valid. */
  lemma VerifyStep(r: Rules, chain: Chain, i: nat)
    requires i < |chain| && ValidChain(r, chain[..i])
    ensures if ValidChain(r, chain[..i + 1]) then VerifyFrom(r, chain, i) == VerifyFrom(r, chain, i + 1)
            else !VerifyFrom(r, chain, i).Verified? && VerifyFrom(r, chain, i).index == i + 1
  {
    ValidNext(r, chain, i);
    VerifierAgrees(r, chain[..i], chain[i]);
  }

  /** A verdict on a chain is right about it: accepted and valid, or the first bad block. */
  ghost predicate RightAbout(r: Rules, chain: Chain, v: ChainVerdict) {
    if v.Verified? then ValidChain(r, chain)
    else 1 <= v.index <= |chain| && ValidChain(r, chain[..v.index - 1]) && !ValidChain(r, chain[..v.index])
  }

  lemma BadStepRight(r: Rules, chain: Chain, i: nat, v: ChainVerdict)
    requires i < |chain| && ValidChain(r, chain[..i]) && !ValidChain(r, chain[..i + 1])
    requires !v.Verified? && v.index == i + 1
    ensures RightAbout(r, chain, v)
  {
  }

  lemma {:induction false} VerifyFromFindsFirst(r: Rules, chain: Chain, i: nat)
    requires i <= |chain| && ValidChain(r, chain[..i])
    ensures RightAbout(r, chain, VerifyFrom(r, chain, i))
    decreases |chain| - i
  {
    if i == |chain| {
      assert chain[..i] == chain;
    } else {
      VerifyStep(r, chain, i);
      if ValidChain(r, chain[..i + 1]) {
        VerifyFromFindsFirst(r, chain, i + 1);
      } else {
        BadStepRight(r, chain, i, VerifyFrom(r, chain, i));
      }
    }
  }

  lemma RightMeansValid(r: Rules, chain: Chain, v: ChainVerdict)
    requires RightAbout(r, chain, v)
    ensures v.Verified? <==> ValidChain(r, chain)
  {
    if !v.Verified? && ValidChain(r, chain) {
      PrefixValid(r, chain, v.index);
    }
  }

  /** The verifier accepts exactly the chains the selectors accept. */
  lemma VerifiedIsValid(r: Rules, chain: Chain)
    ensures RightAbout(r, chain, Verify(r, chain))
    ensures Verify(r, chain).Verified? <==> ValidChain(r, chain)
  {
    assert chain[..0] == [];
    VerifyFromFindsFirst(r, chain, 0);
    RightMeansValid(r, chain, Verify(r, chain));
  }

  /** A refused chain is refused at its first bad block: the blocks before it are valid,
      so by `VerifiedIsValid` they verify, and with it they are not. */
  lemma VerifierFindsFirstBad(r: Rules, chain: Chain) returns (index: nat)
    requires !ValidChain(r, chain)
    ensures !Verify(r, chain).Verified? && 1 <= Verify(r, chain).index == index <= |chain|
    ensures ValidChain(r, chain[..index - 1]) && !ValidChain(r, chain[..index])
  {
    VerifiedIsValid(r, chain);
    index := Verify(r, chain).index;
  }

  /** The verdict is that of the check of the first bad block: refused with its reason, or the exception. */
  lemma VerdictIsOfFirstBad(r: Rules, chain: Chain, n: nat, v: Verdict)
    requires n < |chain| && ValidChain(r, chain[..n]) && !ValidChain(r, chain[..n + 1])
    requires v == VerifierVerdict(r, chain[..n], chain[n])
    ensures !v.Valid?
    ensures Verify(r, chain) == if v.Raises? then RaisedAt(n + 1, v.error) else FailedAt(n + 1, v.reason)
  {
    BadVerdict(r, chain, n);
    VerdictOfFirstBad(r, chain, 0, n, v);
  }

  lemma BadVerdict(r: Rules, chain: Chain, n: nat)
    requires n < |chain| && ValidChain(r, chain[..n]) && !ValidChain(r, chain[..n + 1])
    ensures !VerifierVerdict(r, chain[..n], chain[n]).Valid?
  {
    ValidNext(r, chain, n);
    VerifierAgrees(r, chain[..n], chain[n]);
  }

  lemma ValidBefore(r: Rules, chain: Chain, n: nat, i: nat)
    requires i <= n <= |chain| && ValidChain(r, chain[..n])
    ensures ValidChain(r, chain[..i])
  {
    PrefixValid(r, chain[..n], i);
    assert chain[..n][..i] == chain[..i];
  }

  /** The pass ends with the verdict on the first block that is not accepted. */
  lemma {:induction false} VerdictOfFirstBad(r: Rules, chain: Chain, i: nat, n: nat, v: Verdict)
    requires i <= n < |chain| && ValidChain(r, chain[..n]) && v == VerifierVerdict(r, chain[..n], chain[n]) && !v.Valid?
    ensures VerifyFrom(r, chain, i) == At(v, n + 1)
    decreases n - i
  {
    if i == n {
      VerifyRound(r, chain, n, v);
    } else {
      ValidBefore(r, chain, n, i);
      ValidBefore(r, chain, n, i + 1);
      VerifyStep(r, chain, i);
      VerdictOfFirstBad(r, chain, i + 1, n, v);
    }
  }

  /** One round of a verification loop that has found the verdict on block `i`. */
  lemma VerifyRound(r: Rules, chain: Chain, i: nat, v: Verdict)
    requires i < |chain| && v == VerifierVerdict(r, chain[..i], chain[i])
    ensures VerifyFrom(r, chain, i) == if v.Valid? then VerifyFrom(r, chain, i + 1) else At(v, i + 1)
  {
  }

  /** The tests `previous is None` adds for the first block; the PoS loop leaves the index to the link check. */
  function FirstBlockVerdict(block: Block, genesis: string, checkIndex: bool): Verdict {
    if block.header.prevHash.None? then Raises("prev_hash")
    else if block.header.prevHash.value != genesis then Invalid("genesis prev_hash mismatch")
    else if checkIndex && block.index.None? then Raises("block_index")
    else if checkIndex && !IndexIs(block, 1) then Invalid("first block_index must be 1")
    else Valid
  }

  /** One round of the PoS loop; `m` holds the stakes so far. */
  method JudgeStake(chain: Chain, index: nat, pos: ProofOfStake, genesis: string, stakes: Stakes, m: Stakes) returns (v: Verdict)
    requires pos.genesisPrevHash == genesis && index < |chain|
    requires m == Replay(chain[..index], stakes, pos.settings.blockReward)
    ensures v == VerifierVerdict(pos.TheRules(stakes), chain[..index], chain[index])
  {
    var previous := if index > 0 then Some(chain[index - 1]) else None;
    assert previous == Tip(chain[..index]);
    if previous.None? {
      v := FirstBlockVerdict(chain[index], genesis, false);
      if !v.Valid? {
        return;
      }
    }
    v := ValidateChainLink(chain[index], previous, genesis);
    if v.Valid? {
      v := pos.ValidateBlock(chain[index], |chain|, Some(m), Some(index + 1));
    }
  }

  /** The loop for PoS with genesis stakes: a local stake map is rewarded block by block. */
  method VerifyStakeChain(chain: Chain, pos: ProofOfStake, genesis: string, stakes: Stakes) returns (v: ChainVerdict)
    requires pos.genesisPrevHash == genesis
    ensures v == Verify(pos.TheRules(stakes), chain)
  {
    ghost var r := pos.TheRules(stakes);
    ghost var answer := VerifyFrom(r, chain, 0);
    var m := stakes;
    var index := 0;
    while index < |chain|
      invariant 0 <= index <= |chain|
      invariant m == Replay(chain[..index], stakes, pos.settings.blockReward)
      invariant answer == VerifyFrom(r, chain, index)
    {
      var verdict := JudgeStake(chain, index, pos, genesis, stakes, m);
      VerifyRound(r, chain, index, verdict);
      if !verdict.Valid? {
        return At(verdict, index + 1);
      }
      assert chain[..index + 1][..index] == chain[..index];
      m := Reward(m, chain[index], pos.settings.blockReward);
      index := index + 1;
    }
    v := Verified;
  }

  /** One round of the general loop. */
  method JudgeGeneral(env: Crypto, chain: Chain, index: nat, pow: ProofOfWork?, genesis: string) returns (v: Verdict)
    requires index < |chain| && (pow != null ==> pow.genesisPrevHash == genesis && pow.env == env)
    ensures v == VerifierVerdict(if pow == null then Legacy(env, genesis) else pow.TheRules(), chain[..index], chain[index])
  {
    var previous := if index > 0 then Some(chain[index - 1]) else None;
    assert previous == Tip(chain[..index]);
    if previous.None? {
      v := FirstBlockVerdict(chain[index], genesis, true);
      if !v.Valid? {
        return;
      }
    }
    if pow != null || previous.Some? {
      v := ValidateChainLink(chain[index], previous, genesis);
      if !v.Valid? {
        return;
      }
    }
    v := if pow != null then Work.ValidateBlock(pow.env, pow.settings, chain[index], chain[..index])
         else LegacySeal(env, chain[index]);
  }

  /** The general loop, with a PoW consensus or with none. */
  method VerifyGeneralChain(env: Crypto, chain: Chain, pow: ProofOfWork?, genesis: string) returns (v: ChainVerdict)
    requires pow != null ==> pow.genesisPrevHash == genesis && pow.env == env
    ensures v == Verify(if pow == null then Legacy(env, genesis) else pow.TheRules(), chain)
  {
    ghost var r := if pow == null then Legacy(env, genesis) else pow.TheRules();
    var index := 0;
    while index < |chain|
      invariant 0 <= index <= |chain|
      invariant Verify(r, chain) == VerifyFrom(r, chain, index)
    {
      var verdict := JudgeGeneral(env, chain, index, pow, genesis);
      VerifyRound(r, chain, index, verdict);
      if !verdict.Valid? {
        return At(verdict, index + 1);
      }
      index := index + 1;
    }
    v := Verified;
  }
}
