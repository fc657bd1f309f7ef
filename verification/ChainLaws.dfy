/** Valid chains in closed form: what every block of a chain must carry, in terms of numbers, hashes,
    stakes and signatures alone. All three validity checks accept exactly these chains. */
module ChainLaws {
  import opened Types
  import opened Text
  import opened HashUtils
  import opened ConsensusBase
  import opened StakeMaps
  import opened Rules
  import Work = ProofOfWork
  import Stake = ProofOfStake

  /** Block i is numbered i + 1, from an int or a value equal to it, and names the hash before it. */
  predicate InPlace(genesis: string, chain: Chain, i: nat)
    requires i < |chain|
  {
    && (chain[i].index == Some(Exact(i + 1)) || chain[i].index == Some(Loose(i + 1)))
    && chain[i].header.prevHash.Some?
    && chain[i].header.prevHash == if i == 0 then Some(genesis) else chain[i - 1].header.tranHash
  }

  /** A proof-of-work block in its place: difficulty, hash, leading zeros and time. */
  predicate WorkBlock(env: Crypto, genesis: string, settings: PowSettings, chain: Chain, i: nat)
    requires i < |chain|
  {
    var b, d := chain[i], Work.GetDifficulty(settings, chain[..i]);
    && InPlace(genesis, chain, i)
    && b.header.consensusType == Some("pow") && b.header.difficulty == Some(d)
    && b.body.Some? && b.header.nonce.Some?
    && b.header.tranHash == Some(env.sha(b.header.prevHash.value + env.sha(env.bodyText(b.body.value)) + Str(b.header.nonce.value)))
    && ZeroPrefix(b.header.tranHash.value, d)
    && b.item.At? && (i > 0 ==> chain[i - 1].item.At? && chain[i - 1].item.seconds <= b.item.seconds)
  }

  /** `v` is drawn for the slot: the number its hash writes, modulo the total, falls on the share of v. */
  ghost predicate Drawn(env: Crypto, slot: int, m: Stakes, v: string) {
    && v in m && Total(m) > 0
    && StakeBefore(m, v) <= HexValue(env.sha("slot-" + Str(slot))) % Total(m) < StakeBefore(m, v) + m[v]
  }

  /** Sealed for a slot: drawn validator, hash, registered key and signature. */
  ghost predicate SealedForSlot(env: Crypto, keys: map<string, string>, b: Block, slot: int, m: Stakes) {
    && b.header.consensusType == Some("pos") && b.header.slot == Some(slot)
    && b.header.validatorId.Some? && b.header.prevHash.Some?
    && var v := b.header.validatorId.value;
    && v != "" && Drawn(env, slot, m, v)
    && b.body.Some? && b.body.value.Dict?
    && b.header.tranHash == Some(env.sha(b.header.prevHash.value + env.sha(env.bodyText(b.body.value)) + v + Str(slot)))
    && v in keys && b.publicKey == Some(keys[v]) && b.signature.Some?
    && env.verify(b.(signature := None, publicKey := None), b.signature.value, keys[v])
  }

  /** A proof-of-stake block in its place, drawn from the stakes replayed over the blocks before it. */
  ghost predicate StakeBlock(env: Crypto, genesis: string, reward: nat, keys: map<string, string>, stakes: Stakes, chain: Chain, i: nat)
    requires i < |chain|
  {
    InPlace(genesis, chain, i) && SealedForSlot(env, keys, chain[i], i + 1, Replay(chain[..i], stakes, reward))
  }

  /** A block without consensus in its place. */
  predicate LegacyBlock(env: Crypto, genesis: string, chain: Chain, i: nat)
    requires i < |chain|
  {
    var b := chain[i];
    && InPlace(genesis, chain, i)
    && b.header.consensusType.None? && b.body.Some?
    && b.header.tranHash == Some(env.sha(b.header.prevHash.value + env.sha(env.bodyText(b.body.value))))
  }

  ghost predicate GoodBlock(r: Rules, chain: Chain, i: nat)
    requires i < |chain|
  {
    match r
    case Pow(env, genesis, settings) => WorkBlock(env, genesis, settings, chain, i)
    case Pos(env, genesis, reward, keys, stakes) => StakeBlock(env, genesis, reward, keys, stakes, chain, i)
    case Legacy(env, genesis) => LegacyBlock(env, genesis, chain, i)
  }

  /** The link check on the end of `prefix`. */
  predicate LinkedTo(genesis: string, prefix: Chain, b: Block) {
    if prefix == [] then IndexIs(b, 1) && b.header.prevHash == Some(genesis)
    else
      var parent := prefix[|prefix| - 1];
      && parent.header.tranHash.Some? && b.header.prevHash == parent.header.tranHash
      && parent.index.Some? && !parent.index.value.Other? && IndexIs(b, parent.index.value.value + 1)
  }

  lemma LinkExactly(genesis: string, prefix: Chain, b: Block)
    ensures ValidateChainLink(b, Tip(prefix), genesis).Valid? <==> LinkedTo(genesis, prefix, b)
  {
  }

  /** In a chain whose earlier blocks are in place, the link check is the place. */
  lemma {:induction false} PlaceByLinks(genesis: string, chain: Chain, i: nat)
    requires i < |chain| && forall j :: 0 <= j < i ==> InPlace(genesis, chain, j)
    ensures LinkedTo(genesis, chain[..i], chain[i]) <==> InPlace(genesis, chain, i)
  {
    if i > 0 {
      assert InPlace(genesis, chain, i - 1);
      assert chain[..i][|chain[..i]| - 1] == chain[i - 1];
    }
  }

  lemma WorkSeal(env: Crypto, genesis: string, settings: PowSettings, chain: Chain, i: nat)
    requires i < |chain| && InPlace(genesis, chain, i)
    ensures Work.ValidateBlock(env, settings, chain[i], chain[..i]).Valid? <==> WorkBlock(env, genesis, settings, chain, i)
  {
    var b, d := chain[i], Work.GetDifficulty(settings, chain[..i]);
    if b.header.tranHash.Some? {
      MeetsByDigits(b.header.tranHash.value, d);
    }
    assert i > 0 ==> chain[..i][|chain[..i]| - 1] == chain[i - 1];
  }

  lemma DrawnExactly(env: Crypto, slot: int, m: Stakes, v: string)
    ensures Drawn(env, slot, m, v) <==> Proposer(env, slot, m) == Success(v)
  {
    ProposerExactly(env, slot, m, v);
  }

  lemma SealedForDrawn(env: Crypto, keys: map<string, string>, b: Block, slot: nat, m: Stakes, v: string)
    requires b.header.validatorId == Some(v) && v != "" && Proposer(env, slot, m) == Success(v)
    requires b.header.consensusType == Some("pos")
    ensures Stake.SealedBy(env, keys, b, v, slot) <==> SealedForSlot(env, keys, b, slot, m)
  {
    DrawnExactly(env, slot, m, v);
  }

  lemma StakeSealed(env: Crypto, keys: map<string, string>, b: Block, slot: nat, m: Stakes)
    ensures Stake.ValidateBlock(env, keys, b, slot, m).Valid? <==> SealedForSlot(env, keys, b, slot, m)
  {
    Stake.ValidExactly(env, keys, b, slot, m);
    if b.header.validatorId.Some? {
      var v := b.header.validatorId.value;
      DrawnExactly(env, slot, m, v);
      if v != "" && Proposer(env, slot, m) == Success(v) && b.header.consensusType == Some("pos") {
        SealedForDrawn(env, keys, b, slot, m, v);
      }
    }
  }

  lemma StakeVerdict(r: Rules, chain: Chain, i: nat)
    requires r.Pos? && i < |chain|
    ensures ConsensusVerdict(r, chain[..i], chain[i]) ==
      Stake.ValidateBlock(r.env, r.keys, chain[i], i + 1, Replay(chain[..i], r.stakes, r.reward))
  {
  }

  lemma StakeBlockBySeal(r: Rules, chain: Chain, i: nat)
    requires r.Pos? && i < |chain| && InPlace(r.genesis, chain, i)
    ensures ConsensusVerdict(r, chain[..i], chain[i]).Valid? <==>
      SealedForSlot(r.env, r.keys, chain[i], i + 1, Replay(chain[..i], r.stakes, r.reward))
  {
    StakeVerdict(r, chain, i);
    StakeSealed(r.env, r.keys, chain[i], i + 1, Replay(chain[..i], r.stakes, r.reward));
  }

  lemma WorkBlockBySeal(r: Rules, chain: Chain, i: nat)
    requires r.Pow? && i < |chain| && InPlace(r.genesis, chain, i)
    ensures ConsensusVerdict(r, chain[..i], chain[i]).Valid? <==> GoodBlock(r, chain, i)
  {
    WorkSeal(r.env, r.genesis, r.pow, chain, i);
  }

  lemma BlockBySeal(r: Rules, chain: Chain, i: nat)
    requires i < |chain| && InPlace(r.genesis, chain, i)
    ensures ConsensusVerdict(r, chain[..i], chain[i]).Valid? <==> GoodBlock(r, chain, i)
  {
    if r.Pow? {
      WorkBlockBySeal(r, chain, i);
    } else if r.Pos? {
      StakeBlockBySeal(r, chain, i);
    }
  }

  lemma GoodIsInPlace(r: Rules, chain: Chain, i: nat)
    requires i < |chain| && GoodBlock(r, chain, i)
    ensures InPlace(r.genesis, chain, i)
  {
  }

  lemma AcceptedIsGood(r: Rules, chain: Chain, i: nat)
    requires i < |chain| && forall j :: 0 <= j < i ==> InPlace(r.genesis, chain, j)
    ensures Accepts(r, chain[..i], chain[i]) <==> GoodBlock(r, chain, i)
  {
    LinkExactly(r.genesis, chain[..i], chain[i]);
    PlaceByLinks(r.genesis, chain, i);
    if InPlace(r.genesis, chain, i) {
      BlockBySeal(r, chain, i);
    } else if GoodBlock(r, chain, i) {
      GoodIsInPlace(r, chain, i);
    }
  }

  ghost predicate AllGood(r: Rules, chain: Chain, n: nat)
    requires n <= |chain|
  {
    forall i :: 0 <= i < n ==> GoodBlock(r, chain, i)
  }

  lemma AllGoodNext(r: Rules, chain: Chain, n: nat)
    requires n < |chain|
    ensures AllGood(r, chain, n + 1) <==> AllGood(r, chain, n) && GoodBlock(r, chain, n)
  {
  }

  lemma GoodNext(r: Rules, chain: Chain, n: nat)
    requires n < |chain| && AllGood(r, chain, n)
    ensures Accepts(r, chain[..n], chain[n]) <==> GoodBlock(r, chain, n)
  {
    forall j | 0 <= j < n ensures InPlace(r.genesis, chain, j) {
      assert GoodBlock(r, chain, j);
      GoodIsInPlace(r, chain, j);
    }
    AcceptedIsGood(r, chain, n);
  }

  lemma GoodStep(r: Rules, chain: Chain, n: nat)
    requires n < |chain| && (ValidChain(r, chain[..n]) <==> AllGood(r, chain, n))
    ensures ValidChain(r, chain[..n + 1]) <==> AllGood(r, chain, n + 1)
  {
    ValidNext(r, chain, n);
    AllGoodNext(r, chain, n);
    if AllGood(r, chain, n) {
      GoodNext(r, chain, n);
    }
  }

  lemma {:induction false} GoodPrefix(r: Rules, chain: Chain, n: nat)
    requires n <= |chain|
    ensures ValidChain(r, chain[..n]) <==> AllGood(r, chain, n)
  {
    if n > 0 {
      GoodPrefix(r, chain, n - 1);
      GoodStep(r, chain, n - 1);
    }
  }

  /** A chain is valid if and only if every block is good in its place. */
  lemma ValidChainExactly(r: Rules, chain: Chain)
    ensures ValidChain(r, chain) <==> forall i :: 0 <= i < |chain| ==> GoodBlock(r, chain, i)
  {
    GoodPrefix(r, chain, |chain|);
    assert chain[..|chain|] == chain;
  }

  /** The seal `add_block` wants on top of `chain`: that of the consensus, or without one a body that is not
      null and the hash. */
  ghost predicate AddSeal(r: Rules, chain: Chain, b: Block) {
    match r
    case Pow(env, _, settings) => Work.ValidateBlock(env, settings, b, chain).Valid?
    case Pos(env, _, reward, keys, stakes) => SealedForSlot(env, keys, b, |chain| + 1, Replay(chain, stakes, reward))
    case Legacy(env, _) =>
      && b.header.prevHash.Some? && b.body.Some? && b.body != Some(Null)
      && b.header.tranHash == Some(env.sha(b.header.prevHash.value + env.sha(env.bodyText(b.body.value))))
  }

  /** `add_block` on any chain, verified or not: link and seal decide. */
  lemma AddExactly(r: Rules, chain: Chain, b: Block)
    ensures AddVerdict(r, chain, b).Valid? <==> LinkedTo(r.genesis, chain, b) && AddSeal(r, chain, b)
  {
    LinkExactly(r.genesis, chain, b);
    if r.Pos? {
      StakeSealed(r.env, r.keys, b, |chain| + 1, Replay(chain, r.stakes, r.reward));
    }
  }

  // ---------- when a check raises instead of refusing ----------

  /** The link check reads a field that is absent, or adds to an index that is no number. */
  predicate LinkRaises(prefix: Chain, b: Block) {
    if prefix == [] then b.index.None? || (IndexIs(b, 1) && b.header.prevHash.None?)
    else
      var parent := prefix[|prefix| - 1];
      || parent.header.tranHash.None? || b.header.prevHash.None?
      || (b.header.prevHash == parent.header.tranHash && (b.index.None? || parent.index.None? || parent.index.value.Other?))
  }

  /** The consensus check raises: never under PoW; under PoS where it would draw from a total of zero;
      without a consensus where a part of the hash is absent. */
  ghost predicate SealRaises(r: Rules, prefix: Chain, b: Block) {
    match r
    case Pow(_, _, _) => false
    case Pos(_, _, reward, _, stakes) =>
      var m := Replay(prefix, stakes, reward);
      && b.header.consensusType == Some("pos") && b.header.slot == Some(|prefix| + 1)
      && b.header.validatorId.Some? && b.header.validatorId.value != "" && b.header.validatorId.value in m
      && b.body.Some? && b.body.value.Dict? && b.header.prevHash.Some? && b.header.tranHash.Some?
      && Total(m) == 0
    case Legacy(_, _) => b.header.consensusType.None? && (b.body.None? || b.header.prevHash.None?)
  }

  /** A check of one block raises exactly where the link check does, or the link holds and the seal does. */
  lemma RaisesExactly(r: Rules, prefix: Chain, b: Block)
    ensures SelectorVerdict(r, prefix, b).Raises? <==>
      LinkRaises(prefix, b) || (LinkedTo(r.genesis, prefix, b) && SealRaises(r, prefix, b))
  {
    LinkExactly(r.genesis, prefix, b);
    LinkRaisesExactly(r.genesis, prefix, b);
    SealRaisesExactly(r, prefix, b);
  }

  lemma LinkRaisesExactly(genesis: string, prefix: Chain, b: Block)
    ensures ValidateChainLink(b, Tip(prefix), genesis).Raises? <==> LinkRaises(prefix, b)
  {
  }

  lemma SealRaisesExactly(r: Rules, prefix: Chain, b: Block)
    ensures ConsensusVerdict(r, prefix, b).Raises? <==> SealRaises(r, prefix, b)
  {
    if r.Pow? {
      WorkNeverRaises(r.env, r.pow, b, prefix);
    } else if r.Pos? {
      StakeRaises(r, prefix, b);
    }
  }

  lemma WorkNeverRaises(env: Crypto, settings: PowSettings, b: Block, chain: Chain)
    ensures !Work.ValidateBlock(env, settings, b, chain).Raises?
  {
  }

  lemma StakeRaises(r: Rules, prefix: Chain, b: Block)
    requires r.Pos?
    ensures ConsensusVerdict(r, prefix, b).Raises? <==> SealRaises(r, prefix, b)
  {
    Stake.RaisesExactly(r.env, r.keys, b, |prefix| + 1, Replay(prefix, r.stakes, r.reward));
  }

  /** The verifier reads the parent hash of a first block before anything else. */
  lemma VerifierRaisesExactly(r: Rules, prefix: Chain, b: Block)
    ensures VerifierVerdict(r, prefix, b).Raises? <==>
      if prefix != [] then SelectorVerdict(r, prefix, b).Raises?
      else b.header.prevHash.None? || (b.header.prevHash == Some(r.genesis) && SelectorVerdict(r, prefix, b).Raises?)
  {
    RaisesExactly(r, prefix, b);
  }

  /** The pass over a chain raises exactly if the check of its first block that is not accepted does. */
  lemma {:induction false} PassRaises(r: Rules, chain: Chain, i: nat, n: nat)
    requires i <= n < |chain| && ValidChain(r, chain[..n]) && !Accepts(r, chain[..n], chain[n])
    ensures CheckFrom(r, chain, i) == SelectorVerdict(r, chain[..n], chain[n])
    decreases n - i
  {
    if i < n {
      ValidPrefixAccepts(r, chain, n, i);
      CheckRound(r, chain, i, SelectorVerdict(r, chain[..i], chain[i]));
      PassRaises(r, chain, i + 1, n);
    }
  }

  lemma ValidPrefixAccepts(r: Rules, chain: Chain, n: nat, i: nat)
    requires i < n <= |chain| && ValidChain(r, chain[..n])
    ensures Accepts(r, chain[..i], chain[i])
  {
    assert Accepts(r, chain[..n][..i], chain[..n][i]);
    assert chain[..n][..i] == chain[..i];
  }
}
