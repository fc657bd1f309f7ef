/** The tip hash of a chain commits to the whole chain. */
module Commitment {
  import opened Types
  import opened HashUtils
  import opened Rules
  import opened ForkChoice
  import opened StakeMaps
  import Work = ProofOfWork
  import Stake = ProofOfStake

  /** The text hashed into a block's `tran_hash`. */
  function TranPreimage(r: Rules, b: Block): string {
    if b.body.None? || b.header.prevHash.None? then ""
    else
      var p, t := b.header.prevHash.value, BodyHash(r.env, b.body.value);
      match r
      case Legacy(_, _) => LegacyPreimage(p, t)
      case Pow(_, _, _) => PowPreimage(p, t, GetOr(b.header.nonce, 0))
      case Pos(_, _, _, _, _) => PosPreimage(p, t, GetOr(b.header.validatorId, ""), GetOr(b.header.slot, 0))
  }

  function BodyPreimage(r: Rules, b: Block): string {
    if b.body.None? then "" else r.env.bodyText(b.body.value)
  }

  /** Every text hashed while `chain` is checked. */
  function HashedTexts(r: Rules, chain: Chain): set<string> {
    (set i | 0 <= i < |chain| :: TranPreimage(r, chain[i])) + (set i | 0 <= i < |chain| :: BodyPreimage(r, chain[i]))
  }

  /** The two blocks agree on everything the hashes commit to. */
  ghost predicate SameCommitted(r: Rules, x: Block, y: Block) {
    x.header.tranHash == y.header.tranHash
    && x.header.prevHash == y.header.prevHash
    && BodyPreimage(r, x) == BodyPreimage(r, y)
    && (r.Pow? ==> x.header.nonce == y.header.nonce)
    && (r.Pos? ==> x.header.validatorId == y.header.validatorId && x.header.slot == y.header.slot)
  }

  /** A valid block's hash is the hash of its pre-image; the length of its parent hash depends on its height only. */
  lemma ValidHash(r: Rules, chain: Chain, i: nat)
    requires ValidChain(r, chain) && i < |chain|
    ensures chain[i].header.tranHash == Some(r.env.sha(TranPreimage(r, chain[i])))
    ensures chain[i].header.prevHash.Some? && chain[i].body.Some?
    ensures |chain[i].header.prevHash.value| == if i == 0 then |r.genesis| else 64
    ensures r.Pow? ==> chain[i].header.nonce.Some?
    ensures r.Pos? ==> chain[i].header.validatorId.Some? && chain[i].header.slot == Some(i + 1)
    decreases i
  {
    ValidLinks(r, chain, i);
    SealAt(r, chain, i);
    if i > 0 {
      ValidHash(r, chain, i - 1);
    }
  }

  lemma SealAt(r: Rules, chain: Chain, i: nat)
    requires ValidChain(r, chain) && i < |chain|
    ensures chain[i].header.tranHash == Some(r.env.sha(TranPreimage(r, chain[i])))
    ensures r.Pow? ==> chain[i].header.nonce.Some?
    ensures r.Pos? ==> chain[i].header.validatorId.Some? && chain[i].header.slot == Some(i + 1)
  {
    assert Accepts(r, chain[..i], chain[i]);
    ValidSeal(r, chain[..i], chain[i]);
  }

  /** What a block that passes the consensus check must carry. */
  lemma ValidSeal(r: Rules, prefix: Chain, b: Block)
    requires ConsensusVerdict(r, prefix, b).Valid?
    ensures b.header.tranHash == Some(r.env.sha(TranPreimage(r, b)))
    ensures r.Pow? ==> b.header.nonce.Some?
    ensures r.Pos? ==> b.header.validatorId.Some? && b.header.slot == Some(|prefix| + 1)
  {
    match r
    case Legacy(_, _) =>
    case Pow(env, _, pow) => Work.ValidHashed(env, pow, b, prefix);
    case Pos(env, _, reward, keys, stakes) =>
      Stake.ValidIsSealed(env, keys, b, |prefix| + 1, Replay(prefix, stakes, reward));
  }

  /** Equal hashes at one height commit both blocks. */
  lemma SameHashSameBlock(r: Rules, a: Chain, b: Chain, i: nat)
    requires ValidChain(r, a) && ValidChain(r, b) && i < |a| && i < |b|
    requires NoCollision(r.env, HashedTexts(r, a) + HashedTexts(r, b))
    requires a[i].header.tranHash == b[i].header.tranHash
    ensures SameCommitted(r, a[i], b[i])
  {
    ValidHash(r, a, i);
    ValidHash(r, b, i);
    var x, y := a[i], b[i];
    assert TranPreimage(r, x) in HashedTexts(r, a) && TranPreimage(r, y) in HashedTexts(r, b);
    assert TranPreimage(r, x) == TranPreimage(r, y);
    var p, t := x.header.prevHash.value, BodyHash(r.env, x.body.value);
    var p', t' := y.header.prevHash.value, BodyHash(r.env, y.body.value);
    match r
    case Legacy(_, _) =>
      assert p + t == p + t + "" && p' + t' == p' + t' + "";
      PartsUnique(p, t, "", p', t', "");
    case Pow(_, _, _) =>
      PowPreimageInjective(p, t, x.header.nonce.value, p', t', y.header.nonce.value);
    case Pos(_, _, _, _, _) =>
      PosPreimageInjective(p, t, x.header.validatorId.value, p', t', y.header.validatorId.value, i + 1);
    assert BodyPreimage(r, x) in HashedTexts(r, a) && BodyPreimage(r, y) in HashedTexts(r, b);
  }

  /** Two valid chains of equal length with the same tip hash agree at every
      height on every field the hashes commit to. */
  lemma {:induction false} TipCommits(r: Rules, a: Chain, b: Chain, i: nat)
    requires ValidChain(r, a) && ValidChain(r, b) && |a| == |b| && i < |a|
    requires NoCollision(r.env, HashedTexts(r, a) + HashedTexts(r, b))
    requires a[|a| - 1].header.tranHash == b[|b| - 1].header.tranHash
    ensures SameCommitted(r, a[i], b[i])
    decreases |a| - i
  {
    if i < |a| - 1 {
      TipCommits(r, a, b, i + 1);
      ValidLinks(r, a, i + 1);
      ValidLinks(r, b, i + 1);
    }
    SameHashSameBlock(r, a, b, i);
  }

  /** PoS chains of equal score agree at every height on the committed fields. */
  lemma EqualPosScoresAgree(r: Rules, a: Chain, b: Chain, i: nat)
    requires r.Pos? && ValidChain(r, a) && ValidChain(r, b)
    requires ScoreOf(r, a) == ScoreOf(r, b)
    requires NoCollision(r.env, HashedTexts(r, a) + HashedTexts(r, b))
    requires i < |a|
    ensures |a| == |b| && SameCommitted(r, a[i], b[i])
  {
    ValidLinks(r, a, |a| - 1);
    ValidLinks(r, b, |b| - 1);
    TipCommits(r, a, b, i);
  }

  /** Order-independence for PoS down to the blocks: nodes that have seen the
      same chains end at chains that agree at every height. */
  lemma PosConfluence(r: Rules, a: Chain, seenByA: seq<Chain>, b: Chain, seenByB: seq<Chain>, i: nat)
    requires r.Pos? && ValidChain(r, a) && ValidChain(r, b)
    requires forall c :: c in [a] + seenByA <==> c in [b] + seenByB
    requires Comparable(r, [a] + seenByA)
    requires var x, y := ResolveAll(r, a, seenByA), ResolveAll(r, b, seenByB);
      NoCollision(r.env, HashedTexts(r, x) + HashedTexts(r, y)) && i < |x|
    ensures var x, y := ResolveAll(r, a, seenByA), ResolveAll(r, b, seenByB);
      |x| == |y| && SameCommitted(r, x[i], y[i])
  {
    ResolveAllMaximal(r, a, seenByA);
    ResolveAllMaximal(r, b, seenByB);
    Confluence(r, a, seenByA, b, seenByB);
    EqualPosScoresAgree(r, ResolveAll(r, a, seenByA), ResolveAll(r, b, seenByB), i);
  }
}
