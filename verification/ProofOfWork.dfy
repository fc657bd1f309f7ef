/** Proof of work: difficulty, mining and block validation (consensus/pow.py).

    A float division is the exact quotient rounded by the settings' `round`. */
module ProofOfWork {
  import opened Types
  import opened HashUtils
  import opened Text

  /** `int(x)`: truncation toward zero. */
  function Truncate(x: real): int {
    if x >= 0.0 then x.Floor else -((-x).Floor)
  }

  /** `math.ceil(x)`. */
  function Ceiling(x: real): int {
    -((-x).Floor)
  }

  function Max(a: int, b: int): int {
    if a >= b then a else b
  }

  /** `_elapsed_seconds`. */
  function ElapsedSeconds(settings: PowSettings, first: Block, last: Block): int {
    if first.item.At? && last.item.At? then Max(1, last.item.seconds - first.item.seconds)
    else settings.targetBlockTimeSeconds * settings.adjustmentInterval
  }

  /** The float quotient of two floats. */
  function Quotient(p: PowSettings, a: real, b: real): real
    requires b != 0.0
  {
    p.round(a / b)
  }

  /** Blocks came too slowly (`ratio > 1`). */
  function Lowered(p: PowSettings, first: int, ratio: real): int
    requires ratio > 1.0
  {
    var factor := if ratio <= p.maxAdjustmentFactor then ratio else p.maxAdjustmentFactor;
    Max(Max(1, Truncate(Quotient(p, first as real, factor))), Ceiling(Quotient(p, first as real, p.maxAdjustmentFactor)))
  }

  /** Blocks came too fast (`ratio < 1`). */
  function Raised(p: PowSettings, first: int, ratio: real): int {
    var reciprocal := Quotient(p, 1.0, p.maxAdjustmentFactor);
    var divisor := if ratio >= reciprocal then ratio else reciprocal;
    Max(1, Truncate(Quotient(p, first as real, divisor)))
  }

  function ByRatio(p: PowSettings, first: int, ratio: real): int {
    if ratio > 1.0 then Lowered(p, first, ratio)
    else if ratio < 1.0 then Raised(p, first, ratio)
    else first
  }

  /** The new difficulty after an interval that began at difficulty `first`. */
  function Retarget(p: PowSettings, first: int, actual: int, expected: int): int {
    if expected <= 0 || actual <= 0 then first
    else ByRatio(p, first, Quotient(p, actual as real, expected as real))
  }

  /** `get_difficulty`: the difficulty the block after `chain` must declare. */
  function GetDifficulty(settings: PowSettings, chain: Chain): int {
    if chain == [] then settings.initialDifficulty
    else if |chain| < settings.adjustmentInterval then
      GetOr(chain[|chain| - 1].header.difficulty, settings.initialDifficulty)
    else
      var recent := chain[|chain| - settings.adjustmentInterval..];
      var first := GetOr(recent[0].header.difficulty, settings.initialDifficulty);
      var actual := ElapsedSeconds(settings, recent[0], recent[|recent| - 1]);
      var expected := settings.targetBlockTimeSeconds * (settings.adjustmentInterval - 1);
      Retarget(settings, first, actual, expected)
  }

  /** `validate_block`: `chain` is the parent chain, without `block`. */
  function ValidateBlock(env: Crypto, settings: PowSettings, block: Block, chain: Chain): Verdict {
    var header := block.header;
    if header.consensusType != Some("pow") then Invalid("consensus_type is not pow")
    else if header.nonce.None? || header.difficulty.None? || block.body.None?
         || header.prevHash.None? || header.tranHash.None? then Invalid("missing PoW fields")
    else if header.difficulty.value != GetDifficulty(settings, chain) then
      Invalid("difficulty does not match network expectation")
    else if block.item.NoStamp? then Invalid("missing or invalid block_item")
    else if block.item.BadStamp? then Invalid("invalid block_item format")
    else if chain != [] && !chain[|chain| - 1].item.At? then Invalid("parent block_item missing or invalid")
    else if chain != [] && block.item.seconds < chain[|chain| - 1].item.seconds then
      Invalid("block_item earlier than parent")
    else
      var hash := env.sha(PowPreimage(header.prevHash.value, BodyHash(env, block.body.value), header.nonce.value));
      if header.tranHash.value != hash then Invalid("tran_hash mismatch")
      else if !MeetsDifficulty(hash, header.difficulty.value) then Invalid("difficulty not met")
      else Valid
  }

  /** Nonce `n` makes a hash of the required difficulty. */
  predicate Qualifies(env: Crypto, prevHash: string, bodyHash: string, difficulty: int, n: int) {
    MeetsDifficulty(env.sha(PowPreimage(prevHash, bodyHash, n)), difficulty)
  }

  /** The least qualifying nonce in from..limit-1. */
  function LeastNonce(env: Crypto, prevHash: string, bodyHash: string, difficulty: int, from: nat, limit: int): (n: Option<nat>)
    ensures n.Some? ==> from <= n.value < limit && Qualifies(env, prevHash, bodyHash, difficulty, n.value)
    ensures n.Some? ==> forall k :: from <= k < n.value ==> !Qualifies(env, prevHash, bodyHash, difficulty, k)
    ensures n.None? ==> forall k :: from <= k < limit ==> !Qualifies(env, prevHash, bodyHash, difficulty, k)
    decreases limit - from
  {
    if from >= limit then None
    else if Qualifies(env, prevHash, bodyHash, difficulty, from) then Some(from)
    else LeastNonce(env, prevHash, bodyHash, difficulty, from + 1, limit)
  }

  /** The block `mine_block` hands back for a given nonce. */
  function Sealed(env: Crypto, block: Block, difficulty: int, nonce: int): Block
    requires block.header.prevHash.Some? && block.body.Some?
  {
    var hash := env.sha(PowPreimage(block.header.prevHash.value, BodyHash(env, block.body.value), nonce));
    block.(header := block.header.(
      nonce := Some(nonce), difficulty := Some(difficulty), tranHash := Some(hash), consensusType := Some("pow")))
  }

  /** Sealing `b` again with its own nonce changes nothing, and that nonce does the work asked for. */
  predicate SealedWithWork(env: Crypto, b: Block, difficulty: int) {
    && b.header.prevHash.Some? && b.body.Some? && b.header.nonce.Some?
    && b == Sealed(env, b, difficulty, b.header.nonce.value)
    && Qualifies(env, b.header.prevHash.value, BodyHash(env, b.body.value), difficulty, b.header.nonce.value)
  }

  /** The block has a time, and it is not before its parent's. */
  predicate InTime(b: Block, chain: Chain) {
    && b.item.At?
    && (chain != [] ==> chain[|chain| - 1].item.At? && chain[|chain| - 1].item.seconds <= b.item.seconds)
  }

  /** Validation accepts exactly the blocks that sealing would produce, in order of time. */
  lemma ValidExactly(env: Crypto, settings: PowSettings, b: Block, chain: Chain)
    ensures ValidateBlock(env, settings, b, chain).Valid? <==>
      SealedWithWork(env, b, GetDifficulty(settings, chain)) && InTime(b, chain)
  {
    if SealedWithWork(env, b, GetDifficulty(settings, chain)) {
      var seal := Sealed(env, b, GetDifficulty(settings, chain), b.header.nonce.value).header;
      assert b.header.difficulty == seal.difficulty && b.header.tranHash == seal.tranHash && b.header.consensusType == seal.consensusType;
    }
  }

  /** A valid block is hashed for its own nonce. */
  lemma ValidHashed(env: Crypto, settings: PowSettings, b: Block, chain: Chain)
    requires ValidateBlock(env, settings, b, chain).Valid?
    ensures b.header.nonce.Some? && b.header.prevHash.Some? && b.body.Some?
    ensures b.header.tranHash == Some(env.sha(PowPreimage(b.header.prevHash.value, BodyHash(env, b.body.value), b.header.nonce.value)))
  {
  }

  /** Sealing with nonce `n` gives a valid block exactly when the nonce qualifies and the time is in order. */
  lemma SealValidates(env: Crypto, settings: PowSettings, block: Block, chain: Chain, n: int)
    requires block.header.prevHash.Some? && block.body.Some?
    ensures ValidateBlock(env, settings, Sealed(env, block, GetDifficulty(settings, chain), n), chain).Valid? <==>
      Qualifies(env, block.header.prevHash.value, BodyHash(env, block.body.value), GetDifficulty(settings, chain), n)
      && InTime(block, chain)
  {
    var sealed := Sealed(env, block, GetDifficulty(settings, chain), n);
    assert sealed == Sealed(env, sealed, GetDifficulty(settings, chain), n);
    ValidExactly(env, settings, sealed, chain);
  }

  /** What mining yields: the block sealed with the least qualifying nonce, or the mining failure. */
  function Mined(env: Crypto, settings: PowSettings, block: Block, chain: Chain): Result<Block>
    requires block.header.prevHash.Some? && block.body.Some?
  {
    var difficulty := GetDifficulty(settings, chain);
    match LeastNonce(env, block.header.prevHash.value, BodyHash(env, block.body.value), difficulty, 0, settings.maxMiningIterations)
    case Some(n) => Success(Sealed(env, block, difficulty, n))
    case None => Failure("PoW mining failed: max iterations exceeded")
  }

  /** Mining fills in the seal and leaves the rest of the block alone. */
  lemma MinedShape(env: Crypto, settings: PowSettings, block: Block, chain: Chain)
    requires block.header.prevHash.Some? && block.body.Some?
    requires Mined(env, settings, block, chain).Success?
    ensures var b := Mined(env, settings, block, chain).value;
      b.index == block.index && b.item == block.item && b.header.prevHash == block.header.prevHash && b.body == block.body
  {
  }

  /** `mine_block`: tries nonces in order. */
  method MineBlock(env: Crypto, settings: PowSettings, block: Block, chain: Chain) returns (r: Result<Block>)
    requires block.header.prevHash.Some? && block.body.Some?
    ensures r == Mined(env, settings, block, chain)
  {
    var prevHash := block.header.prevHash.value;
    var bodyHash := BodyHash(env, block.body.value);
    var difficulty := GetDifficulty(settings, chain);
    var nonce := 0;
    while nonce < settings.maxMiningIterations
      invariant 0 <= nonce
      invariant LeastNonce(env, prevHash, bodyHash, difficulty, 0, settings.maxMiningIterations)
             == LeastNonce(env, prevHash, bodyHash, difficulty, nonce, settings.maxMiningIterations)
    {
      var hash := env.sha(PowPreimage(prevHash, bodyHash, nonce));
      if MeetsDifficulty(hash, difficulty) {
        return Success(block.(header := block.header.(
          nonce := Some(nonce), difficulty := Some(difficulty), tranHash := Some(hash), consensusType := Some("pow"))));
      }
      nonce := nonce + 1;
    }
    r := Failure("PoW mining failed: max iterations exceeded");
  }

  /** A mined block passes validation exactly when its clock is not behind the parent's. */
  lemma MinedBlockValidates(env: Crypto, settings: PowSettings, block: Block, chain: Chain)
    requires block.header.prevHash.Some? && block.body.Some? && block.item.At?
    requires chain != [] ==> chain[|chain| - 1].item.At?
    requires Mined(env, settings, block, chain).Success?
    ensures ValidateBlock(env, settings, Mined(env, settings, block, chain).value, chain).Valid?
       <==> (chain != [] ==> block.item.seconds >= chain[|chain| - 1].item.seconds)
  {
    var n := LeastNonce(env, block.header.prevHash.value, BodyHash(env, block.body.value),
                        GetDifficulty(settings, chain), 0, settings.maxMiningIterations).value;
    SealValidates(env, settings, block, chain, n);
  }

  /** Mining a block whose time is in order fails only if no nonce it may try would make the block
      valid; otherwise no smaller nonce than the one found would. */
  lemma MiningComplete(env: Crypto, settings: PowSettings, block: Block, chain: Chain, n: int)
    requires block.header.prevHash.Some? && block.body.Some? && InTime(block, chain)
    requires 0 <= n < settings.maxMiningIterations
    requires ValidateBlock(env, settings, Sealed(env, block, GetDifficulty(settings, chain), n), chain).Valid?
    ensures var mined := Mined(env, settings, block, chain);
      && mined.Success? && mined.value.header.nonce.Some? && 0 <= mined.value.header.nonce.value <= n
      && ValidateBlock(env, settings, mined.value, chain).Valid?
  {
    SealValidates(env, settings, block, chain, n);
    var least := LeastNonce(env, block.header.prevHash.value, BodyHash(env, block.body.value),
                            GetDifficulty(settings, chain), 0, settings.maxMiningIterations);
    assert least.Some?;
    SealValidates(env, settings, block, chain, least.value);
  }

  /** Where nonce 0 qualifies, mining takes it. */
  lemma FirstNonceMines(env: Crypto, settings: PowSettings, block: Block, chain: Chain)
    requires block.header.prevHash.Some? && block.body.Some? && settings.maxMiningIterations >= 1
    requires Qualifies(env, block.header.prevHash.value, BodyHash(env, block.body.value), GetDifficulty(settings, chain), 0)
    ensures Mined(env, settings, block, chain) == Success(Sealed(env, block, GetDifficulty(settings, chain), 0))
  {
  }

  /** The hash that mining tries for a nonce. */
  function TriedHash(env: Crypto, block: Block, nonce: int): string
    requires block.header.prevHash.Some? && block.body.Some?
  {
    env.sha(block.header.prevHash.value + env.sha(env.bodyText(block.body.value)) + Str(nonce))
  }

  /** What mining finds, in terms of hashes alone: it yields nonce n if and only if n is the first nonce
      below the limit whose hash begins with as many zeros as the expected difficulty, and it fails
      if and only if there is none. The block carries that nonce, hash and difficulty. */
  lemma MiningExactly(env: Crypto, settings: PowSettings, block: Block, chain: Chain, n: nat)
    requires block.header.prevHash.Some? && block.body.Some?
    ensures var mined, d := Mined(env, settings, block, chain), GetDifficulty(settings, chain);
      && (mined.Failure? <==> forall k :: 0 <= k < settings.maxMiningIterations ==> !ZeroPrefix(TriedHash(env, block, k), d))
      && (mined.Success? && mined.value.header.nonce == Some(n) <==>
            && n < settings.maxMiningIterations && ZeroPrefix(TriedHash(env, block, n), d)
            && forall k :: 0 <= k < n ==> !ZeroPrefix(TriedHash(env, block, k), d))
      && (mined.Success? ==>
            && mined.value.header.nonce.Some?
            && mined.value == block.(header := block.header.(
                 nonce := mined.value.header.nonce, difficulty := Some(d), consensusType := Some("pow"),
                 tranHash := Some(TriedHash(env, block, mined.value.header.nonce.value)))))
  {
    var p, t, d := block.header.prevHash.value, BodyHash(env, block.body.value), GetDifficulty(settings, chain);
    forall k: int ensures Qualifies(env, p, t, d, k) <==> ZeroPrefix(TriedHash(env, block, k), d) {
      MeetsByDigits(TriedHash(env, block, k), d);
    }
    var least := LeastNonce(env, p, t, d, 0, settings.maxMiningIterations);
    if least.Some? && least.value != n {
      assert least.value < n ==> ZeroPrefix(TriedHash(env, block, least.value), d);
    }
  }
}
