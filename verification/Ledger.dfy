/** The chain and the stake cache as values: what `add_new_block`, `add_block` and
    `replace_chain` of blockchain.py do to them, and what every sequence of them keeps. */
module Ledger {
  import opened Types
  import opened HashUtils
  import opened Text
  import opened ConsensusBase
  import opened StakeMaps
  import opened Rules
  import opened ChainValidator
  import Work = ProofOfWork
  import Stake = ProofOfStake

  /** The chain, and the validator map the PoS object keeps beside it. */
  datatype Book = Book(chain: Chain, cache: Stakes)

  /** Who produces blocks: validator id, signing key, and whether unsealed blocks get signed. */
  datatype Author = Author(nodeId: Option<string>, privateKey: Option<string>, signing: bool)

  // ---------- production ----------

  /** The new block before consensus is applied to it. */
  function Draft(r: Rules, chain: Chain, prevHash: string, body: TransactionBody, now: int): Block {
    var hash := if r.Legacy? then r.env.sha(LegacyPreimage(prevHash, BodyHash(r.env, Dict(body)))) else "";
    var consensusType := match r
      case Legacy(_, _) => None
      case Pow(_, _, _) => Some("pow")
      case Pos(_, _, _, _, _) => Some("pos");
    Block(Some(Exact(|chain| + 1)), At(now), Header(Some(prevHash), Some(hash), consensusType, None, None, None, None),
          |body.inputData| + |body.outputData|, Some(Dict(body)), None, None)
  }

  /** The hash a new block must name. */
  function ParentHash(r: Rules, chain: Chain): Option<string> {
    if chain == [] then Some(r.genesis) else chain[|chain| - 1].header.tranHash
  }

  /** The block `add_new_block` makes, or the exception that leaves it. */
  ghost function Produce(r: Rules, author: Author, chain: Chain, body: TransactionBody, now: int): Result<Block> {
    if ParentHash(r, chain).None? then Failure("tran_hash")
    else
      var draft := Draft(r, chain, ParentHash(r, chain).value, body, now);
      match r
      case Pow(env, _, pow) => Work.Mined(env, pow, draft, chain)
      case Pos(env, _, reward, _, stakes) =>
        Stake.Proposed(env, author.nodeId, author.privateKey, draft, |chain| + 1, Replay(chain, stakes, reward))
      case Legacy(env, _) =>
        if !author.signing then Success(draft)
        else if author.privateKey.None? then Failure("private key is not set")
        else Success(Stake.SignBlock(env, author.privateKey.value, draft))
  }

  lemma ProducedByStake(r: Rules, author: Author, chain: Chain, prevHash: string, body: TransactionBody, now: int)
    requires r.Pos? && ParentHash(r, chain) == Some(prevHash)
    ensures Produce(r, author, chain, body, now) ==
      Stake.Proposed(r.env, author.nodeId, author.privateKey, Draft(r, chain, prevHash, body, now), |chain| + 1,
                     Replay(chain, r.stakes, r.reward))
  {
  }

  /** What production cannot see to itself: the PoW clock must not be behind the
      tip, and the PoS verifier must know the proposer's public key. */
  predicate Presentable(r: Rules, author: Author, chain: Chain, now: int) {
    match r
    case Pow(_, _, _) => chain != [] && chain[|chain| - 1].item.At? ==> now >= chain[|chain| - 1].item.seconds
    case Pos(env, _, _, keys, _) =>
      author.nodeId.Some? && author.privateKey.Some? && author.nodeId.value in keys
      && keys[author.nodeId.value] == env.publicKey(author.privateKey.value)
    case Legacy(_, _) => true
  }

  lemma DraftLinks(r: Rules, chain: Chain, b: Block)
    requires ValidChain(r, chain)
    requires b.index == Some(Exact(|chain| + 1)) && b.header.prevHash == ParentHash(r, chain)
    ensures ParentHash(r, chain).Some? && ValidateChainLink(b, Tip(chain), r.genesis).Valid?
  {
    if chain != [] {
      ValidLinks(r, chain, |chain| - 1);
    }
  }

  lemma ProducedShape(r: Rules, author: Author, chain: Chain, body: TransactionBody, now: int)
    requires Produce(r, author, chain, body, now).Success?
    ensures var b := Produce(r, author, chain, body, now).value;
      b.index == Some(Exact(|chain| + 1)) && b.item == At(now) && b.header.prevHash == ParentHash(r, chain) && b.body == Some(Dict(body))
  {
    var draft := Draft(r, chain, ParentHash(r, chain).value, body, now);
    match r
    case Pow(env, _, pow) => Work.MinedShape(env, pow, draft, chain);
    case Pos(env, _, reward, _, stakes) =>
      Stake.ProposedShape(env, author.nodeId, author.privateKey, draft, |chain| + 1, Replay(chain, stakes, reward));
    case Legacy(_, _) =>
  }

  lemma AcceptedHasTime(r: Rules, prefix: Chain, b: Block)
    requires r.Pow? && Accepts(r, prefix, b)
    ensures b.item.At?
    ensures prefix != [] ==> prefix[|prefix| - 1].item.At? && prefix[|prefix| - 1].item.seconds <= b.item.seconds
  {
    Work.ValidExactly(r.env, r.pow, b, prefix);
  }

  /** On a valid PoW chain every block has a time and times never go back. */
  lemma {:induction false} ValidTimesOrdered(r: Rules, chain: Chain, i: nat, j: nat)
    requires r.Pow? && ValidChain(r, chain) && i <= j < |chain|
    ensures chain[i].item.At? && chain[j].item.At? && chain[i].item.seconds <= chain[j].item.seconds
    decreases j - i
  {
    AcceptedHasTime(r, chain[..j], chain[j]);
    if i < j {
      ValidTimesOrdered(r, chain, i, j - 1);
      assert chain[..j][|chain[..j]| - 1] == chain[j - 1];
    }
  }

  lemma ProducedConsensus(r: Rules, author: Author, chain: Chain, body: TransactionBody, now: int)
    requires SignaturesVerify(r.env) && ValidChain(r, chain) && author.nodeId != Some("")
    requires Produce(r, author, chain, body, now).Success?
    ensures ConsensusVerdict(r, chain, Produce(r, author, chain, body, now).value).Valid?
       <==> Presentable(r, author, chain, now)
  {
    var draft := Draft(r, chain, ParentHash(r, chain).value, body, now);
    match r
    case Pow(env, _, pow) =>
      if chain != [] { ValidTimesOrdered(r, chain, |chain| - 1, |chain| - 1); }
      Work.MinedBlockValidates(env, pow, draft, chain);
    case Pos(env, _, reward, keys, stakes) =>
      Stake.ProposedBlockValidates(env, author.nodeId, author.privateKey, draft, |chain| + 1,
                                   Replay(chain, stakes, reward), keys);
    case Legacy(_, _) =>
  }

  /** Production meets validation: the block a node makes extends a valid chain, as any
      node with the same rules judges it, exactly when it is presentable. The judging
      node's stake cache plays no part. */
  lemma ProductionMeetsValidation(r: Rules, author: Author, chain: Chain, body: TransactionBody, now: int)
    requires SignaturesVerify(r.env) && ValidChain(r, chain) && author.nodeId != Some("")
    requires Produce(r, author, chain, body, now).Success?
    ensures ValidChain(r, chain + [Produce(r, author, chain, body, now).value]) <==> Presentable(r, author, chain, now)
  {
    var b := Produce(r, author, chain, body, now).value;
    ProducedShape(r, author, chain, body, now);
    DraftLinks(r, chain, b);
    ProducedConsensus(r, author, chain, body, now);
    ValidAppend(r, chain, b);
  }

  // ---------- the operations ----------

  /** The cache after one more block: `on_block_added`. */
  function Credit(r: Rules, cache: Stakes, b: Block): Stakes {
    if r.Pos? then Reward(cache, b, r.reward) else cache
  }

  function Append(r: Rules, book: Book, b: Block): Book {
    Book(book.chain + [b], Credit(r, book.cache, b))
  }

  datatype Operation =
    | AddNew(body: TransactionBody, now: int)
    | Add(block: Block)
    | Replace(chain: Chain)

  /** One operation on the object; a refusal or an exception changes nothing. */
  ghost function Apply(r: Rules, author: Author, book: Book, op: Operation): Book {
    match op
    case AddNew(body, now) =>
      var b := Produce(r, author, book.chain, body, now);
      if b.Success? then Append(r, book, b.value) else book
    case Add(b) => if AddVerdict(r, book.chain, b).Valid? then Append(r, book, b) else book
    case Replace(chain) =>
      if Verify(r, chain).Verified? then Book(chain, if r.Pos? then Replay(chain, r.stakes, r.reward) else book.cache)
      else book
  }

  ghost function ApplyAll(r: Rules, author: Author, book: Book, ops: seq<Operation>): Book
    decreases |ops|
  {
    if ops == [] then book else ApplyAll(r, author, Apply(r, author, book, ops[0]), ops[1..])
  }

  /** The stake cache is what a replay of the chain would compute. */
  ghost predicate CacheIsReplay(r: Rules, book: Book) {
    r.Pos? ==> book.cache == Replay(book.chain, r.stakes, r.reward)
  }

  lemma ApplyKeepsCache(r: Rules, author: Author, book: Book, op: Operation)
    requires CacheIsReplay(r, book)
    ensures CacheIsReplay(r, Apply(r, author, book, op))
  {
    if r.Pos? {
      match op
      case AddNew(body, now) =>
        var b := Produce(r, author, book.chain, body, now);
        if b.Success? { ReplayAppend(book.chain, b.value, r.stakes, r.reward); }
      case Add(b) => ReplayAppend(book.chain, b, r.stakes, r.reward);
      case Replace(_) =>
    }
  }

  /** Through any sequence of operations the mutable cache equals the replay. */
  lemma {:induction false} CacheStaysReplay(r: Rules, author: Author, book: Book, ops: seq<Operation>)
    requires CacheIsReplay(r, book)
    ensures CacheIsReplay(r, ApplyAll(r, author, book, ops))
    decreases |ops|
  {
    if ops != [] {
      ApplyKeepsCache(r, author, book, ops[0]);
      CacheStaysReplay(r, author, Apply(r, author, book, ops[0]), ops[1..]);
    }
  }

  // ---------- the cache of a freshly created node ----------

  /** `create_consensus` of factory.py: a node missing from genesis registers itself. */
  function InitialCache(stakes: Stakes, nodeId: Option<string>, minStake: nat): Stakes {
    if nodeId.Some? && nodeId.value != "" && nodeId.value !in stakes then stakes[nodeId.value := minStake] else stakes
  }

  /** The public keys `create_consensus` registers: no PEM is handed in, so only the node's own key gets in. */
  function FactoryKeys(env: Crypto, stakes: Stakes, nodeId: Option<string>, privateKey: Option<string>): map<string, string> {
    if nodeId.Some? && privateKey.Some? && (nodeId.value in stakes || nodeId.value != "")
    then map[nodeId.value := env.publicKey(privateKey.value)] else map[]
  }

  /** Genesis already holds everything the factory registers. */
  predicate Listed(stakes: Stakes, nodeId: Option<string>) {
    nodeId.Some? && nodeId.value != "" ==> nodeId.value in stakes
  }

  /** Some replacement in `ops` goes through. */
  ghost predicate Synced(r: Rules, author: Author, book: Book, ops: seq<Operation>)
    decreases |ops|
  {
    ops != [] && ((ops[0].Replace? && Verify(r, ops[0].chain).Verified?)
                  || Synced(r, author, Apply(r, author, book, ops[0]), ops[1..]))
  }

  lemma {:induction false} UnsyncedKeepsKeys(r: Rules, author: Author, book: Book, ops: seq<Operation>)
    requires !Synced(r, author, book, ops)
    ensures ApplyAll(r, author, book, ops).cache.Keys == book.cache.Keys
    decreases |ops|
  {
    if ops != [] {
      UnsyncedKeepsKeys(r, author, Apply(r, author, book, ops[0]), ops[1..]);
    }
  }

  lemma {:induction false} SyncRestoresCache(r: Rules, author: Author, book: Book, ops: seq<Operation>)
    requires r.Pos? && Synced(r, author, book, ops)
    ensures CacheIsReplay(r, ApplyAll(r, author, book, ops))
    decreases |ops|
  {
    var next := Apply(r, author, book, ops[0]);
    if ops[0].Replace? && Verify(r, ops[0].chain).Verified? {
      CacheStaysReplay(r, author, next, ops[1..]);
    } else {
      SyncRestoresCache(r, author, next, ops[1..]);
    }
  }

  /** From the factory, after any operations, the cache equals the replay exactly
      when the node was listed in genesis or has since replaced its chain. */
  lemma FactoryCacheExact(r: Rules, author: Author, minStake: nat, ops: seq<Operation>)
    requires r.Pos?
    ensures var book := Book([], InitialCache(r.stakes, author.nodeId, minStake));
      CacheIsReplay(r, ApplyAll(r, author, book, ops)) <==> Listed(r.stakes, author.nodeId) || Synced(r, author, book, ops)
  {
    var book := Book([], InitialCache(r.stakes, author.nodeId, minStake));
    if Synced(r, author, book, ops) {
      SyncRestoresCache(r, author, book, ops);
    } else if Listed(r.stakes, author.nodeId) {
      CacheStaysReplay(r, author, book, ops);
    } else {
      UnsyncedKeepsKeys(r, author, book, ops);
      assert author.nodeId.value in book.cache.Keys;
    }
  }

  // ---------- serving blocks ----------

  function Clamp(n: int, top: nat): nat {
    if n < 0 then 0 else if n > top then top else n
  }

  /** The blocks of heights `fromHeight` and up, at most `limit` of them: one stretch of the chain. */
  function BlocksFrom(chain: Chain, fromHeight: int, limit: Option<nat>): Chain {
    var lo := Clamp(fromHeight - 1, |chain|);
    chain[lo..if limit.Some? then Clamp(lo + limit.value, |chain|) else |chain|]
  }

  /** Block for block: position i of the answer is the block of height max(from, 1) + i, and there are as
      many as the chain and the limit allow. */
  lemma BlocksFromExactly(chain: Chain, fromHeight: int, limit: Option<nat>)
    ensures var blocks, first := BlocksFrom(chain, fromHeight, limit), if fromHeight < 1 then 1 else fromHeight;
      && (forall i :: 0 <= i < |blocks| ==> first - 1 + i < |chain| && blocks[i] == chain[first - 1 + i])
      && (limit.Some? ==> |blocks| <= limit.value)
      && (first - 1 + |blocks| >= |chain| || limit == Some(|blocks|))
  {
  }

  // ---------- the block a node makes, field by field ----------

  /** What every new block carries, whatever the consensus adds. */
  predicate NewBlockFields(r: Rules, chain: Chain, body: TransactionBody, now: int, b: Block) {
    && b.index == Some(Exact(|chain| + 1)) && b.item == At(now)
    && b.header.prevHash == (if chain == [] then Some(r.genesis) else chain[|chain| - 1].header.tranHash)
    && b.tranCounter == |body.inputData| + |body.outputData| && b.body == Some(Dict(body))
  }

  /** Under PoW: a block is made if and only if the tip has a hash and some nonce below the limit gives the
      zeros asked for; the first such nonce is taken, and the block stays unsigned. */
  lemma WorkProduced(r: Rules, author: Author, chain: Chain, body: TransactionBody, now: int, prev: string)
    requires r.Pow? && (if chain == [] then prev == r.genesis else chain[|chain| - 1].header.tranHash == Some(prev))
    ensures var made, d := Produce(r, author, chain, body, now), Work.GetDifficulty(r.pow, chain);
      && (made.Success? <==>
           exists k :: 0 <= k < r.pow.maxMiningIterations && ZeroPrefix(NonceHash(r.env, prev, body, k), d))
      && (made.Success? ==>
           var b := made.value;
           && NewBlockFields(r, chain, body, now, b) && b.signature.None? && b.publicKey.None?
           && b.header.consensusType == Some("pow") && b.header.difficulty == Some(d)
           && b.header.nonce.Some? && 0 <= b.header.nonce.value < r.pow.maxMiningIterations
           && b.header.tranHash == Some(NonceHash(r.env, prev, body, b.header.nonce.value))
           && ZeroPrefix(NonceHash(r.env, prev, body, b.header.nonce.value), d)
           && forall k :: 0 <= k < b.header.nonce.value ==> !ZeroPrefix(NonceHash(r.env, prev, body, k), d))
  {
    var draft := Draft(r, chain, prev, body, now);
    var made := Work.Mined(r.env, r.pow, draft, chain);
    forall k: int ensures Work.TriedHash(r.env, draft, k) == NonceHash(r.env, prev, body, k) {
    }
    Work.MiningExactly(r.env, r.pow, draft, chain, 0);
    if made.Success? && made.value.header.nonce.Some? && made.value.header.nonce.value >= 0 {
      Work.MiningExactly(r.env, r.pow, draft, chain, made.value.header.nonce.value);
    }
  }

  /** The hash of a new block for a nonce. */
  function NonceHash(env: Crypto, prev: string, body: TransactionBody, nonce: int): string {
    env.sha(prev + env.sha(env.bodyText(Dict(body))) + Str(nonce))
  }

  /** Under PoS: a block is made if and only if the node is the validator drawn for the next height from the
      stakes replayed over the chain, and has a key; it is hashed for the node and signed. */
  lemma StakeProduced(r: Rules, author: Author, chain: Chain, body: TransactionBody, now: int, prev: string)
    requires r.Pos? && (if chain == [] then prev == r.genesis else chain[|chain| - 1].header.tranHash == Some(prev))
    ensures var made, m := Produce(r, author, chain, body, now), Replay(chain, r.stakes, r.reward);
      && (made.Success? <==>
           && author.nodeId.Some? && author.privateKey.Some? && author.nodeId.value in m && Total(m) > 0
           && var pick := HexValue(r.env.sha("slot-" + Str(|chain| + 1))) % Total(m);
           && StakeBefore(m, author.nodeId.value) <= pick < StakeBefore(m, author.nodeId.value) + m[author.nodeId.value])
      && (made.Success? ==>
           var b, v := made.value, author.nodeId.value;
           && NewBlockFields(r, chain, body, now, b)
           && b.header.consensusType == Some("pos") && b.header.validatorId == Some(v) && b.header.slot == Some(|chain| + 1)
           && b.header.tranHash == Some(r.env.sha(prev + r.env.sha(r.env.bodyText(Dict(body))) + v + Str(|chain| + 1)))
           && b.publicKey == Some(r.env.publicKey(author.privateKey.value))
           && b.signature == Some(r.env.sign(author.privateKey.value, b.(signature := None, publicKey := None))))
  {
    var draft, m := Draft(r, chain, prev, body, now), Replay(chain, r.stakes, r.reward);
    ProducedByStake(r, author, chain, prev, body, now);
    var made := Stake.Proposed(r.env, author.nodeId, author.privateKey, draft, |chain| + 1, m);
    Stake.ProposingExactly(r.env, author.nodeId, author.privateKey, draft, |chain| + 1, m);
    if made.Success? {
      Stake.ProposedFields(r.env, author.nodeId, author.privateKey, draft, |chain| + 1, m);
    }
  }

  /** Without a consensus: a block is made unless it should be signed and there is no key. Signed, it verifies. */
  lemma LegacyProduced(r: Rules, author: Author, chain: Chain, body: TransactionBody, now: int, prev: string)
    requires r.Legacy? && (if chain == [] then prev == r.genesis else chain[|chain| - 1].header.tranHash == Some(prev))
    ensures var made := Produce(r, author, chain, body, now);
      && (made.Success? <==> !author.signing || author.privateKey.Some?)
      && (made.Success? ==>
           var b := made.value;
           && NewBlockFields(r, chain, body, now, b) && b.header.consensusType.None?
           && b.header.tranHash == Some(r.env.sha(prev + r.env.sha(r.env.bodyText(Dict(body)))))
           && (!author.signing ==> b.signature.None? && b.publicKey.None?)
           && (author.signing && SignaturesVerify(r.env) ==> Stake.VerifySignature(r.env, b)))
  {
    if author.signing && author.privateKey.Some? && SignaturesVerify(r.env) {
      Stake.SignedBlockVerifies(r.env, author.privateKey.value, Draft(r, chain, prev, body, now));
    }
  }

  /** A chain whose tip has no hash cannot be continued. */
  lemma NothingProduced(r: Rules, author: Author, chain: Chain, body: TransactionBody, now: int)
    requires chain != [] && chain[|chain| - 1].header.tranHash.None?
    ensures Produce(r, author, chain, body, now).Failure?
  {
  }

  /** What the factory puts into cache and registry, entry by entry. */
  lemma FactoryExactly(env: Crypto, stakes: Stakes, nodeId: Option<string>, privateKey: Option<string>, minStake: nat, v: string)
    ensures var cache, keys := InitialCache(stakes, nodeId, minStake), FactoryKeys(env, stakes, nodeId, privateKey);
      && (v in cache <==> v in stakes || (nodeId == Some(v) && v != ""))
      && (v in cache ==> cache[v] == if v in stakes then stakes[v] else minStake)
      && (v in keys <==> nodeId == Some(v) && v in cache && privateKey.Some?)
      && (v in keys ==> keys[v] == env.publicKey(privateKey.value))
  {
  }
}
