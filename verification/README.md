# Verification model of easyblockchain

A Dafny 4.11 model of the consensus and chain-replication engine of easyblockchain, with
machine-checked proofs. It covers proof of work and proof of stake (validation, production,
fork choice), the `BlockChain` object, the whole-chain verifier, the `Node` steps that drive
them (local blocks, NEW_BLOCK, batched synchronisation, fork resolution, debounced saving,
restore), the crash behaviour of `ChainStore`, the sliding-window rate limiter and the
reconnect backoff.

`dafny verify dfyconfig.toml` checks everything.

## How the model is built

Code that only computes is a function. Code that works by updating things is a class or a
method with loops, proved equal to a function of the values involved, and the theorems are
about those functions:

| module | source file | values and functions | objects and loops |
|---|---|---|---|
| Types, Text, Reals, HashUtils, ConsensusBase | types.py, hash_utils.py, consensus/base.py | blocks, Python text order and `str(int)`, powers and quotients, hash pre-images, link check | |
| ProofOfWork, Difficulty | consensus/pow.py | difficulty, validation, mining | `MineBlock` |
| StakeMaps, ProofOfStake | consensus/pos.py, signature.py | lottery, rewards, weights, validation, proposing | `Sorted`, `GetTotalStake`, `DrawFrom` |
| Rules, ChainLaws | (all three validity checks) | what a valid chain is, by the checks and in closed form | |
| ForkChoice, Commitment | consensus/pow.py, pos.py, network/node.py | scores, selection, `_resolve_fork` | |
| Engines | consensus/pow.py, pos.py | | classes `ProofOfWork`, `ProofOfStake` |
| ChainValidator | chain_validator.py | `Verify` | both verification loops |
| Ledger, BlockChainObject | blockchain.py, consensus/factory.py | operations on chain and stake cache | class `BlockChain` |
| SyncSession | network/node.py | session, responses, honest peer | class `ChainSyncSession` |
| PersistWorker | network/node.py | debounced saving | |
| NodeModel, NodeObject | network/node.py | the node's state machine | class `Node` |
| ChainStore | persistence/store.py | files, `Load`, crashes | class `DataDir` |
| Startup | network/node.py, consensus/factory.py | `__init__` on what `load` finds, after a crash or without | |
| RateLimit | network/rate_limit.py | the promised rule | class `SlidingWindowRateLimiter` |
| Reconnect | network/reconnect.py | backoff | class `ReconnectManager` |

Conventions:

- SHA-256, JSON and RSA-PSS are function-valued parameters. Known of them: a digest has 64
  hexadecimal digits; where a lemma says so, a signature verifies under its own public key
  (`SignaturesVerify`), JSON gives back what was dumped (`JsonLaws`), and no two of the texts
  actually hashed collide (`NoCollision`, `NoChecksumCollision`).
- A field the code reads with `.get`, tests for presence or tests with `isinstance` is an
  Option. Where no check tells them apart a wrongly typed field counts as absent; a
  `consensus_type` that is not a text stands for some other text. Two fields keep their type:
  `block_index`, which the link check compares with `!=` so that 5.0 and True pass while a sync session
  asks for an int; and `tran_body`, which may be null, a dict or any other JSON value, and which PoS
  wants to be a dict, `add_block` without a consensus not to be null, and everything else just
  hashes. Header integers are already coerced.
- An exception that leaves a check is the verdict `Raises`, and the selectors hand it on. Where a
  method of `BlockChain` answers with a plain boolean, `false` may stand for an exception of the
  code; the state afterwards is the same.
- A dict is a map; loops over a dict take its keys in an arbitrary order, so what is proved of
  them holds for every insertion order.
- A float division of the difficulty rule is the exact quotient put through a rounding function of
  which only this is known: it is monotone and leaves integers up to 2^53 alone. Other floats (times,
  delays) are exact reals.
- Settings are assumed to obey `adjustment_interval >= 1`, `max_adjustment_factor >= 1` and
  `initial_difficulty >= 1`, which the loader does not enforce (settings.py:117-119); stakes in force
  and rewards are not negative. A stake total of zero is the division by zero it is in the code.
- Clock readings are parameters.

## Where the code does less than one would expect

Each of these is a lemma, with the exact condition where one is stated:

- A PoW node stamps its own block with the wall clock without looking at the tip. A step keeps the
  chain valid exactly when such a block is not behind the tip (`NodeModel.StepValidExactly`), a run
  exactly when all are (`NodeModel.RunValidExactly`); `NodeModel.ClockGoesBack` is a concrete run that
  breaks the chain. A PoS node never does (`Startup.StakeNodeStaysHealthy`).
- A restart checks the stored chain with a registry that holds the node's own key only. A PoS node
  restarts exactly when every stored block is its own under the key it restarts with
  (`Startup.RestartExactly`); one block of another validator is enough to refuse
  (`Startup.ForeignBlockStopsRestart`).
- A save that fails or is killed half-way can leave chain file and meta file of different saves, and
  the next start is then refused, even if the node ran on. A start succeeds exactly when both were
  last written with the same chain, and its blocks are the node's own (`Startup.StartAfterCrash`,
  `Startup.StartAfterAttempts`); one failed save is enough (`ChainStore.HalfSaveRefused`).
- A failed save ends its worker and is not repeated until the next change; in a concrete run the
  change stays unsaved and the next `stop` raises (`PersistWorker.FailedSaveIsNotRepeated`). That no save
  fails after a change is enough for it to be saved (`PersistWorker.RunLosesNothing`), and
  `PersistWorker.StopSavesExactly` says when `stop` saves.
- PoW accepts a block whose `block_index` is 5.0 or True (`SyncSession.LooseIndexIsTaken`), but no sync
  session does: honest sync succeeds exactly when the missing indices are ints
  (`SyncSession.HonestSyncExact`, `NodeModel.NodeCatchesUp`). With a peer on another branch it adopts
  nothing unless the peer's next block names the node's tip (`SyncSession.SyncExactly`).
- Registering a validator under another key, or with another stake than the replay gives it, breaks what a
  PoS node holds, exactly then (`NodeModel.RegistrationExactly`).
- Without a consensus, `add_block` accepts a block that carries a `consensus_type`, which the verifier
  refuses (`Rules.LegacyGap`), and refuses a block whose body is null, which the verifier hashes and
  accepts (`Rules.LegacyNullGap`). There is no other difference (`Rules.IncrementalEqualsReplay`), and a
  verified chain can be rebuilt by `add_block` exactly when no body is null (`Rules.RebuildFromEmpty`).
- A PoS node missing from genesis registers itself with the minimum stake, so its cache differs
  from the replay until its chain is first replaced (`Ledger.FactoryCacheExact`).
- A chain whose tip hash equals the genesis value makes `_resolve_fork` take any whole chain for
  a continuation; a better chain is adopted exactly when that is not so
  (`ForkChoice.BetterChainAdoptedExactly`).
- `load` tolerates a meta file whose checksum entries are missing or null, and a missing stakes file
  when the stakes entry is missing. It can then mix files, exactly when another chain, other stakes or
  no stakes file fits such an entry (`ChainStore.LostEntryMixesExactly`).
- A multiplier below one shortens the reconnect delay (`Reconnect.DelayMonotoneExactly`).

docs/p2p.md lists the steps of `stop()` without the final save; the model follows the code, which
cancels the worker and saves (node.py:458-466).

## Model

| member | source | states |
|---|---|---|
| Text.LtFirstDifference | useful_blockchain/consensus/pos.py:79 | text order is decided at the first position where the texts differ or the first one ends |
| Text.StrReads | useful_blockchain/hash_utils.py:26-31 | `str(n)` reads back as n: a sign if negative, then decimal digits without superfluous zeros |
| HashUtils.PreimageParts | useful_blockchain/hash_utils.py:22-31 | the pre-images by position: parent hash, body hash, then validator, nonce or slot |
| HashUtils.HexByPlace | useful_blockchain/consensus/pos.py:76-77 | each of the 16 digits counts for its value times 16 to the number of digits after it |
| HashUtils.MeetsByDigits | useful_blockchain/hash_utils.py:34-43 | a hash meets difficulty d if and only if d is at least 1 and its first d characters are zeros |
| HashUtils.PowPreimageInjective | useful_blockchain/hash_utils.py:26-27 | the unseparated PoW pre-image determines parent hash, body hash and nonce once the hashes have equal lengths |
| HashUtils.PosPreimageInjective | useful_blockchain/hash_utils.py:30-31 | the unseparated PoS pre-image determines parent hash, body hash and validator for a known slot |
| HashUtils.LeadingZeros | useful_blockchain/hash_utils.py:41-42 | exactly the maximal run of leading zeros that the difficulty test counts |
| ProofOfWork.ValidExactly | useful_blockchain/consensus/pow.py:90-165 | validation accepts exactly the blocks that sealing would produce: sealing the block again with its own nonce at the expected difficulty changes nothing, the first characters of its hash are that many zeros, and the time is not before the parent's |
| ProofOfWork.LeastNonce | useful_blockchain/consensus/pow.py:77-85 | the nonce found qualifies and no smaller one does; none is found only if none below the limit qualifies |
| ProofOfWork.MineBlock | useful_blockchain/consensus/pow.py:71-85 | the nonce loop yields the block sealed with the least qualifying nonce, or the mining failure |
| ProofOfWork.MinedBlockValidates | useful_blockchain/consensus/pow.py:71-165 | a mined block validates on its parent chain exactly when its time is not before the parent's |
| ProofOfWork.MiningComplete | useful_blockchain/consensus/pow.py:71-165 | if some nonce below the limit would make the block valid, mining succeeds with a nonce no larger, and the result is valid |
| ProofOfWork.MiningExactly | useful_blockchain/consensus/pow.py:71-85 | mining yields the first nonce below the limit whose hash begins with the zeros asked for, fails if and only if there is none, and changes four header fields only |
| Difficulty.RetargetBounds | useful_blockchain/consensus/pow.py:40-56 | one retarget stays between ceil(first/F) and int(first/(1/F)), as float division computes them, and at least 1 |
| Difficulty.EarlyExactly | useful_blockchain/consensus/pow.py:25-32 | before the first interval is full: the configured difficulty, then that of the tip |
| Difficulty.NextDifficulty | useful_blockchain/consensus/pow.py:34-69 | the value itself, from difficulty and time of the block one interval back and the time of the tip: for any rounding the first difficulty over the clamped ratio; without rounding, in integers, d with d * taken <= first * planned < (d + 1) * taken within the factor, first * F rounded down beyond it, and the larger of two quotients or first / F rounded up after slow intervals |
| Difficulty.RetargetAntitone | useful_blockchain/consensus/pow.py:43-56 | more elapsed time never gives a higher difficulty |
| Difficulty.RetargetOfChain | useful_blockchain/consensus/pow.py:34-38 | the expected difficulty is within one factor of that of the block `adjustment_interval` back, the factor taken with room for rounding |
| Difficulty.DifficultyFollowsClock | useful_blockchain/consensus/pow.py:34-69 | an interval on target keeps the difficulty it began with, a slower one never raises it, a faster one never lowers it |
| Difficulty.ChainDifficultyBounds | useful_blockchain/consensus/pow.py:25-56 | in a valid chain the difficulty at position k is within g^(k div I) of the initial one and lies in 1..64, where g is the configured factor with room for rounding |
| Difficulty.RelativeSlack | useful_blockchain/consensus/pow.py:46-56 | with a relative error of u per float division the room needed is F * (1 + u) / (1 - u) |
| Difficulty.ExactSlack | useful_blockchain/consensus/pow.py:46-56 | where nothing is rounded no room is needed |
| StakeMaps.Sorted | useful_blockchain/consensus/pos.py:79 | sorting gives the one ascending list of the keys whatever order the dict is walked in |
| StakeMaps.GetTotalStake | useful_blockchain/consensus/pos.py:64-66 | the sum does not depend on the order the dict is walked in |
| StakeMaps.SelectionProportional | useful_blockchain/consensus/pos.py:77-83 | of the picks in [0, total) exactly stake(v) select v |
| StakeMaps.ProposerExactly | useful_blockchain/consensus/pos.py:68-83 | v is drawn for a slot if and only if the number that the hash of "slot-" and the slot writes, modulo the total, falls on one of the stake(v) places after those of the smaller ids |
| StakeMaps.SetTotalAdds | useful_blockchain/consensus/pos.py:64-66 | totals are sums: every further validator adds its stake |
| StakeMaps.FallbackUnreachable | useful_blockchain/consensus/pos.py:79-83 | for every pick in range the loop itself returns, a validator with positive stake; the last return is dead |
| StakeMaps.DrawFrom | useful_blockchain/consensus/pos.py:78-83 | the cumulative loop returns the validator whose share contains the pick |
| StakeMaps.SelectProposer | useful_blockchain/consensus/pos.py:68-83 | the whole selection, its two exceptions included, depends on slot and stake map only |
| StakeMaps.ReplayStake | useful_blockchain/consensus/pos.py:34-44 | after replay a validator holds its genesis stake plus one reward per block it proposed |
| StakeMaps.ReplayExactly | useful_blockchain/consensus/pos.py:34-44 | replay in closed form: the genesis validators, each with its stake and one reward for every block that names it |
| StakeMaps.ReplayTotal | useful_blockchain/consensus/pos.py:116-123 | total stake is genesis total plus reward times length |
| StakeMaps.ForkWeight | useful_blockchain/consensus/pos.py:240-260 | fork weight is the sum over v of n_v * (genesis_v + reward * n_v) |
| StakeMaps.WeightAdds | useful_blockchain/consensus/pos.py:249-260 | weight is a sum over the blocks, each counting with the stake of the validator it names |
| ProofOfStake.RegisteredExactly | useful_blockchain/consensus/pos.py:56-62 | registering sets one key: a non-empty PEM, or the node's own key for its own id, and leaves all others |
| ProofOfStake.PayloadExactly | useful_blockchain/signature.py:251-314 | two payloads are equal if and only if the blocks differ at most in signature and key |
| ProofOfStake.SignedExactly | useful_blockchain/signature.py:251-314 | signing adds the signature of everything else and the signer's key; verifying tests just that |
| ProofOfStake.ProposingExactly | useful_blockchain/consensus/pos.py:85-101 | proposing succeeds if and only if the node is the validator drawn for the slot and has a key |
| ProofOfStake.ProposedFields | useful_blockchain/consensus/pos.py:103-114 | what a proposed block carries, field by field |
| ProofOfStake.SignedBlockVerifies | useful_blockchain/signature.py:251-314 | what `sign_block` signs is what `verify_block_signature` checks |
| ProofOfStake.ValidExactly | useful_blockchain/consensus/pos.py:125-204 | a PoS block is valid if and only if it is sealed for its height, under a registered key, by the validator drawn for that height |
| ProofOfStake.RaisesExactly | useful_blockchain/consensus/pos.py:125-177 | validation raises exactly where it gets as far as the draw and the total stake is zero |
| ProofOfStake.ProposedBlockValidates | useful_blockchain/consensus/pos.py:85-204 | a proposed block validates on any node with the same replayed stakes exactly when that node has the proposer's key |
| ChainLaws.ValidChainExactly | useful_blockchain/chain_validator.py:10-134 | a chain is valid if and only if every block is numbered and linked in its place and carries, under PoW, the expected difficulty, the hash of its parts with that many zeros and a time not before its parent's; under PoS, its slot, the validator drawn from the stakes replayed so far, the hash, the registered key and a signature that verifies; without a consensus, the hash |
| ChainLaws.AddExactly | useful_blockchain/blockchain.py:96-135 | `add_block` on any chain, verified or not: link and seal decide, without a consensus also that the body is not null |
| ChainLaws.RaisesExactly | useful_blockchain/consensus/base.py:38-58 | the check of a block raises exactly where the link check reads an absent field or adds to no number, or the link holds and PoS would draw from a total of zero, or without a consensus a part of the hash is absent |
| ChainLaws.VerifierRaisesExactly | useful_blockchain/chain_validator.py:20-100 | so does the verifier, which reads the parent hash of a first block before anything else |
| ChainLaws.PassRaises | useful_blockchain/consensus/pos.py:273-295 | the pass over a chain ends with the verdict on its first block that is not accepted |
| Rules.VerifierAgrees | useful_blockchain/chain_validator.py:19-134 | block by block, verifier and selectors accept the same |
| Rules.AddAgrees | useful_blockchain/blockchain.py:96-118 | with a consensus `add_block` accepts what the verifier accepts |
| Rules.LegacyAddAgreesExactly | useful_blockchain/blockchain.py:119-135 | without one, a block it accepts is verified exactly when it carries no `consensus_type` |
| Rules.LegacyVerifiedAddsExactly | useful_blockchain/chain_validator.py:118-126 | without one, a block that verifies is accepted exactly when its body is not null |
| Rules.LegacyGap | useful_blockchain/chain_validator.py:118-132 | a concrete block `add_block` takes and the verifier refuses |
| Rules.LegacyNullGap | useful_blockchain/blockchain.py:127-129 | a concrete block with a null body that the verifier takes and `add_block` refuses |
| Rules.IncrementalEqualsReplay | useful_blockchain/blockchain.py:88-140 | on a verified chain a block `add_block` accepts keeps it verified, and one that keeps it verified is accepted; without a consensus the first exactly if it has no `consensus_type`, the second exactly if its body is not null |
| Rules.RebuildFromEmpty | useful_blockchain/blockchain.py:88-140 | adding the blocks of a verified chain one by one to the empty chain rebuilds it, without a consensus if and only if no body is null |
| Rules.PrefixValid | useful_blockchain/chain_validator.py:10-134 | validity is closed under prefixes |
| Rules.ValidLinks | useful_blockchain/consensus/base.py:38-58 | a valid chain is numbered from 1, linked by hashes and begins at the genesis value |
| Rules.ValidPosChainStakes | useful_blockchain/consensus/pos.py:273-295 | on every valid PoS chain total stake and fork weight have their closed forms |
| Rules.OneProposerPerHeight | useful_blockchain/consensus/pos.py:177-204 | only one validator can extend a PoS chain, it has positive stake, and every extension is signed under its key |
| ForkChoice.CanonicalIsFirstMaximum | useful_blockchain/consensus/pos.py:225-247 | the maximum loop finds the first valid candidate of maximal score, or nothing is valid |
| ForkChoice.SelectExactly | useful_blockchain/consensus/pos.py:209-247 | the selector raises exactly when the check of some candidate does; otherwise it gives the empty list if nothing is valid and else the first maximum |
| ForkChoice.WorkAdds | useful_blockchain/consensus/pow.py:181-182 | work is the sum of the declared difficulties |
| ForkChoice.BeatsByScore | useful_blockchain/consensus/pos.py:236-247 | the order of the scores: more work, then more blocks under PoW; more blocks, then more weight, then the later tip hash under PoS |
| ForkChoice.SelectsBest | useful_blockchain/consensus/pow.py:167-179 | the selected chain is a valid candidate that no valid candidate beats in that order, and it beats all valid ones before it |
| ForkChoice.AppendRaisesScore | useful_blockchain/consensus/pow.py:179-182 | a valid further block raises the score, for PoW and PoS |
| ForkChoice.ResolveIs | useful_blockchain/network/node.py:587-620 | fork resolution in closed form: the (joined) candidate wins exactly when valid and strictly better, so the local chain wins ties and a candidate whose check raises changes nothing |
| ForkChoice.ResolveExactly | useful_blockchain/network/node.py:587-620 | blocks that continue the local tip are joined to the local chain, others stand for themselves; the result is adopted if and only if it is valid and beats the local chain in work, or in length, weight and tip hash |
| ForkChoice.ResolveRaises | useful_blockchain/network/node.py:600-603 | on a valid local chain the selector raises exactly when the candidate's check does |
| Rules.CheckedIsValid | useful_blockchain/consensus/pos.py:273-295 | the selectors' pass over a chain ends without a refusal or an exception exactly on valid chains |
| Rules.ValidUnderKeys | useful_blockchain/consensus/pos.py:190-202 | under another key registry a valid PoS chain stays valid exactly when the registry holds the key each block carries |
| ForkChoice.ResolveProgress | useful_blockchain/network/node.py:587-609 | whatever arrives, the chain stays valid and is unchanged or scores strictly higher |
| ForkChoice.BetterChainAdoptedExactly | useful_blockchain/network/node.py:590-620 | a better whole chain is adopted if and only if the local tip hash is not the genesis value |
| ForkChoice.ResolveAllMaximal | useful_blockchain/network/node.py:587-609 | resolving whole candidates one at a time ends at a valid chain among those seen that no valid one seen beats |
| ForkChoice.Confluence | useful_blockchain/network/node.py:587-609 | two nodes that have seen the same chains, in any order, end at equal scores |
| ForkChoice.ConfluenceExactly | useful_blockchain/network/node.py:587-609 | that is, at equal work and length under PoW, and at equal length, weight and tip hash under PoS |
| Commitment.SameHashSameBlock | useful_blockchain/hash_utils.py:17-31 | without collisions, equal hashes at one height mean equal parent hash, body text and nonce, or validator and slot |
| Commitment.TipCommits | useful_blockchain/consensus/base.py:53-58 | two valid chains of equal length with the same tip hash agree at every height on all committed fields |
| Commitment.PosConfluence | useful_blockchain/consensus/pos.py:236-247 | PoS nodes that have seen the same chains end at chains that agree at every height |
| Engines.ProofOfWork.IsChainValid | useful_blockchain/consensus/pow.py:184-193 | the selector's loop answers true exactly on the valid chains, and false or an exception as its first failing check does |
| Engines.ProofOfWork.SumDifficulty | useful_blockchain/consensus/pow.py:181-182 | the loop computes the work that the score uses |
| Engines.ProofOfWork.SelectCanonicalChain | useful_blockchain/consensus/pow.py:167-179 | filter and maximum loops compute the selection, with the exception of the first candidate whose check raises |
| Engines.ProofOfStake.constructor | useful_blockchain/consensus/pos.py:14-28 | a fresh object: no validators, no keys, genesis stakes as given |
| Engines.ProofOfStake.RegisterValidator | useful_blockchain/consensus/pos.py:46-62 | a stake below the minimum changes nothing; otherwise stake and the right public key are stored |
| Engines.ProofOfStake.ComputeValidatorsFromChain | useful_blockchain/consensus/pos.py:34-44 | the loop computes the replay |
| Engines.ProofOfStake.ValidateBlock | useful_blockchain/consensus/pos.py:125-204 | every verdict of validation, against given stakes or the cache |
| Engines.ProofOfStake.PrepareBlock | useful_blockchain/consensus/pos.py:85-114 | proposes from the stakes replayed over the chain whenever genesis stakes are set, never from the cache |
| Engines.ProofOfStake.OnBlockAdded | useful_blockchain/consensus/pos.py:206-207 | the cache receives one reward |
| Engines.ProofOfStake.SyncValidatorsFromChain | useful_blockchain/consensus/pos.py:300-307 | genesis stakes are set and the cache is the replay |
| Engines.ProofOfStake.ValidateChainWithGenesisStakes | useful_blockchain/consensus/pos.py:273-295 | the replay-and-check loop answers true exactly on the valid chains, and false or an exception as its first failing check does |
| Engines.ProofOfStake.SumStakeWeight | useful_blockchain/consensus/pos.py:249-260 | the loop computes the stake weight |
| Engines.ProofOfStake.ScoreChain | useful_blockchain/consensus/pos.py:236-245 | length, weight under the replayed stakes, tip hash |
| Engines.ProofOfStake.SelectCanonicalChain | useful_blockchain/consensus/pos.py:209-247 | filter and maximum loops compute the selection, with the exception of the first candidate whose check raises |
| ChainValidator.VerifiedIsValid | useful_blockchain/chain_validator.py:10-134 | the verifier accepts exactly the valid chains, which are the selectors' |
| ChainValidator.VerifierFindsFirstBad | useful_blockchain/chain_validator.py:24-74 | `failed_at_index` is the first bad block: the prefix before it is valid, the prefix through it is not |
| ChainValidator.VerdictIsOfFirstBad | useful_blockchain/chain_validator.py:24-134 | the verifier refuses with the reason of that block's check, or the exception of the check leaves it |
| ChainValidator.VerifyStakeChain | useful_blockchain/chain_validator.py:19-59 | the PoS loop with its locally rewarded stake map computes the verifier's verdict |
| ChainValidator.VerifyGeneralChain | useful_blockchain/chain_validator.py:61-134 | so does the general loop, with PoW or without consensus |
| Ledger.WorkProduced | useful_blockchain/blockchain.py:49-86 | under PoW a local block is made if and only if some nonce below the limit gives the zeros; its number, time, counter, body, parent, nonce, difficulty and hash |
| Ledger.StakeProduced | useful_blockchain/blockchain.py:49-86 | under PoS if and only if the node is drawn from the replayed stakes and has a key; all its fields and the signature |
| Ledger.LegacyProduced | useful_blockchain/blockchain.py:49-82 | without a consensus unless a signature is wanted and there is no key; signed, it verifies |
| Ledger.NothingProduced | useful_blockchain/blockchain.py:52-55 | nothing is made on a tip without a hash |
| Ledger.BlocksFromExactly | useful_blockchain/blockchain.py:174-180 | block i of the answer is the chain's block of that height, and there are as many as chain and limit allow |
| Ledger.FactoryExactly | useful_blockchain/consensus/factory.py:21-37 | cache and key registry of the factory, entry by entry |
| Ledger.ProductionMeetsValidation | useful_blockchain/blockchain.py:49-86 | the block a node makes keeps a valid chain valid, for any node with the same rules, exactly when clock (PoW) or registered key (PoS) permit; no stake cache matters |
| Ledger.ValidTimesOrdered | useful_blockchain/consensus/pow.py:132-155 | on a valid PoW chain block times exist and never go back |
| Ledger.CacheStaysReplay | useful_blockchain/blockchain.py:83-161 | through any sequence of add_new_block, add_block and replace_chain the stake cache equals the replay |
| Ledger.FactoryCacheExact | useful_blockchain/consensus/factory.py:28-32 | from a fresh node that holds exactly when the node is listed in genesis or has replaced its chain since |
| BlockChainObject.BlockChain.AddNewBlock | useful_blockchain/blockchain.py:49-86 | chain and cache after a local block; a failure changes nothing |
| BlockChainObject.BlockChain.AddBlock | useful_blockchain/blockchain.py:88-140 | accepted by the incremental checks on chain and genesis stakes alone; then the block is appended and the cache rewarded |
| BlockChainObject.BlockChain.ReplaceChain | useful_blockchain/blockchain.py:142-162 | succeeds exactly on valid chains, so never refuses a selected one; rebuilds the cache |
| BlockChainObject.BlockChain.VerifyChain | useful_blockchain/blockchain.py:164-172 | the verifier's verdict on the current chain |
| BlockChainObject.BlockChain.GetBlocksFrom | useful_blockchain/blockchain.py:174-180 | the two slices give one stretch of the chain, clamped at both ends, with a limit or without |
| BlockChainObject.CreateStakeConsensus | useful_blockchain/consensus/factory.py:21-37 | succeeds exactly when every stake reaches the minimum; the cache holds genesis and, if missing there, the node; the only public key registered is the node's own |
| SyncSession.BatchAcceptedExactly | useful_blockchain/network/node.py:628-671 | a batch is accepted if and only if it starts at the height asked for, announces the height after its blocks, is a numbered and linked continuation, announces more only with blocks, and fits the limits; then exactly its blocks are added and height, hash and bytes advance |
| SyncSession.ResponseExactly | useful_blockchain/network/node.py:704-718 | a response to a done session changes nothing; one that continues it is added and ends it unless more is announced; any other empties and ends it |
| SyncSession.ServeExactly | useful_blockchain/network/node.py:685-703 | the answer to GET_CHAIN: the blocks from the height asked for, as many as asked for and there are, and `has_more` exactly when the chain goes on |
| SyncSession.SessionStaysSafe | useful_blockchain/network/node.py:628-718 | against any responses the collected blocks are numbered and hash-linked from the requested point and within block and byte limits |
| SyncSession.BadBatchEnds | useful_blockchain/network/node.py:706-714 | one refused batch empties the session and ends it for good |
| SyncSession.ChainSyncSession.AcceptChainBatch | useful_blockchain/network/node.py:628-671 | the mutable session after a batch; a refused batch changes nothing |
| SyncSession.ChainSyncSession.CollectItems | useful_blockchain/network/node.py:649-662 | the loop over the elements of a batch |
| SyncSession.ChainSyncSession.Receive | useful_blockchain/network/node.py:704-718 | CHAIN_RESPONSE on an open session |
| SyncSession.BatchSize | useful_blockchain/network/node.py:68-89 | the requested limit where it lies in 1..max, otherwise the nearer end, and the maximum without one |
| SyncSession.FromHeight | useful_blockchain/network/node.py:92-109 | the requested height if it is at least 1, otherwise 1 |
| SyncSession.HonestRound | useful_blockchain/network/node.py:685-703 | one request to an honest peer takes the next blocks and goes on exactly when blocks are missing; if one of their indices is not an int, the session ends empty |
| SyncSession.HonestSync | useful_blockchain/network/node.py:564-585 | the exchange with an honest peer terminates with exactly the missing suffix, or with nothing if an index in it is not an int |
| SyncSession.HonestSyncExact | useful_blockchain/network/node.py:564-609 | a node holding a prefix of the peer's valid chain ends with that chain after fork resolution if and only if the index of every missing block is an int, and otherwise keeps its own |
| SyncSession.SyncExactly | useful_blockchain/network/node.py:564-620 | for any two valid chains: after the exchange with an honest peer the node adopts the peer's further blocks if and only if the first of them names its tip, their indices are ints and the joined chain is valid; otherwise it keeps its chain |
| SyncSession.LooseIndexIsTaken | useful_blockchain/consensus/base.py:38-58 | PoW takes a NEW_BLOCK whose index merely equals the right int exactly when it takes it with the int |
| PersistWorker.ChangeExactly | useful_blockchain/network/node.py:377-380 | a change sets the flag and leaves a live worker current, a new one only if the old one is over; nothing is saved yet |
| PersistWorker.ResumeExactly | useful_blockchain/network/node.py:382-386 | a worker saves exactly when it wakes uncancelled, sleeps again if the flag was set meanwhile, and is over otherwise; no other task changes |
| PersistWorker.StopBeginsExactly | useful_blockchain/network/node.py:458-463 | a stop clears the flag, saves at once without a worker, and otherwise cancels and awaits the current one only |
| PersistWorker.RunLosesNothing | useful_blockchain/network/node.py:377-386 | in every interleaving, whatever saves failed before a change: if none fails after it, memory that differs from disk will be saved by a worker or by a stop under way |
| PersistWorker.QuietMeansSaved | useful_blockchain/network/node.py:382-386 | then, when all workers are over and no stop is under way, disk equals memory |
| PersistWorker.FailedSaveIsNotRepeated | useful_blockchain/network/node.py:370-386 | the condition is needed: after one failed save all is quiet with the change unsaved, and `stop` ends without saving |
| PersistWorker.StopSavesExactly | useful_blockchain/network/node.py:458-466 | from any reachable state `stop` saves at once or waits for a worker that one resumption ends; it then saves exactly when that worker did not die of a failed save and its own save succeeds |
| PersistWorker.SavedSoon | useful_blockchain/network/node.py:382-386 | where nothing is lost, some worker brings the disk up to date within two resumptions that do not fail |
| NodeModel.BootHealthy | useful_blockchain/network/node.py:280-341 | every state start-up reaches satisfies the node invariant |
| NodeModel.BootExactly | useful_blockchain/network/node.py:280-341 | start-up succeeds exactly with nothing stored, or with a matching or empty genesis value and a valid chain; chain, cache and saving machinery it begins with |
| NodeModel.NewBlockExactly | useful_blockchain/network/node.py:723-735 | NEW_BLOCK: a block that makes the chain a longer valid one is appended, rewarded in the cache and scheduled for saving; any other changes nothing; sessions never change |
| NodeModel.LocalBlockExactly | useful_blockchain/network/node.py:538-545 | a local block that production gives is taken in the same way; without one nothing changes |
| NodeModel.ChainResponseExactly | useful_blockchain/network/node.py:704-722 | CHAIN_RESPONSE changes the session with that peer alone; without a session a list of blocks is resolved, and anything else ignored |
| NodeModel.SessionExactly | useful_blockchain/network/node.py:564-585 | opening asks for everything above the tip, once per peer; the end resolves what was collected and removes the session, a time-out only removes it |
| NodeModel.SaverEventExactly | useful_blockchain/network/node.py:377-466 | worker and stop events change the saving machinery only |
| NodeModel.StepHealthy | useful_blockchain/network/node.py:538-735 | every step, with arbitrary network input and failing saves, keeps it, provided a local block is admissible (clock not behind the tip, own key registered): the chain and everything a save may have written verify, the cache is the replay if genesis lists the node, every session is safe for the request that opened it, workers are in order |
| NodeModel.RunHealthy | useful_blockchain/network/node.py:538-735 | over every run of steps in any order whose local blocks are admissible the node's chain verifies |
| NodeModel.RunProgress | useful_blockchain/network/node.py:600-609 | over every such run the chain is unchanged or beats the former one in work, or in length, weight and tip hash |
| NodeModel.StepValidExactly | useful_blockchain/network/node.py:538-735 | whatever the event, the chain stays verified if and only if the event is admissible |
| NodeModel.RunValidExactly | useful_blockchain/network/node.py:538-735 | the chain verifies at every moment of a run if and only if every local block in it is admissible |
| NodeModel.ClockGoesBack | useful_blockchain/consensus/pow.py:132-155 | a concrete PoW run: a block made at time 10, then one at time 5, and the chain no longer verifies |
| NodeModel.ChangeIsScheduled | useful_blockchain/network/node.py:377-380 | every event that changes the chain schedules it for saving, whatever saves failed before |
| NodeModel.QuietNodeIsSaved | useful_blockchain/network/node.py:377-386 | from start-up or from any change of the chain, through any run in which local blocks are admissible and no save fails, a quiet node's disk holds its chain |
| NodeModel.NodeCatchesUp | useful_blockchain/network/node.py:564-609 | opening a session, taking an honest peer's replies and finishing leaves the node with the peer's chain, scheduled for saving, if and only if the missing indices are ints, and otherwise with its own |
| NodeModel.NodeSyncsExactly | useful_blockchain/network/node.py:564-620 | the same exchange for any two valid chains, with the exact condition for the peer's blocks to be adopted |
| NodeModel.RegistrationExactly | useful_blockchain/consensus/pos.py:46-62 | registering a validator keeps a healthy PoS node healthy if and only if no block of it carries another key and, for a listed node, the stake is what the replay gives it |
| NodeModel.FirstKeyIsSafe | useful_blockchain/consensus/pos.py:46-62 | a key registered for a validator that had none never invalidates the chain |
| NodeObject.Node.constructor | useful_blockchain/network/node.py:260-285 | a fresh node: no sessions, nothing pending, disk as memory |
| NodeObject.Node.RestoreChain | useful_blockchain/network/node.py:321-341 | restore succeeds exactly when genesis matches and the stored chain verifies under the keys registered at that moment |
| NodeObject.Node.SchedulePersist | useful_blockchain/network/node.py:377-380 | the flag is set and a worker exists |
| NodeObject.Node.ResumeWorker | useful_blockchain/network/node.py:382-386 | one uninterrupted run of the worker |
| NodeObject.Node.StopBegin | useful_blockchain/network/node.py:458-463 | the first half of the end of `stop` |
| NodeObject.Node.StopEnd | useful_blockchain/network/node.py:463-466 | the second half, which saves unless the awaited worker died of a failed save |
| NodeObject.Node.AddBlock | useful_blockchain/network/node.py:538-545 | equals the local-block step; the block it returns is the new tip |
| NodeObject.Node.HandleNewBlock | useful_blockchain/network/node.py:723-735 | equals the NEW_BLOCK step; answers true exactly when `add_block` accepts the block, which is then the new tip |
| NodeObject.Node.ResolveFork | useful_blockchain/network/node.py:587-609 | joining, selecting and replacing equal fork resolution on values; an exception of the selector changes nothing; saving is scheduled exactly on a change |
| NodeObject.Node.HandleGetChain | useful_blockchain/network/node.py:685-703 | the answer to GET_CHAIN |
| NodeObject.Node.RequestChain | useful_blockchain/network/node.py:564-574 | a new session for the heights above the tip, at most one per peer |
| NodeObject.Node.HandleChainResponse | useful_blockchain/network/node.py:704-722 | equals the CHAIN_RESPONSE step, solicited or not |
| NodeObject.Node.FinishRequest | useful_blockchain/network/node.py:579-585 | equals the session-completion step |
| NodeObject.Node.AbortRequest | useful_blockchain/network/node.py:581-585 | equals the time-out step |
| ChainStore.DataDir.Save | useful_blockchain/persistence/store.py:158-205 | a chain within the limit is saved with stakes and checksummed meta file, all three replaced; one that is too large changes nothing |
| ChainStore.DataDir.LoadState | useful_blockchain/persistence/store.py:76-156 | every outcome of `load` for arbitrary file contents |
| ChainStore.DataDir.ConvertStakes | useful_blockchain/persistence/store.py:121-127 | the conversion loop, in any dict order |
| ChainStore.SaveThenLoad | useful_blockchain/persistence/store.py:76-205 | load after save gives back the four saved values and never fails on size |
| ChainStore.LoadExactly | useful_blockchain/persistence/store.py:76-156 | a state is restored if and only if schema version, size, shape, conversions and checksum entries of the three files are right and they hold that state; nothing is found exactly without a meta file |
| ChainStore.WrongFilesRefused | useful_blockchain/persistence/store.py:88-103 | another schema version and an oversized chain file are refused |
| ChainStore.CrashOutcome | useful_blockchain/persistence/store.py:173-205 | for every subset of replacements a crash keeps: old state, new state or refusal, and exactly which |
| ChainStore.LoadAfterAttempts | useful_blockchain/persistence/store.py:76-205 | through any number of saves cut short anywhere, with any subset of replacements kept: nothing without a meta file, otherwise the state of the meta file if chain and stakes on disk are that state's, and refusal if not |
| ChainStore.NeverMixes | useful_blockchain/persistence/store.py:76-205 | so a load that succeeds yields exactly one saved state |
| ChainStore.HalfSaveRefused | useful_blockchain/persistence/store.py:173-205 | a save that fails after replacing the chain file by another chain leaves a directory that does not load |
| ChainStore.LoadUnderEntries | useful_blockchain/persistence/store.py:105-139 | with arbitrary checksum entries, chain file and stakes file (or its absence) are each compared with their own entry and with nothing else |
| ChainStore.LostEntryMixesExactly | useful_blockchain/persistence/store.py:105-139 | with entries as saved, null or missing, files of saved states load into something other than the meta file's state if and only if a null or missing entry lets another chain, other stakes or no stakes file pass |
| Startup.ConfigExactly | useful_blockchain/consensus/factory.py:21-37 | the configuration setting by setting, under PoS exactly if every stake reaches the minimum |
| Startup.RestartExactly | useful_blockchain/network/node.py:260-341 | what a node has saved starts again, on exactly that chain and healthy, if and only if it runs PoW or every saved block is its own under the key it restarts with |
| Startup.ForeignBlockStopsRestart | useful_blockchain/network/node.py:330-333 | one stored block of another validator makes start-up fail its integrity check |
| Startup.StartAfterCrash | useful_blockchain/network/node.py:179-283 | killed in any healthy state, whatever saves failed half-way before and whatever part of a save in progress has landed, a node starts again if and only if chain file and meta file were last written with the same chain and, under PoS, its blocks are the node's own; it is then healthy on that chain |
| Startup.StartAfterCleanSave | useful_blockchain/network/node.py:179-283 | if the last save before was complete, that is so exactly when chain file and meta file have both landed or neither, or both chains are equal |
| Startup.StartAfterFirstCrash | useful_blockchain/network/node.py:280-283 | killed inside its very first save, a node starts again if and only if the meta file has not landed without the other two |
| Startup.StartAfterAttempts | useful_blockchain/network/node.py:179-283 | through any number of saves cut short: a fresh start without a meta file, and otherwise success if and only if the chain file is that of the meta file, a stakes file is there and, under PoS, the blocks are the node's own |
| Startup.StakeNodeStaysHealthy | useful_blockchain/consensus/factory.py:21-37 | over every run from its start a PoS node stays healthy, with no condition on its local blocks |
| RateLimit.SlidingWindowRateLimiter.Allow | useful_blockchain/network/rate_limit.py:19-31 | allowed exactly when fewer than `max_events` events of the key were allowed in the closed window ending now |
| RateLimit.SlidingWindowRateLimiter.PruneStaleKeys | useful_blockchain/network/rate_limit.py:33-42 | pruning changes nothing the specification can see |
| RateLimit.SlidingWindowRateLimiter.Reset | useful_blockchain/network/rate_limit.py:44-47 | the key starts over, other keys are untouched |
| RateLimit.PermitsExactly | useful_blockchain/network/rate_limit.py:19-31 | the rule as a number: fewer than `max_events` allowed events of the key in the closed window ending now |
| RateLimit.AnswerExactly | useful_blockchain/network/rate_limit.py:19-47 | what allowing, refusing and resetting make of the history, counted in every window |
| RateLimit.StaleKeyFits | useful_blockchain/network/rate_limit.py:38-42 | dropping a key last accessed before the window drops only events outside it |
| RateLimit.PoppedCounts | useful_blockchain/network/rate_limit.py:23-28 | after popping, the deque length is the number of allowed events in the window |
| RateLimit.WindowNeverExceeded | useful_blockchain/network/rate_limit.py:19-31 | over any run every closed window holds at most `max_events` allowed events of a key since the key's last reset |
| RateLimit.ResetsExtendBound | useful_blockchain/network/rate_limit.py:19-47 | counting forgotten events too, a window holds at most `max_events` for the run and for each reset of the key |
| Reals.PowerAdds | useful_blockchain/network/reconnect.py:41 | powers: the first is the base, and exponents add |
| Reconnect.MayRetryExactly | useful_blockchain/network/reconnect.py:19-59 | with n failures since the last success: a retry exactly if disabled, or below `max_attempts` where that is positive and min(initial * multiplier^(n-1), max) after the last failure |
| Reconnect.NothingOpenRetries | useful_blockchain/network/reconnect.py:49-55 | without an open failure a retry is always allowed |
| Reconnect.CeilLog | useful_blockchain/network/reconnect.py:35-37 | the least exponent whose power reaches the quotient |
| Reconnect.ClampIsInvisible | useful_blockchain/network/reconnect.py:29-41 | the delay with the clamped exponent equals min(initial * multiplier^(attempts-1), max_delay), for all settings and attempts |
| Reconnect.ClampInvisibleExactly | useful_blockchain/network/reconnect.py:33-41 | whatever exponent the quotient of logarithms is rounded to, the clamp is invisible for all attempts if and only if the delay at that exponent has reached its maximum |
| Reconnect.DelayMonotone | useful_blockchain/network/reconnect.py:41-42 | with a multiplier of at least 1 further failures never shorten the delay, which never exceeds its maximum |
| Reconnect.DelayMonotoneExactly | useful_blockchain/network/reconnect.py:41-42 | further failures never shorten the delay if and only if the multiplier is at least 1 or the initial delay is zero |
| Reconnect.ReconnectManager.RecordFailure | useful_blockchain/network/reconnect.py:19-42 | the maps keep describing the history of failures and successes |
| Reconnect.ReconnectManager.RecordSuccess | useful_blockchain/network/reconnect.py:44-64 | so do success and clear |
| Reconnect.ReconnectManager.ShouldRetry | useful_blockchain/network/reconnect.py:49-59 | the answer is that of the documented backoff on the history |
| Reconnect.ExhaustedStaysExhausted | useful_blockchain/network/reconnect.py:26-28 | once the attempts are used up, no retry until a success or clear |
| Reconnect.ClearAllowsRetry | useful_blockchain/network/reconnect.py:44-64 | a success or clear frees the next retry |

## Left out

- WebSocket transport, TLS, URL and IP checks, mDNS, peer lists, HELLO, PING, health server, metrics, logging, command line, settings loading and message encoding.
- SHA-256, JSON, PEM and RSA internals, beyond the hypotheses listed above.
- Rounding of floating point in rate limiting and backoff; overflow and infinities everywhere.
- Proof of stake without genesis stakes; `Node` always supplies them.
- The `validate=False` path of `add_block` and the signature queries of `BlockChain`.
- Blocks are values: the header written in place during mining and proposing, and aliasing of a block between callers, are not captured.
- The names listed in the reason for missing PoW fields.
- Private keys on disk, which carry no checksum, and their short-write loop; a file replacement is one atomic step and the temporary file is not modelled.
- The timing of the debounce and of time-outs: any step may come at any moment.
- Peers closed after a bad batch, requests sent again after a refused NEW_BLOCK and broadcasts: only their effect on this node's state is modelled.
- Difficulty.RetargetBounds: for difficulties up to 2^53, which floats hold exactly; a valid block's is at most 64.
- Reconnect.ClampIsInvisible: over exact reals; Reconnect.ClampInvisibleExactly holds for any rounding of the exponent.
- Reconnect.DelayMonotoneExactly: for an initial delay that is not negative and a positive maximum.
- ForkChoice.Confluence: for candidates that start at the genesis value, none with that value as its tip hash; inside a sync session a response that does not continue the local tip is refused before fork resolution.
- Several workers may exist in the model after a stop has overlapped with new changes.
- The exception of a save that fails in `__init__`, `require_external_keys`, and where the signing key comes from.
- Startup.StartAfterCrash: for saves of one node since its start or its first save, and for a later start with the same settings and genesis stakes; only the fallback node id and the signing key may differ.
