/** The `Node` object: handlers over a mutable chain object, shared session objects
    and the persist fields, each equal to one step of the state machine. */
module NodeObject {
  import opened Types
  import opened StakeMaps
  import opened Rules
  import opened ForkChoice
  import opened ChainValidator
  import opened Ledger
  import opened BlockChainObject
  import opened SyncSession
  import opened PersistWorker
  import opened NodeModel

  /** The exception that leaves the selector during fork resolution, if any. */
  ghost function SelectError(r: Rules, local: Chain, remote: Chain): Option<string>
    requires !r.Legacy? && remote != []
  {
    match Select(r, Candidates(local, remote))
    case Success(_) => None
    case Failure(error) => Some(error)
  }

  class Node {
    const blockchain: BlockChain
    const genesisStakes: Stakes
    const limits: Limits
    const minStake: nat
    var pendingSync: map<string, ChainSyncSession>
    var persistPending: bool
    var persistTask: Option<nat>
    var workers: seq<Task>
    var stopAwaits: Option<nat>
    var disk: Chain
    ghost var saves: seq<Save<Chain>>

    function Parts(): set<object>
      reads this
    {
      {this} + blockchain.Parts() + pendingSync.Values
    }

    ghost predicate Wired()
      reads this, Parts(), blockchain.Parts()
    {
      && blockchain.Wired() && !blockchain.consensus.NoConsensus?
      && (blockchain.consensus.StakeConsensus? ==> blockchain.consensus.pos.genesisStakes == Some(genesisStakes))
      && (forall p, q :: p in pendingSync && q in pendingSync && p != q ==> pendingSync[p] != pendingSync[q])
    }

    ghost function TheConfig(): Config
      reads this, blockchain.Parts()
    {
      Config(blockchain.TheRules(genesisStakes), blockchain.TheAuthor(), limits, minStake)
    }

    ghost function TheSaver(): Saver<Chain>
      reads this, blockchain.Parts()
    {
      Saver(blockchain.chain, disk, saves, persistPending, workers, persistTask, stopAwaits)
    }

    ghost function Sessions(): map<string, Sync>
      reads this, pendingSync.Values
    {
      map peer | peer in pendingSync :: pendingSync[peer].Opened()
    }

    /** Sessions are unchanged when neither the dict nor any session object is. */
    twostate lemma SessionsKept()
      requires pendingSync == old(pendingSync)
      requires forall peer :: peer in pendingSync ==> old(allocated(pendingSync[peer])) && unchanged(pendingSync[peer])
      ensures Sessions() == old(Sessions())
    {
    }

    ghost function State(): NodeState
      reads this, Parts(), blockchain.Parts()
    {
      NodeState(blockchain.TheBook(), Sessions(), TheSaver())
    }

    constructor (blockchain: BlockChain, genesisStakes: Stakes, limits: Limits, minStake: nat)
      requires blockchain.Wired() && !blockchain.consensus.NoConsensus?
      requires blockchain.consensus.StakeConsensus? ==> blockchain.consensus.pos.genesisStakes == Some(genesisStakes)
      ensures Wired() && this.blockchain == blockchain && this.genesisStakes == genesisStakes
      ensures this.limits == limits && this.minStake == minStake
      ensures State() == NodeState(blockchain.TheBook(), map[], Idle(blockchain.chain))
    {
      this.blockchain := blockchain;
      this.genesisStakes := genesisStakes;
      this.limits := limits;
      this.minStake := minStake;
      pendingSync := map[];
      persistPending := false;
      persistTask := None;
      workers := [];
      stopAwaits := None;
      disk := blockchain.chain;
      saves := [Save(blockchain.chain, true)];
    }

    /** `_restore_chain` on a node that has just been created. */
    method RestoreChain(stored: Chain, storedGenesis: string) returns (ok: bool)
      requires Wired() && Boot(TheConfig(), None, "") == Success(State())
      modifies this`disk, this`saves, blockchain.Parts()
      ensures Wired() && TheConfig() == old(TheConfig())
      ensures ok <==> Boot(old(TheConfig()), Some(stored), storedGenesis).Success?
      ensures ok ==> Boot(old(TheConfig()), Some(stored), storedGenesis) == Success(State())
    {
      if storedGenesis != "" && storedGenesis != blockchain.genesisPrevHash {
        return false;
      }
      disk := stored;
      saves := [Save(stored, true)];
      if stored == [] {
        return true;
      }
      VerifiedIsValid(TheConfig().rules, stored);
      ok := blockchain.ReplaceChain(stored, genesisStakes);
    }

    /** `_schedule_persist`. */
    method SchedulePersist()
      modifies this`persistPending, this`persistTask, this`workers
      ensures TheSaver() == Schedule(old(TheSaver()))
    {
      persistPending := true;
      if persistTask.None? || persistTask.value >= |workers| || Done(workers[persistTask.value]) {
        persistTask := Some(|workers|);
        workers := workers + [Task(Created, false)];
      }
    }

    /** `_persist_state`; `ok` says whether the save succeeds. */
    method PersistState(ok: bool)
      modifies this`disk, this`saves
      ensures TheSaver() == Saving(old(TheSaver()), ok)
    {
      disk := if ok then blockchain.chain else disk;
      saves := saves + [Save(blockchain.chain, ok)];
    }

    /** `_persist_worker` between two suspensions; `ok` says whether its save succeeds. */
    method ResumeWorker(i: nat, ok: bool)
      modifies this`persistPending, this`workers, this`disk, this`saves
      ensures TheSaver() == Resumed(old(TheSaver()), i, ok)
    {
      if i >= |workers| || Done(workers[i]) {
        return;
      }
      if workers[i].cancelled {
        workers := workers[i := Task(Finished, true)];
        return;
      }
      if workers[i].stage.Sleeping? {
        PersistState(ok);
        if !ok {
          workers := workers[i := Task(Failed, false)];
          return;
        }
      }
      if persistPending {
        persistPending := false;
        workers := workers[i := Task(Sleeping, false)];
      } else {
        workers := workers[i := Task(Finished, false)];
      }
    }

    /** `stop` up to the point where it waits for the cancelled worker, or to its end without one. */
    method StopBegin(ok: bool)
      modifies this`persistPending, this`workers, this`disk, this`saves, this`stopAwaits
      ensures TheSaver() == StopBegun(old(TheSaver()), ok)
    {
      if stopAwaits.Some? {
        return;
      }
      persistPending := false;
      if persistTask.None? || persistTask.value >= |workers| {
        PersistState(ok);
        return;
      }
      var i := persistTask.value;
      if !Done(workers[i]) {
        workers := workers[i := workers[i].(cancelled := true)];
      }
      stopAwaits := Some(i);
    }

    /** The rest of `stop`; the exception of a worker that died leaves it before the save. */
    method StopEnd(ok: bool) returns (saved: bool)
      modifies this`persistTask, this`disk, this`saves, this`stopAwaits
      ensures TheSaver() == StopEnded(old(TheSaver()), ok)
      ensures saved <==> ok && old(stopAwaits.Some? && stopAwaits.value < |workers| && workers[stopAwaits.value].stage.Finished?)
      ensures disk == if saved then blockchain.chain else old(disk)
    {
      if stopAwaits.None? || stopAwaits.value >= |workers| || !Done(workers[stopAwaits.value]) {
        return false;
      }
      var worker := workers[stopAwaits.value];
      stopAwaits := None;
      if worker.stage.Failed? {
        return false;
      }
      persistTask := None;
      PersistState(ok);
      saved := ok;
    }

    /** The node's own block is made, added and scheduled for saving. */
    method MakeBlock(body: TransactionBody, now: int) returns (r: Result<Block>)
      requires Wired()
      modifies this`persistPending, this`persistTask, this`workers, blockchain.Parts()
      ensures Wired() && TheConfig() == old(TheConfig())
      ensures blockchain.TheBook() == Apply(old(TheConfig().rules), old(TheConfig().author), old(blockchain.TheBook()), AddNew(body, now))
      ensures TheSaver() == if blockchain.chain == old(blockchain.chain) then old(TheSaver())
                            else Changed(old(TheSaver()), blockchain.chain)
      ensures r == Produce(old(TheConfig().rules), old(TheConfig().author), old(blockchain.chain), body, now)
      ensures blockchain.chain == if r.Success? then old(blockchain.chain) + [r.value] else old(blockchain.chain)
    {
      r := blockchain.AddNewBlock(body, now, genesisStakes);
      if r.Success? {
        assert |blockchain.chain| == |old(blockchain.chain)| + 1;
        SchedulePersist();
      }
    }

    /** The same, seen from the whole state. */
    method MakeInState(body: TransactionBody, now: int) returns (r: Result<Block>)
      requires Wired()
      modifies this`persistPending, this`persistTask, this`workers, blockchain.Parts()
      ensures Wired() && TheConfig() == old(TheConfig())
      ensures State() == WithBook(old(State()), Apply(old(TheConfig().rules), old(TheConfig().author), old(State().book), AddNew(body, now)))
      ensures r == Produce(old(TheConfig().rules), old(TheConfig().author), old(blockchain.chain), body, now)
      ensures blockchain.chain == if r.Success? then old(blockchain.chain) + [r.value] else old(blockchain.chain)
    {
      r := MakeBlock(body, now);
      SessionsKept();
    }

    /** `add_block`. */
    method AddBlock(body: TransactionBody, now: int) returns (r: Result<Block>)
      requires Wired()
      modifies this, blockchain.Parts()
      ensures Wired() && TheConfig() == old(TheConfig())
      ensures State() == Next(old(TheConfig()), old(State()), LocalBlock(body, now))
      ensures r == Produce(old(TheConfig().rules), old(TheConfig().author), old(blockchain.chain), body, now)
      ensures blockchain.chain == if r.Success? then old(blockchain.chain) + [r.value] else old(blockchain.chain)
    {
      r := MakeInState(body, now);
    }

    /** The block of a NEW_BLOCK message is added and, if accepted, scheduled for saving. */
    method TakeBlock(b: Block) returns (added: bool)
      requires Wired()
      modifies this`persistPending, this`persistTask, this`workers, blockchain.Parts()
      ensures Wired() && TheConfig() == old(TheConfig())
      ensures blockchain.TheBook() == Apply(old(TheConfig().rules), old(TheConfig().author), old(blockchain.TheBook()), Add(b))
      ensures TheSaver() == if blockchain.chain == old(blockchain.chain) then old(TheSaver())
                            else Changed(old(TheSaver()), blockchain.chain)
      ensures added <==> AddVerdict(old(TheConfig().rules), old(blockchain.chain), b).Valid?
      ensures blockchain.chain == if added then old(blockchain.chain) + [b] else old(blockchain.chain)
    {
      added := blockchain.AddBlock(b, genesisStakes);
      if added {
        assert |blockchain.chain| == |old(blockchain.chain)| + 1;
        SchedulePersist();
      }
    }

    /** The same, seen from the whole state. */
    method TakeInState(b: Block) returns (added: bool)
      requires Wired()
      modifies this`persistPending, this`persistTask, this`workers, blockchain.Parts()
      ensures Wired() && TheConfig() == old(TheConfig())
      ensures State() == WithBook(old(State()), Apply(old(TheConfig().rules), old(TheConfig().author), old(State().book), Add(b)))
      ensures added <==> AddVerdict(old(TheConfig().rules), old(blockchain.chain), b).Valid?
      ensures blockchain.chain == if added then old(blockchain.chain) + [b] else old(blockchain.chain)
    {
      added := TakeBlock(b);
      SessionsKept();
    }

    /** NEW_BLOCK; a refused block makes the caller synchronise. */
    method HandleNewBlock(block: Option<Block>) returns (added: bool)
      requires Wired()
      modifies this, blockchain.Parts()
      ensures Wired() && TheConfig() == old(TheConfig())
      ensures State() == Next(old(TheConfig()), old(State()), NewBlock(block))
      ensures added <==> block.Some? && AddVerdict(old(TheConfig().rules), old(blockchain.chain), block.value).Valid?
      ensures blockchain.chain == if added then old(blockchain.chain) + [block.value] else old(blockchain.chain)
    {
      if block.None? {
        return false;
      }
      added := TakeInState(block.value);
    }

    /** The consensus object's selector. */
    method SelectCanonical(candidates: seq<Chain>) returns (selected: Result<Chain>)
      requires Wired()
      ensures selected == Select(TheConfig().rules, candidates)
    {
      match blockchain.consensus {
        case WorkConsensus(pow) => selected := pow.SelectCanonicalChain(candidates);
        case StakeConsensus(pos) => selected := pos.SelectCanonicalChain(candidates, genesisStakes);
      }
    }

    /** The first half of `_resolve_fork`: joining and selecting. */
    method PickCanonical(remote: Chain) returns (canonical: Result<Chain>)
      requires Wired() && remote != []
      ensures canonical == Select(TheConfig().rules, Candidates(blockchain.chain, remote))
    {
      var local := blockchain.chain;
      var candidates := [remote];
      if local != [] {
        var joined := JoinSuffix(local, remote);
        candidates := [local, if joined.Some? then joined.value else remote];
      }
      canonical := SelectCanonical(candidates);
    }

    /** The second half: adopting the selected chain. */
    method AdoptChain(canonical: Chain)
      requires Wired()
      modifies this`persistPending, this`persistTask, this`workers, blockchain.Parts()
      ensures Wired() && TheConfig() == old(TheConfig())
      ensures var r := old(TheConfig().rules);
        blockchain.TheBook() ==
          if canonical != [] && canonical != old(blockchain.chain) && ValidChain(r, canonical)
          then Book(canonical, if r.Pos? then Replay(canonical, r.stakes, r.reward) else old(blockchain.TheBook().cache))
          else old(blockchain.TheBook())
      ensures TheSaver() == if blockchain.chain == old(blockchain.chain) then old(TheSaver())
                            else Changed(old(TheSaver()), blockchain.chain)
    {
      if canonical != [] && canonical != blockchain.chain {
        VerifiedIsValid(TheConfig().rules, canonical);
        var replaced := blockchain.ReplaceChain(canonical, genesisStakes);
        if replaced {
          SchedulePersist();
        }
      }
    }

    /** `_resolve_fork`; an exception of the selector leaves it and nothing has changed. */
    method ResolveFork(remote: Chain) returns (error: Option<string>)
      requires Wired()
      modifies this`persistPending, this`persistTask, this`workers, blockchain.Parts()
      ensures Wired() && TheConfig() == old(TheConfig())
      ensures blockchain.TheBook() == ResolveBook(old(TheConfig().rules), old(blockchain.TheBook()), remote)
      ensures TheSaver() == if blockchain.chain == old(blockchain.chain) then old(TheSaver())
                            else Changed(old(TheSaver()), blockchain.chain)
      ensures error == if remote == [] then None else SelectError(old(TheConfig().rules), old(blockchain.chain), remote)
    {
      if remote == [] {
        return None;
      }
      var canonical := PickCanonical(remote);
      if canonical.Failure? {
        return Some(canonical.error);
      }
      AdoptChain(canonical.value);
      error := None;
    }

    /** GET_CHAIN. */
    method HandleGetChain(from: Raw, limit: Raw) returns (p: Response)
      ensures p == Serve(blockchain.chain, limits.batch, from, limit)
    {
      var height := FromHeight(from);
      var size := BatchSize(limit, limits.batch);
      var blocks := blockchain.GetBlocksFrom(height, Some(size));
      p := AnswerWith(blocks, height, size, |blockchain.chain|);
    }

    /** `_request_chain` up to its first request; None when one is already open. */
    method RequestChain(peer: string) returns (fromHeight: Option<int>)
      requires Wired()
      modifies this`pendingSync
      ensures Wired() && TheConfig() == old(TheConfig())
      ensures State() == Next(old(TheConfig()), old(State()), OpenSync(peer))
      ensures fromHeight == if peer in old(pendingSync) then None else Some(|blockchain.chain| + 1)
    {
      if peer in pendingSync {
        return None;
      }
      var start := if |blockchain.chain| > 0 then |blockchain.chain| + 1 else 1;
      var prev := if blockchain.chain != [] then blockchain.chain[|blockchain.chain| - 1].header.tranHash else None;
      OpenSession(peer, start, prev);
      fromHeight := Some(start);
    }

    method OpenSession(peer: string, start: int, prev: Option<string>)
      requires Wired() && peer !in pendingSync
      modifies this`pendingSync
      ensures Wired() && TheConfig() == old(TheConfig())
      ensures State() == old(State()).(sessions := old(Sessions())[peer := OpenAt(start, prev)])
    {
      var session := new ChainSyncSession(start, prev);
      pendingSync := pendingSync[peer := session];
      assert Sessions() == old(Sessions())[peer := OpenAt(start, prev)];
    }

    /** CHAIN_RESPONSE while a session with the peer is open. */
    method ReceiveInSession(peer: string, p: Response)
      requires Wired() && peer in pendingSync
      modifies pendingSync[peer]
      ensures Wired() && TheConfig() == old(TheConfig())
      ensures State() == old(State()).(sessions := Answered(limits, old(Sessions()), peer, p))
    {
      DeliverTo(peer, p);
    }

    method DeliverTo(peer: string, p: Response)
      requires peer in pendingSync
      requires forall q :: q in pendingSync && q != peer ==> pendingSync[q] != pendingSync[peer]
      modifies pendingSync[peer]
      ensures Sessions() == Answered(limits, old(Sessions()), peer, p)
    {
      pendingSync[peer].Receive(limits, p);
    }

    /** `_resolve_fork`, seen from the whole state. */
    method ResolveInState(remote: Chain)
      requires Wired()
      modifies this`persistPending, this`persistTask, this`workers, blockchain.Parts()
      ensures Wired() && TheConfig() == old(TheConfig())
      ensures State() == WithBook(old(State()), ResolveBook(old(TheConfig().rules), old(State().book), remote))
    {
      var _ := ResolveFork(remote);
      SessionsKept();
    }

    /** CHAIN_RESPONSE. */
    method HandleChainResponse(peer: string, p: Response)
      requires Wired()
      modifies this, Parts(), blockchain.Parts()
      ensures Wired() && TheConfig() == old(TheConfig())
      ensures State() == Next(old(TheConfig()), old(State()), ChainResponse(peer, p))
    {
      assert peer in pendingSync <==> peer in State().sessions;
      if peer in pendingSync {
        ReceiveInSession(peer, p);
      } else {
        var blocks := BlocksOf(p);
        if blocks.Some? {
          ResolveInState(blocks.value);
        }
      }
    }

    /** `_request_chain` once its session is done. */
    method FinishRequest(peer: string)
      requires Wired()
      modifies this, blockchain.Parts()
      ensures Wired() && TheConfig() == old(TheConfig())
      ensures State() == Next(old(TheConfig()), old(State()), FinishSync(peer))
    {
      assert peer in pendingSync <==> peer in State().sessions;
      if peer !in pendingSync || !pendingSync[peer].done {
        return;
      }
      ResolveInState(pendingSync[peer].blocks);
      DropSession(peer);
    }

    /** The `finally` clause of `_request_chain`. */
    method DropSession(peer: string)
      requires Wired()
      modifies this`pendingSync
      ensures Wired() && TheConfig() == old(TheConfig())
      ensures State() == old(State()).(sessions := old(Sessions()) - {peer})
    {
      pendingSync := pendingSync - {peer};
      assert Sessions() == old(Sessions()) - {peer};
    }

    /** `_request_chain` when its wait times out. */
    method AbortRequest(peer: string)
      requires Wired()
      modifies this`pendingSync
      ensures Wired() && TheConfig() == old(TheConfig())
      ensures State() == Next(old(TheConfig()), old(State()), AbortSync(peer))
    {
      DropSession(peer);
    }
  }
}
