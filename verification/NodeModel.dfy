/** The node as a state machine: local blocks, NEW_BLOCK, chain synchronisation, fork
    resolution, debounced persistence and restore, in any order (network/node.py). */
module NodeModel {
  import opened Types
  import opened HashUtils
  import opened StakeMaps
  import opened Rules
  import opened ForkChoice
  import opened ChainValidator
  import opened Ledger
  import opened SyncSession
  import opened PersistWorker
  import Work = ProofOfWork
  import Stake = ProofOfStake

  datatype Config = Config(rules: Rules, author: Author, limits: Limits, minStake: nat)

  /** The chain with the stake cache, the open sync sessions by peer, and the saving machinery. */
  datatype NodeState = NodeState(book: Book, sessions: map<string, Sync>, saver: Saver<Chain>)

  datatype Event =
    | LocalBlock(body: TransactionBody, now: int)
    | NewBlock(block: Option<Block>)              // None: the payload holds no non-empty dict
    | OpenSync(peer: string)                      // `_request_chain` sends its first request
    | ChainResponse(peer: string, response: Response)
    | FinishSync(peer: string)                    // `_request_chain` wakes up on `done`
    | AbortSync(peer: string)                     // `_request_chain` times out
    | Worker(task: nat, ok: bool)                 // a persist worker is resumed; `ok`: its save succeeds
    | StopStarts(ok: bool)
    | StopCompletes(ok: bool)

  // ---------- steps ----------

  /** The book after `_resolve_fork`; a replacement rebuilds the cache. */
  ghost function ResolveBook(r: Rules, book: Book, remote: Chain): Book
    requires !r.Legacy?
  {
    var chain := Resolve(r, book.chain, remote);
    if chain == book.chain then book else Book(chain, if r.Pos? then Replay(chain, r.stakes, r.reward) else book.cache)
  }

  /** A new book, scheduled for saving if the chain has changed. */
  function WithBook(s: NodeState, book: Book): NodeState {
    if book.chain == s.book.chain then s.(book := book) else s.(book := book, saver := Changed(s.saver, book.chain))
  }

  /** The blocks of a response if it is a list of dicts. */
  function BlocksOf(p: Response): Option<Chain> {
    if p.blocks.Is? && forall i :: 0 <= i < |p.blocks.value| ==> p.blocks.value[i].Item?
    then Some(seq(|p.blocks.value|, i requires 0 <= i < |p.blocks.value| => p.blocks.value[i].block)) else None
  }

  /** The session `_request_chain` opens on a chain. */
  function FirstRequest(chain: Chain): Session {
    NewSession(|chain| + 1, LastHash(chain, None))
  }

  function Opening(chain: Chain): Sync {
    OpenAt(|chain| + 1, LastHash(chain, None))
  }

  /** CHAIN_RESPONSE while a session with the peer is open. */
  function Answered(limits: Limits, sessions: map<string, Sync>, peer: string, p: Response): map<string, Sync>
    requires peer in sessions
  {
    sessions[peer := sessions[peer].(session := OnResponse(limits, sessions[peer].session, p))]
  }

  ghost function Next(cfg: Config, s: NodeState, e: Event): NodeState
    requires !cfg.rules.Legacy?
  {
    match e
    case LocalBlock(body, now) => WithBook(s, Apply(cfg.rules, cfg.author, s.book, AddNew(body, now)))
    case NewBlock(block) =>
      if block.None? then s else WithBook(s, Apply(cfg.rules, cfg.author, s.book, Add(block.value)))
    case OpenSync(peer) =>
      if peer in s.sessions then s else s.(sessions := s.sessions[peer := Opening(s.book.chain)])
    case ChainResponse(peer, p) =>
      if peer in s.sessions then s.(sessions := Answered(cfg.limits, s.sessions, peer, p))
      else if BlocksOf(p).Some? then WithBook(s, ResolveBook(cfg.rules, s.book, BlocksOf(p).value))
      else s
    case FinishSync(peer) =>
      if peer !in s.sessions || !s.sessions[peer].session.done then s
      else WithBook(s, ResolveBook(cfg.rules, s.book, s.sessions[peer].session.blocks)).(sessions := s.sessions - {peer})
    case AbortSync(peer) => s.(sessions := s.sessions - {peer})
    case Worker(i, ok) => s.(saver := Resumed(s.saver, i, ok))
    case StopStarts(ok) => s.(saver := StopBegun(s.saver, ok))
    case StopCompletes(ok) => s.(saver := StopEnded(s.saver, ok))
  }

  ghost function RunNode(cfg: Config, s: NodeState, events: seq<Event>): NodeState
    requires !cfg.rules.Legacy?
    decreases |events|
  {
    if events == [] then s else RunNode(cfg, Next(cfg, s, events[0]), events[1..])
  }

  /** What `__init__` makes of the stored state: a stored genesis value must match,
      and a stored chain must verify. */
  ghost function Boot(cfg: Config, stored: Option<Chain>, storedGenesis: string): Result<NodeState>
    requires !cfg.rules.Legacy?
  {
    var r := cfg.rules;
    var clean := Book([], if r.Pos? then InitialCache(r.stakes, cfg.author.nodeId, cfg.minStake) else map[]);
    if stored.None? then Success(NodeState(clean, map[], Idle([])))
    else if storedGenesis != "" && storedGenesis != r.genesis then
      Failure("Persisted genesis.prev_hash does not match configuration")
    else if stored.value == [] then Success(NodeState(clean, map[], Idle([])))
    else if !Verify(r, stored.value).Verified? then Failure("Persisted chain failed integrity verification")
    else Success(NodeState(Book(stored.value, if r.Pos? then Replay(stored.value, r.stakes, r.reward) else map[]),
                           map[], Idle(stored.value)))
  }

  // ---------- what every step keeps ----------

  /** Every open session is safe for the request that opened it. */
  ghost predicate AllSessionsSafe(limits: Limits, sessions: map<string, Sync>) {
    forall peer :: peer in sessions ==> SessionSafe(limits, sessions[peer].session, sessions[peer].start, sessions[peer].prev)
  }

  /** Whatever a save, complete or not, may have put on disk is a valid chain. */
  ghost predicate AllValid(r: Rules, saves: seq<Save<Chain>>) {
    forall k :: 0 <= k < |saves| ==> ValidChain(r, saves[k].value)
  }

  ghost predicate Healthy(cfg: Config, s: NodeState)
    requires !cfg.rules.Legacy?
  {
    && ValidChain(cfg.rules, s.book.chain)
    && (cfg.rules.Pos? && Listed(cfg.rules.stakes, cfg.author.nodeId) ==> CacheIsReplay(cfg.rules, s.book))
    && AllSessionsSafe(cfg.limits, s.sessions)
    && s.saver.memory == s.book.chain
    && ValidChain(cfg.rules, s.saver.disk)
    && SavesFit(s.saver) && AllValid(cfg.rules, s.saver.saves)
    && Orderly(s.saver)
  }

  /** A block the node makes itself is one that others can accept: the clock is not
      behind the tip (PoW), the node's key is the registered one (PoS). */
  ghost predicate Admissible(cfg: Config, s: NodeState, e: Event) {
    e.LocalBlock? && Produce(cfg.rules, cfg.author, s.book.chain, e.body, e.now).Success?
    ==> Presentable(cfg.rules, cfg.author, s.book.chain, e.now)
  }

  ghost predicate AdmissibleRun(cfg: Config, s: NodeState, events: seq<Event>)
    requires !cfg.rules.Legacy?
    decreases |events|
  {
    events != [] ==> Admissible(cfg, s, events[0]) && AdmissibleRun(cfg, Next(cfg, s, events[0]), events[1..])
  }

  /** What is assumed of a configuration. */
  ghost predicate Sane(cfg: Config) {
    !cfg.rules.Legacy? && SignaturesVerify(cfg.rules.env) && cfg.author.nodeId != Some("")
  }

  /** The chain is unchanged or beats the former one. */
  ghost predicate Progress(r: Rules, before: Chain, after: Chain)
    requires !r.Legacy?
  {
    before == after || Beats(r, after, before)
  }

  lemma ProgressByScore(r: Rules, before: Chain, after: Chain)
    requires !r.Legacy? && (before == after || ScoreLt(ScoreOf(r, before), ScoreOf(r, after)))
    ensures Progress(r, before, after)
  {
    BeatsByScore(r, after, before);
  }

  lemma ProgressTransitive(r: Rules, a: Chain, b: Chain, c: Chain)
    requires !r.Legacy? && Progress(r, a, b) && Progress(r, b, c)
    ensures Progress(r, a, c)
  {
    BeatsByScore(r, b, a);
    BeatsByScore(r, c, b);
    if a != b && b != c {
      ScoreTransitive(ScoreOf(r, a), ScoreOf(r, b), ScoreOf(r, c));
    }
    ProgressByScore(r, a, c);
  }

  lemma BootHealthy(cfg: Config, stored: Option<Chain>, storedGenesis: string)
    requires Sane(cfg) && Boot(cfg, stored, storedGenesis).Success?
    ensures Healthy(cfg, Boot(cfg, stored, storedGenesis).value) && NothingLost(Boot(cfg, stored, storedGenesis).value.saver)
  {
    if stored.Some? {
      VerifiedIsValid(cfg.rules, stored.value);
    }
  }

  lemma AddedBlockFacts(r: Rules, chain: Chain, b: Block)
    requires !r.Legacy? && ValidChain(r, chain) && AddVerdict(r, chain, b).Valid?
    ensures ValidChain(r, chain + [b]) && Progress(r, chain, chain + [b])
  {
    ValidAppend(r, chain, b);
    AppendRaisesScore(r, chain, b);
    ProgressByScore(r, chain, chain + [b]);
  }

  lemma ApplyAddFacts(r: Rules, author: Author, book: Book, b: Block)
    requires !r.Legacy? && ValidChain(r, book.chain)
    ensures var after := Apply(r, author, book, Add(b));
      ValidChain(r, after.chain) && Progress(r, book.chain, after.chain) && (CacheIsReplay(r, book) ==> CacheIsReplay(r, after))
  {
    if AddVerdict(r, book.chain, b).Valid? {
      AddedBlockFacts(r, book.chain, b);
    }
    if CacheIsReplay(r, book) {
      ApplyKeepsCache(r, author, book, Add(b));
    }
  }

  lemma ApplyNewFacts(r: Rules, author: Author, book: Book, body: TransactionBody, now: int)
    requires !r.Legacy? && ValidChain(r, book.chain) && SignaturesVerify(r.env) && author.nodeId != Some("")
    requires Produce(r, author, book.chain, body, now).Success? ==> Presentable(r, author, book.chain, now)
    ensures var after := Apply(r, author, book, AddNew(body, now));
      ValidChain(r, after.chain) && Progress(r, book.chain, after.chain) && (CacheIsReplay(r, book) ==> CacheIsReplay(r, after))
  {
    var made := Produce(r, author, book.chain, body, now);
    if made.Success? {
      ProductionMeetsValidation(r, author, book.chain, body, now);
      ValidAppend(r, book.chain, made.value);
      AppendRaisesScore(r, book.chain, made.value);
      ProgressByScore(r, book.chain, book.chain + [made.value]);
    }
    if CacheIsReplay(r, book) {
      ApplyKeepsCache(r, author, book, AddNew(body, now));
    }
  }

  lemma ResolveBookFacts(r: Rules, book: Book, remote: Chain)
    requires !r.Legacy? && ValidChain(r, book.chain)
    ensures var after := ResolveBook(r, book, remote);
      ValidChain(r, after.chain) && Progress(r, book.chain, after.chain) && (CacheIsReplay(r, book) ==> CacheIsReplay(r, after))
  {
    ResolveProgress(r, book.chain, remote);
    ProgressByScore(r, book.chain, Resolve(r, book.chain, remote));
  }

  /** A healthy state with a new book stays healthy. */
  lemma WithBookHealthy(cfg: Config, s: NodeState, book: Book)
    requires Sane(cfg) && Healthy(cfg, s) && ValidChain(cfg.rules, book.chain)
    requires CacheIsReplay(cfg.rules, s.book) ==> CacheIsReplay(cfg.rules, book)
    ensures Healthy(cfg, WithBook(s, book))
  {
    if book.chain != s.book.chain {
      StepOrderly(s.saver, Change(book.chain));
    }
  }

  lemma SessionsStaySafe(cfg: Config, s: NodeState, peer: string, p: Response)
    requires AllSessionsSafe(cfg.limits, s.sessions) && peer in s.sessions
    ensures AllSessionsSafe(cfg.limits, Answered(cfg.limits, s.sessions, peer, p))
  {
    ResponseKeepsSafe(cfg.limits, s.sessions[peer].session, p, s.sessions[peer].start, s.sessions[peer].prev);
  }

  /** The book an event leads to. */
  lemma BookStep(cfg: Config, s: NodeState, e: Event)
    requires Sane(cfg) && ValidChain(cfg.rules, s.book.chain) && Admissible(cfg, s, e)
    ensures var after := Next(cfg, s, e).book;
      ValidChain(cfg.rules, after.chain) && Progress(cfg.rules, s.book.chain, after.chain)
      && (CacheIsReplay(cfg.rules, s.book) ==> CacheIsReplay(cfg.rules, after))
  {
    match e
    case LocalBlock(body, now) => ApplyNewFacts(cfg.rules, cfg.author, s.book, body, now);
    case NewBlock(block) =>
      if block.Some? { ApplyAddFacts(cfg.rules, cfg.author, s.book, block.value); }
    case ChainResponse(peer, p) =>
      if BlocksOf(p).Some? { ResolveBookFacts(cfg.rules, s.book, BlocksOf(p).value); }
    case FinishSync(peer) =>
      if peer in s.sessions { ResolveBookFacts(cfg.rules, s.book, s.sessions[peer].session.blocks); }
    case OpenSync(_) =>
    case AbortSync(_) =>
    case Worker(_, _) =>
    case StopStarts(_) =>
    case StopCompletes(_) =>
  }

  lemma BlockEventHealthy(cfg: Config, s: NodeState, e: Event)
    requires Sane(cfg) && Healthy(cfg, s) && Admissible(cfg, s, e) && (e.LocalBlock? || e.NewBlock?)
    ensures Healthy(cfg, Next(cfg, s, e))
  {
    BookStep(cfg, s, e);
    WithBookHealthy(cfg, s, Next(cfg, s, e).book);
  }

  lemma ResolvedHealthy(cfg: Config, s: NodeState, remote: Chain)
    requires Sane(cfg) && Healthy(cfg, s)
    ensures Healthy(cfg, WithBook(s, ResolveBook(cfg.rules, s.book, remote)))
  {
    ResolveBookFacts(cfg.rules, s.book, remote);
    WithBookHealthy(cfg, s, ResolveBook(cfg.rules, s.book, remote));
  }

  /** A state whose sessions alone have changed. */
  lemma SessionsHealthy(cfg: Config, s: NodeState, sessions: map<string, Sync>)
    requires Sane(cfg) && Healthy(cfg, s) && AllSessionsSafe(cfg.limits, sessions)
    ensures Healthy(cfg, s.(sessions := sessions))
  {
  }

  lemma ResponseHealthy(cfg: Config, s: NodeState, peer: string, p: Response)
    requires Sane(cfg) && Healthy(cfg, s)
    ensures Healthy(cfg, Next(cfg, s, ChainResponse(peer, p)))
  {
    if peer in s.sessions {
      SessionsStaySafe(cfg, s, peer, p);
      SessionsHealthy(cfg, s, Answered(cfg.limits, s.sessions, peer, p));
    } else if BlocksOf(p).Some? {
      ResolvedHealthy(cfg, s, BlocksOf(p).value);
    }
  }

  lemma DropHealthy(cfg: Config, s: NodeState, peer: string)
    requires Sane(cfg) && Healthy(cfg, s)
    ensures Healthy(cfg, s.(sessions := s.sessions - {peer}))
  {
    SessionsHealthy(cfg, s, s.sessions - {peer});
  }

  lemma FinishHealthy(cfg: Config, s: NodeState, peer: string)
    requires Sane(cfg) && Healthy(cfg, s)
    ensures Healthy(cfg, Next(cfg, s, FinishSync(peer)))
  {
    if peer in s.sessions && s.sessions[peer].session.done {
      ResolvedHealthy(cfg, s, s.sessions[peer].session.blocks);
      DropHealthy(cfg, WithBook(s, ResolveBook(cfg.rules, s.book, s.sessions[peer].session.blocks)), peer);
    }
  }

  lemma OpenHealthy(cfg: Config, s: NodeState, peer: string)
    requires Sane(cfg) && Healthy(cfg, s)
    ensures Healthy(cfg, Next(cfg, s, OpenSync(peer)))
  {
    SessionsHealthy(cfg, s, s.sessions[peer := Opening(s.book.chain)]);
  }

  lemma SavesStayValid(r: Rules, saver: Saver<Chain>, step: Step<Chain>)
    requires SavesFit(saver) && AllValid(r, saver.saves) && ValidChain(r, saver.memory) && ValidChain(r, saver.disk)
    ensures var next := After(saver, step); SavesFit(next) && AllValid(r, next.saves) && ValidChain(r, next.disk)
  {
    StepSaves(saver, step);
  }

  lemma SaverHealthy(cfg: Config, s: NodeState, step: Step<Chain>)
    requires Sane(cfg) && Healthy(cfg, s) && !step.Change?
    ensures Healthy(cfg, s.(saver := After(s.saver, step)))
  {
    StepOrderly(s.saver, step);
    SavesStayValid(cfg.rules, s.saver, step);
  }

  /** Every step keeps the node healthy, provided a block it makes itself is admissible. */
  lemma StepHealthy(cfg: Config, s: NodeState, e: Event)
    requires Sane(cfg) && Healthy(cfg, s) && Admissible(cfg, s, e)
    ensures Healthy(cfg, Next(cfg, s, e))
  {
    match e
    case LocalBlock(_, _) => BlockEventHealthy(cfg, s, e);
    case NewBlock(_) => BlockEventHealthy(cfg, s, e);
    case OpenSync(peer) => OpenHealthy(cfg, s, peer);
    case ChainResponse(peer, p) => ResponseHealthy(cfg, s, peer, p);
    case FinishSync(peer) => FinishHealthy(cfg, s, peer);
    case AbortSync(peer) => DropHealthy(cfg, s, peer);
    case Worker(i, ok) => SaverHealthy(cfg, s, Resume(i, ok));
    case StopStarts(ok) => SaverHealthy(cfg, s, StopBegins(ok));
    case StopCompletes(ok) => SaverHealthy(cfg, s, StopEnds(ok));
  }

  /** The proviso is exact: whatever the event, the chain stays verified if and only if the event is admissible. */
  lemma StepValidExactly(cfg: Config, s: NodeState, e: Event)
    requires Sane(cfg) && ValidChain(cfg.rules, s.book.chain)
    ensures ValidChain(cfg.rules, Next(cfg, s, e).book.chain) <==> Admissible(cfg, s, e)
  {
    if Admissible(cfg, s, e) {
      BookStep(cfg, s, e);
    } else {
      ProductionMeetsValidation(cfg.rules, cfg.author, s.book.chain, e.body, e.now);
    }
  }

  /** The chain verifies at every moment of the run. */
  ghost predicate StaysValid(cfg: Config, s: NodeState, events: seq<Event>)
    requires !cfg.rules.Legacy?
    decreases |events|
  {
    ValidChain(cfg.rules, s.book.chain) && (events != [] ==> StaysValid(cfg, Next(cfg, s, events[0]), events[1..]))
  }

  /** So it is over runs: the chain verifies at every moment if and only if every local block is admissible. */
  lemma {:induction false} RunValidExactly(cfg: Config, s: NodeState, events: seq<Event>)
    requires Sane(cfg) && ValidChain(cfg.rules, s.book.chain)
    ensures StaysValid(cfg, s, events) <==> AdmissibleRun(cfg, s, events)
    decreases |events|
  {
    if events != [] {
      var next := Next(cfg, s, events[0]);
      StepValidExactly(cfg, s, events[0]);
      if ValidChain(cfg.rules, next.book.chain) {
        RunValidExactly(cfg, next, events[1..]);
      } else {
        assert !StaysValid(cfg, next, events[1..]);
      }
    }
  }

  /** A PoS node that has its own key registered makes admissible blocks only. */
  lemma {:induction false} KeyedRunAdmissible(cfg: Config, s: NodeState, events: seq<Event>)
    requires cfg.rules.Pos? && cfg.author.nodeId.Some? && cfg.author.privateKey.Some?
    requires cfg.author.nodeId.value in cfg.rules.keys
    requires cfg.rules.keys[cfg.author.nodeId.value] == cfg.rules.env.publicKey(cfg.author.privateKey.value)
    ensures AdmissibleRun(cfg, s, events)
    decreases |events|
  {
    if events != [] {
      KeyedRunAdmissible(cfg, Next(cfg, s, events[0]), events[1..]);
    }
  }

  /** A hash function under which every nonce qualifies. */
  function EasyCrypto(): Crypto {
    Crypto(text => seq(64, i => '0'), body => "", (key, b) => "", (b, signature, key) => true, key => "")
  }

  /** A PoW node whose clock has gone back from 10 to 5. */
  function BackwardConfig(limits: Limits): Config {
    Config(Pow(EasyCrypto(), seq(64, i => '0'), PowParameters(1, 10, 2.0, 1, 10, x => x)), Author(None, None, false), limits, 0)
  }

  lemma EasyProduction(cfg: Config, chain: Chain, body: TransactionBody, now: int)
    requires cfg == BackwardConfig(cfg.limits) && |chain| < 10
    requires chain != [] ==> chain[|chain| - 1].header.difficulty == Some(1) && chain[|chain| - 1].header.tranHash.Some?
    ensures Produce(cfg.rules, cfg.author, chain, body, now).Success?
    ensures var b := Produce(cfg.rules, cfg.author, chain, body, now).value; b.header.difficulty == Some(1) && b.header.tranHash.Some?
  {
    var zeros := seq(64, i => '0');
    assert zeros[0] == '0' && LeadingZeros(zeros) >= 1;
    Work.FirstNonceMines(cfg.rules.env, cfg.rules.pow, Draft(cfg.rules, chain, ParentHash(cfg.rules, chain).value, body, now), chain);
  }

  /** The first block, made at time 10, leaves the chain verified; the second, made at time 5, does not. */
  lemma ClockGoesBack(limits: Limits, body: TransactionBody)
    ensures var cfg := BackwardConfig(limits);
      var one := Next(cfg, NodeState(Book([], map[]), map[], Idle([])), LocalBlock(body, 10));
      && ValidChain(cfg.rules, one.book.chain) && |one.book.chain| == 1
      && !ValidChain(cfg.rules, Next(cfg, one, LocalBlock(body, 5)).book.chain)
  {
    var cfg := BackwardConfig(limits);
    var start := NodeState(Book([], map[]), map[], Idle([]));
    EasyProduction(cfg, [], body, 10);
    StepValidExactly(cfg, start, LocalBlock(body, 10));
    var one := Next(cfg, start, LocalBlock(body, 10));
    ProducedShape(cfg.rules, cfg.author, [], body, 10);
    EasyProduction(cfg, one.book.chain, body, 5);
    StepValidExactly(cfg, one, LocalBlock(body, 5));
  }

  /** Over every run of events in any order, with arbitrary blocks and responses from
      the network, the node stays healthy: in particular its chain verifies. */
  lemma {:induction false} RunHealthy(cfg: Config, s: NodeState, events: seq<Event>)
    requires Sane(cfg) && Healthy(cfg, s) && AdmissibleRun(cfg, s, events)
    ensures Healthy(cfg, RunNode(cfg, s, events))
    ensures Verify(cfg.rules, RunNode(cfg, s, events).book.chain).Verified?
    decreases |events|
  {
    if events == [] {
      VerifiedIsValid(cfg.rules, s.book.chain);
    } else {
      StepHealthy(cfg, s, events[0]);
      RunHealthy(cfg, Next(cfg, s, events[0]), events[1..]);
    }
  }

  /** Over every run the chain is unchanged or scores strictly higher in the end, so a
      chain once left is never held again. */
  lemma {:induction false} RunProgress(cfg: Config, s: NodeState, events: seq<Event>)
    requires Sane(cfg) && Healthy(cfg, s) && AdmissibleRun(cfg, s, events)
    ensures Progress(cfg.rules, s.book.chain, RunNode(cfg, s, events).book.chain)
    decreases |events|
  {
    if events != [] {
      var next := Next(cfg, s, events[0]);
      BookStep(cfg, s, events[0]);
      StepHealthy(cfg, s, events[0]);
      RunProgress(cfg, next, events[1..]);
      var end := RunNode(cfg, next, events[1..]);
      ProgressTransitive(cfg.rules, s.book.chain, next.book.chain, end.book.chain);
    }
  }

  /** No save fails in the event. */
  predicate ReliableEvent(e: Event) {
    (e.Worker? || e.StopStarts? || e.StopCompletes?) ==> e.ok
  }

  predicate AllReliableEvents(events: seq<Event>) {
    forall k :: 0 <= k < |events| ==> ReliableEvent(events[k])
  }

  /** An event that changes the chain schedules it for saving, whatever saves have failed before. */
  lemma ChangeIsScheduled(cfg: Config, s: NodeState, e: Event)
    requires Sane(cfg) && Healthy(cfg, s) && Next(cfg, s, e).book.chain != s.book.chain
    ensures NothingLost(Next(cfg, s, e).saver)
  {
    var next := Next(cfg, s, e);
    ChangeLosesNothing(s.saver, next.book.chain);
    assert next.saver == Changed(s.saver, next.book.chain);
  }

  lemma ReliableEventLosesNothing(cfg: Config, s: NodeState, e: Event)
    requires Sane(cfg) && Healthy(cfg, s) && NothingLost(s.saver) && ReliableEvent(e)
    ensures NothingLost(Next(cfg, s, e).saver)
  {
    match e
    case Worker(i, _) => ResumeLosesNothing(s.saver, i);
    case StopStarts(_) => StopLosesNothing(s.saver);
    case StopCompletes(_) => StopLosesNothing(s.saver);
    case _ =>
      if Next(cfg, s, e).book.chain != s.book.chain {
        ChangeIsScheduled(cfg, s, e);
      }
  }

  lemma {:induction false} ReliableRunKeepsChain(cfg: Config, s: NodeState, events: seq<Event>)
    requires Sane(cfg) && Healthy(cfg, s) && NothingLost(s.saver)
    requires AdmissibleRun(cfg, s, events) && AllReliableEvents(events)
    ensures NothingLost(RunNode(cfg, s, events).saver)
    decreases |events|
  {
    if events != [] {
      assert ReliableEvent(events[0]);
      StepHealthy(cfg, s, events[0]);
      ReliableEventLosesNothing(cfg, s, events[0]);
      ReliableRunKeepsChain(cfg, Next(cfg, s, events[0]), events[1..]);
    }
  }

  /** From start-up, or from the last change of the chain after which no save fails: once all
      workers are over and no stop is under way, the disk holds the node's chain. */
  lemma QuietNodeIsSaved(cfg: Config, s: NodeState, events: seq<Event>)
    requires Sane(cfg) && Healthy(cfg, s) && NothingLost(s.saver)
    requires AdmissibleRun(cfg, s, events) && AllReliableEvents(events)
    ensures var end := RunNode(cfg, s, events); Quiet(end.saver) ==> end.saver.disk == end.book.chain
  {
    ReliableRunKeepsChain(cfg, s, events);
    RunHealthy(cfg, s, events);
    var end := RunNode(cfg, s, events);
    if Quiet(end.saver) {
      QuietIsSaved(end.saver);
    }
  }

  // ---------- honest synchronisation of a whole node ----------

  lemma {:induction false} RunConcat(cfg: Config, s: NodeState, a: seq<Event>, b: seq<Event>)
    requires !cfg.rules.Legacy?
    ensures RunNode(cfg, s, a + b) == RunNode(cfg, RunNode(cfg, s, a), b)
    decreases |a|
  {
    if a == [] {
      assert a + b == b;
    } else {
      assert (a + b)[1..] == a[1..] + b;
      RunConcat(cfg, Next(cfg, s, a[0]), a[1..], b);
    }
  }

  function Responses(peer: string, ps: seq<Response>): seq<Event> {
    if ps == [] then [] else [ChainResponse(peer, ps[0])] + Responses(peer, ps[1..])
  }

  /** Responses to an open session change that session only. */
  lemma {:induction false} ResponsesReachSession(cfg: Config, s: NodeState, peer: string, ps: seq<Response>)
    requires !cfg.rules.Legacy? && peer in s.sessions
    ensures RunNode(cfg, s, Responses(peer, ps)) ==
      s.(sessions := s.sessions[peer := s.sessions[peer].(session := OnResponses(cfg.limits, s.sessions[peer].session, ps))])
    decreases |ps|
  {
    if ps == [] {
      assert s.sessions[peer := s.sessions[peer]] == s.sessions;
    } else {
      var events := Responses(peer, ps);
      assert events[0] == ChainResponse(peer, ps[0]) && events[1..] == Responses(peer, ps[1..]);
      var next := Next(cfg, s, events[0]);
      ResponsesReachSession(cfg, next, peer, ps[1..]);
      var end := s.sessions[peer].(session := OnResponses(cfg.limits, s.sessions[peer].session, ps));
      assert next.sessions[peer := end] == s.sessions[peer := end];
    }
  }

  /** The run: open a session with `peer`, take `replies`, finish. */
  ghost function SyncRun(cfg: Config, s: NodeState, peer: string, replies: seq<Response>): NodeState
    requires !cfg.rules.Legacy?
  {
    RunNode(cfg, s, [OpenSync(peer)] + Responses(peer, replies) + [FinishSync(peer)])
  }

  lemma SyncRunIs(cfg: Config, s: NodeState, peer: string, replies: seq<Response>)
    requires !cfg.rules.Legacy? && peer !in s.sessions
    ensures var end := Opening(s.book.chain).(session := OnResponses(cfg.limits, FirstRequest(s.book.chain), replies));
      SyncRun(cfg, s, peer, replies) == Next(cfg, s.(sessions := s.sessions[peer := end]), FinishSync(peer))
  {
    var asking := Next(cfg, s, OpenSync(peer));
    ResponsesReachSession(cfg, asking, peer, replies);
    var end := Opening(s.book.chain).(session := OnResponses(cfg.limits, FirstRequest(s.book.chain), replies));
    assert asking.sessions[peer := end] == s.sessions[peer := end];
    var collected := RunNode(cfg, asking, Responses(peer, replies));
    RunOne(cfg, s, OpenSync(peer));
    RunOne(cfg, collected, FinishSync(peer));
    RunConcat(cfg, s, [OpenSync(peer)], Responses(peer, replies));
    RunConcat(cfg, s, [OpenSync(peer)] + Responses(peer, replies), [FinishSync(peer)]);
  }

  lemma FinishAdopts(cfg: Config, s: NodeState, peer: string, end: Sync, full: Chain)
    requires !cfg.rules.Legacy? && peer !in s.sessions && end.session.done
    requires Resolve(cfg.rules, s.book.chain, end.session.blocks) == full
    ensures var after := Next(cfg, s.(sessions := s.sessions[peer := end]), FinishSync(peer));
      after.book.chain == full && after.sessions == s.sessions
      && (s.book.chain != full ==> after.saver == Changed(s.saver, full))
  {
    assert s.sessions[peer := end] - {peer} == s.sessions;
  }

  lemma SyncRunAdopts(cfg: Config, s: NodeState, peer: string, replies: seq<Response>, target: Chain)
    requires !cfg.rules.Legacy? && peer !in s.sessions
    requires var end := OnResponses(cfg.limits, FirstRequest(s.book.chain), replies);
      end.done && Resolve(cfg.rules, s.book.chain, end.blocks) == target
    ensures var after := SyncRun(cfg, s, peer, replies);
      && after.book.chain == target && after.sessions == s.sessions
      && (s.book.chain != target ==> after.saver == Changed(s.saver, target))
  {
    SyncRunIs(cfg, s, peer, replies);
    FinishAdopts(cfg, s, peer, Opening(s.book.chain).(session := OnResponses(cfg.limits, FirstRequest(s.book.chain), replies)), target);
  }

  /** A node whose chain is the first h blocks of an honest peer's valid chain opens a session,
      takes the peer's finitely many replies and finishes. It then holds the peer's chain,
      scheduled for saving if it is new, if and only if the index of every missing block is an
      int; otherwise its chain is unchanged. */
  lemma NodeCatchesUp(cfg: Config, s: NodeState, peer: string, peerBatch: int, full: Chain, h: nat)
    requires !cfg.rules.Legacy? && ValidChain(cfg.rules, full) && h <= |full| && s.book.chain == full[..h]
    requires peer !in s.sessions && peerBatch >= 1 && Fits(cfg.limits, peerBatch, full, h)
    ensures var first := FirstRequest(full[..h]);
      && OnTrack(cfg.limits, peerBatch, full, h, first)
      && var end := SyncRun(cfg, s, peer, HonestReplies(cfg.limits, peerBatch, full, h, first));
      && end.book.chain == (if ExactIn(full, h, |full|) then full else full[..h])
      && end.sessions == s.sessions
      && (s.book.chain != end.book.chain ==> end.saver == Changed(s.saver, full))
  {
    var first := FirstRequest(full[..h]);
    HonestSyncExact(cfg.rules, cfg.limits, peerBatch, full, h);
    var replies := HonestReplies(cfg.limits, peerBatch, full, h, first);
    SyncRunAdopts(cfg, s, peer, replies, if ExactIn(full, h, |full|) then full else full[..h]);
  }

  lemma RunOne(cfg: Config, s: NodeState, e: Event)
    requires !cfg.rules.Legacy?
    ensures RunNode(cfg, s, [e]) == Next(cfg, s, e)
  {
    assert [e][1..] == [];
  }

  /** The same for any two valid chains: the node ends with its own chain followed by the peer's further
      blocks, scheduled for saving, if and only if the peer's next block names the node's tip, the
      indices of those blocks are ints and the joined chain is valid; otherwise it keeps its chain. */
  lemma NodeSyncsExactly(cfg: Config, s: NodeState, peer: string, peerBatch: int, full: Chain)
    requires !cfg.rules.Legacy? && ValidChain(cfg.rules, full) && ValidChain(cfg.rules, s.book.chain)
    requires peer !in s.sessions && peerBatch >= 1
    requires |s.book.chain| < |full| ==> Fits(cfg.limits, peerBatch, full, |s.book.chain|)
    ensures var local := s.book.chain;
      var end := SyncRun(cfg, s, peer, HonestExchange(cfg.limits, peerBatch, full, local));
      && end.book.chain ==
           (if Joins(local, full) && ExactIn(full, |local|, |full|) && ValidChain(cfg.rules, local + full[|local|..])
            then local + full[|local|..] else local)
      && end.sessions == s.sessions
      && (local != end.book.chain ==> end.saver == Changed(s.saver, end.book.chain))
  {
    var local := s.book.chain;
    var replies := HonestExchange(cfg.limits, peerBatch, full, local);
    SyncExactly(cfg.rules, cfg.limits, peerBatch, full, local);
    SyncRunAdopts(cfg, s, peer, replies, Resolve(cfg.rules, local, OnResponses(cfg.limits, FirstRequest(local), replies).blocks));
  }

  // ---------- registering a validator while the node runs ----------

  /** The configuration after `register_validator`. */
  function ConfigWith(cfg: Config, id: string, pem: Option<string>): Config
    requires cfg.rules.Pos?
  {
    cfg.(rules := cfg.rules.(keys :=
      Stake.RegisteredKeys(cfg.rules.env, cfg.rules.keys, cfg.author.nodeId, cfg.author.privateKey, id, pem)))
  }

  /** The state after it: the stake is written into the cache. */
  function Enrolled(s: NodeState, id: string, stake: nat): NodeState {
    s.(book := s.book.(cache := s.book.cache[id := stake]))
  }

  /** No block of `id` in the chain carries another key than the one registered. */
  predicate KeepsKey(keys: map<string, string>, id: string, chain: Chain) {
    forall i :: 0 <= i < |chain| && chain[i].header.validatorId == Some(id) && id in keys ==> chain[i].publicKey == Some(keys[id])
  }

  lemma ValidAfterRegistration(cfg: Config, id: string, pem: Option<string>, chain: Chain)
    requires cfg.rules.Pos? && ValidChain(cfg.rules, chain)
    ensures ValidChain(ConfigWith(cfg, id, pem).rules, chain) <==> KeepsKey(ConfigWith(cfg, id, pem).rules.keys, id, chain)
  {
    var keys := ConfigWith(cfg, id, pem).rules.keys;
    assert cfg.rules.(keys := cfg.rules.keys) == cfg.rules;
    ValidUnderKeys(cfg.rules, cfg.rules.keys, chain);
    ValidUnderKeys(cfg.rules, keys, chain);
    forall i | 0 <= i < |chain|
      ensures KeyKnown(keys, chain[i]) <==>
        (chain[i].header.validatorId == Some(id) && id in keys ==> chain[i].publicKey == Some(keys[id]))
    {
      assert KeyKnown(cfg.rules.keys, chain[i]);
    }
  }

  /** A registration keeps a healthy PoS node healthy if and only if no block of that validator, in
      the chain or in any save, carries another key than the one now registered, and, for a node
      that genesis lists, the stake is what the replay gives the validator anyway. */
  lemma RegistrationExactly(cfg: Config, s: NodeState, id: string, stake: nat, pem: Option<string>)
    requires Sane(cfg) && cfg.rules.Pos? && Healthy(cfg, s)
    ensures var keys := ConfigWith(cfg, id, pem).rules.keys;
      var replay := Replay(s.book.chain, cfg.rules.stakes, cfg.rules.reward);
      Healthy(ConfigWith(cfg, id, pem), Enrolled(s, id, stake)) <==>
        && KeepsKey(keys, id, s.book.chain) && KeepsKey(keys, id, s.saver.disk)
        && (forall k :: 0 <= k < |s.saver.saves| ==> KeepsKey(keys, id, s.saver.saves[k].value))
        && (Listed(cfg.rules.stakes, cfg.author.nodeId) ==> id in replay && replay[id] == stake)
  {
    var after := ConfigWith(cfg, id, pem);
    ValidAfterRegistration(cfg, id, pem, s.book.chain);
    ValidAfterRegistration(cfg, id, pem, s.saver.disk);
    SavesAfterRegistration(cfg, id, pem, s.saver.saves);
    EnrolledCache(s.book.cache, id, stake);
  }

  lemma SavesAfterRegistration(cfg: Config, id: string, pem: Option<string>, saves: seq<Save<Chain>>)
    requires cfg.rules.Pos? && AllValid(cfg.rules, saves)
    ensures AllValid(ConfigWith(cfg, id, pem).rules, saves) <==>
      forall k :: 0 <= k < |saves| ==> KeepsKey(ConfigWith(cfg, id, pem).rules.keys, id, saves[k].value)
  {
    forall k | 0 <= k < |saves|
      ensures ValidChain(ConfigWith(cfg, id, pem).rules, saves[k].value)
         <==> KeepsKey(ConfigWith(cfg, id, pem).rules.keys, id, saves[k].value)
    {
      ValidAfterRegistration(cfg, id, pem, saves[k].value);
    }
  }

  lemma EnrolledCache(cache: Stakes, id: string, stake: nat)
    ensures cache[id := stake] == cache <==> id in cache && cache[id] == stake
  {
    if id in cache && cache[id] == stake {
      assert cache[id := stake] == cache;
    } else {
      assert cache[id := stake][id] == stake;
    }
  }

  /** A validator whose key was not registered before has no block anywhere, so its key harms nothing. */
  lemma FirstKeyIsSafe(cfg: Config, id: string, pem: Option<string>, chain: Chain)
    requires cfg.rules.Pos? && ValidChain(cfg.rules, chain) && id !in cfg.rules.keys
    ensures ValidChain(ConfigWith(cfg, id, pem).rules, chain)
  {
    ValidAfterRegistration(cfg, id, pem, chain);
    assert cfg.rules.(keys := cfg.rules.keys) == cfg.rules;
    ValidUnderKeys(cfg.rules, cfg.rules.keys, chain);
    forall i | 0 <= i < |chain| ensures chain[i].header.validatorId != Some(id) {
      assert KeyKnown(cfg.rules.keys, chain[i]);
    }
  }

  // ---------- what each event changes ----------

  /** Under PoS the validator a block names gets one reward in the cache; nothing else in it changes. */
  ghost predicate Rewarded(r: Rules, before: Stakes, after: Stakes, b: Block) {
    && after.Keys == before.Keys
    && forall v :: v in before ==>
         after[v] == before[v] + (if r.Pos? && v != "" && b.header.validatorId == Some(v) then r.reward else 0)
  }

  /** The chain has grown by `b`, the cache by its reward, saving is scheduled, and sessions are untouched. */
  ghost predicate Takes(r: Rules, s: NodeState, next: NodeState, b: Block) {
    && next.book.chain == s.book.chain + [b] && Rewarded(r, s.book.cache, next.book.cache, b)
    && next.saver == Changed(s.saver, s.book.chain + [b]) && next.sessions == s.sessions
  }

  lemma AppendTakes(r: Rules, s: NodeState, b: Block)
    ensures Takes(r, s, WithBook(s, Append(r, s.book, b)), b)
  {
    assert |s.book.chain + [b]| > |s.book.chain|;
  }

  /** NEW_BLOCK: a block that makes the chain a longer valid one is taken, any other changes nothing. */
  lemma NewBlockExactly(cfg: Config, s: NodeState, b: Block)
    requires !cfg.rules.Legacy? && ValidChain(cfg.rules, s.book.chain)
    ensures ValidChain(cfg.rules, s.book.chain + [b]) ==> Takes(cfg.rules, s, Next(cfg, s, NewBlock(Some(b))), b)
    ensures !ValidChain(cfg.rules, s.book.chain + [b]) ==> Next(cfg, s, NewBlock(Some(b))) == s
    ensures Next(cfg, s, NewBlock(None)) == s
  {
    IncrementalEqualsReplay(cfg.rules, s.book.chain, b);
    AppendTakes(cfg.rules, s, b);
  }

  /** A local block: the one that production gives is taken, and without one nothing changes. */
  lemma LocalBlockExactly(cfg: Config, s: NodeState, body: TransactionBody, now: int)
    requires !cfg.rules.Legacy?
    ensures var made := Produce(cfg.rules, cfg.author, s.book.chain, body, now);
      if made.Success? then Takes(cfg.rules, s, Next(cfg, s, LocalBlock(body, now)), made.value)
      else Next(cfg, s, LocalBlock(body, now)) == s
  {
    var made := Produce(cfg.rules, cfg.author, s.book.chain, body, now);
    if made.Success? {
      AppendTakes(cfg.rules, s, made.value);
    }
  }

  /** The node has resolved its fork with `remote`: a new chain is scheduled for saving, with the cache replayed
      under PoS, and otherwise nothing but `sessions` changes. */
  ghost predicate Resolves(r: Rules, s: NodeState, next: NodeState, remote: Chain, sessions: map<string, Sync>)
    requires !r.Legacy?
  {
    && next.sessions == sessions && next.book.chain == Resolve(r, s.book.chain, remote)
    && (next.book.chain == s.book.chain ==> next.book == s.book && next.saver == s.saver)
    && (next.book.chain != s.book.chain ==>
          && next.saver == Changed(s.saver, next.book.chain)
          && next.book.cache == if r.Pos? then Replay(next.book.chain, r.stakes, r.reward) else s.book.cache)
  }

  /** CHAIN_RESPONSE: with a session open it answers that session alone; without one a list of blocks is
      resolved, and anything else is ignored. */
  lemma ChainResponseExactly(cfg: Config, s: NodeState, peer: string, p: Response)
    requires !cfg.rules.Legacy?
    ensures var next := Next(cfg, s, ChainResponse(peer, p));
      && (peer in s.sessions ==>
            && next.book == s.book && next.saver == s.saver && next.sessions.Keys == s.sessions.Keys
            && next.sessions[peer] == s.sessions[peer].(session := OnResponse(cfg.limits, s.sessions[peer].session, p))
            && (forall other :: other in s.sessions && other != peer ==> next.sessions[other] == s.sessions[other]))
      && (peer !in s.sessions ==>
            && (forall blocks :: p.blocks == Is(Items(blocks)) ==> Resolves(cfg.rules, s, next, blocks, s.sessions))
            && (!(exists blocks :: p.blocks == Is(Items(blocks))) ==> next == s))
  {
    if peer !in s.sessions {
      BlocksOfExactly(p);
    }
  }

  lemma BlocksOfExactly(p: Response)
    ensures BlocksOf(p).Some? ==> p.blocks == Is(Items(BlocksOf(p).value))
    ensures forall blocks :: p.blocks == Is(Items(blocks)) ==> BlocksOf(p) == Some(blocks)
  {
    if BlocksOf(p).Some? {
      assert Items(BlocksOf(p).value) == p.blocks.value;
    }
    forall blocks | p.blocks == Is(Items(blocks)) ensures BlocksOf(p) == Some(blocks) {
      assert BlocksOf(p).Some?;
      assert BlocksOf(p).value == blocks;
    }
  }

  /** The life of a session: opening asks for everything above the tip, once per peer; the end resolves what was
      collected and removes it, a time-out only removes it. */
  lemma SessionExactly(cfg: Config, s: NodeState, peer: string)
    requires !cfg.rules.Legacy?
    ensures var next := Next(cfg, s, OpenSync(peer));
      if peer in s.sessions then next == s
      else
        var tip := if s.book.chain == [] then None else s.book.chain[|s.book.chain| - 1].header.tranHash;
        next == s.(sessions := s.sessions[peer :=
          Sync(Session([], |s.book.chain| + 1, tip, 0, false), |s.book.chain| + 1, tip)])
    ensures var next := Next(cfg, s, FinishSync(peer));
      if peer in s.sessions && s.sessions[peer].session.done
      then Resolves(cfg.rules, s, next, s.sessions[peer].session.blocks, s.sessions - {peer})
      else next == s
    ensures var next := Next(cfg, s, AbortSync(peer));
      && next.book == s.book && next.saver == s.saver && peer !in next.sessions
      && forall other :: other != peer ==>
           (other in next.sessions <==> other in s.sessions) && (other in s.sessions ==> next.sessions[other] == s.sessions[other])
  {
  }

  /** The saving machinery moves on its own. */
  lemma SaverEventExactly(cfg: Config, s: NodeState, i: nat, ok: bool)
    requires !cfg.rules.Legacy?
    ensures Next(cfg, s, Worker(i, ok)) == s.(saver := Resumed(s.saver, i, ok))
    ensures Next(cfg, s, StopStarts(ok)) == s.(saver := StopBegun(s.saver, ok))
    ensures Next(cfg, s, StopCompletes(ok)) == s.(saver := StopEnded(s.saver, ok))
  {
  }

  /** What start-up makes of the stored state: it succeeds exactly if nothing is stored, or the stored genesis value
      is empty or the configured one and the stored chain is valid. The chain is then the stored one, the
      cache the replay, or for an empty chain that of the factory; nothing is open or pending. */
  lemma BootExactly(cfg: Config, stored: Option<Chain>, storedGenesis: string)
    requires !cfg.rules.Legacy?
    ensures var r, chain := cfg.rules, if stored.None? then [] else stored.value;
      var booted := Boot(cfg, stored, storedGenesis);
      && (booted.Success? <==> stored.None? || ((storedGenesis == "" || storedGenesis == r.genesis) && ValidChain(r, chain)))
      && (booted.Success? ==>
            var s := booted.value;
            && s.book.chain == chain && s.sessions == map[]
            && s.saver == Saver(chain, chain, [Save(chain, true)], false, [], None, None)
            && (r.Pos? && chain == [] ==> s.book.cache == InitialCache(r.stakes, cfg.author.nodeId, cfg.minStake))
            && (r.Pos? && chain != [] ==> s.book.cache == Replay(chain, r.stakes, r.reward)))
  {
    if stored.Some? {
      VerifiedIsValid(cfg.rules, stored.value);
    }
  }
}
