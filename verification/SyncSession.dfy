/** Batched chain synchronisation: requests, responses and the session that collects
    them (`_ChainSyncSession`, `_accept_chain_batch`, GET_CHAIN and CHAIN_RESPONSE of node.py). */
module SyncSession {
  import opened Types
  import opened Rules
  import opened ForkChoice
  import opened Ledger

  /** A payload field: missing, of the wrong type, or a value. */
  datatype Field<+T> = Absent | WrongType | Is(value: T)

  /** A list element of a response: not a dict, or a block. */
  datatype Item = NotABlock | Item(block: Block)

  datatype Response = Response(blocks: Field<seq<Item>>, fromHeight: Field<int>, nextHeight: Field<int>, hasMore: Field<bool>)

  /** Sync settings, with the size in bytes of a list of blocks as JSON. */
  datatype Limits = Limits(batch: int, maxBlocks: int, maxBytes: int, bytes: Chain -> nat)

  datatype Session = Session(blocks: Chain, expectedHeight: int, expectedPrev: Option<string>, receivedBytes: nat, done: bool)

  /** A session that asks for everything from `start` on. */
  function NewSession(start: int, prev: Option<string>): Session {
    Session([], start, prev, 0, false)
  }

  /** A session together with the request that opened it: everything from `start` on, after the hash `prev`. */
  datatype Sync = Sync(session: Session, start: int, prev: Option<string>)

  function OpenAt(start: int, prev: Option<string>): Sync {
    Sync(NewSession(start, prev), start, prev)
  }

  // ---------- `_accept_chain_batch` ----------

  /** `has_more`, false when absent. */
  function MoreFlag(p: Response): bool {
    p.hasMore == Is(true)
  }

  /** The checks on the shape and the range of a response. */
  predicate InRange(limits: Limits, s: Session, p: Response) {
    && p.blocks.Is?
    && !p.hasMore.WrongType?
    && p.fromHeight == Is(s.expectedHeight)
    && p.nextHeight == Is(s.expectedHeight + |p.blocks.value|)
    && !(MoreFlag(p) && p.blocks.value == [])
    && |p.blocks.value| <= limits.batch
    && |s.blocks| + |p.blocks.value| <= limits.maxBlocks
  }

  /** One element continues the chain at `index` after the hash `prev`. */
  predicate ItemContinues(item: Item, index: int, prev: Option<string>) {
    && item.Item?
    && item.block.index == Some(Exact(index))
    && item.block.header.tranHash.Some?
    && item.block.header.prevHash.Some?
    && (prev.Some? ==> item.block.header.prevHash == prev)
  }

  /** All elements continue; the result is the blocks, or None. */
  function CheckItems(items: seq<Item>, index: int, prev: Option<string>): (r: Option<Chain>)
    ensures r.Some? ==> |r.value| == |items|
  {
    if items == [] then Some([])
    else if !ItemContinues(items[0], index, prev) then None
    else
      var rest := CheckItems(items[1..], index + 1, items[0].block.header.tranHash);
      if rest.None? then None else Some([items[0].block] + rest.value)
  }

  function LastHash(blocks: Chain, prev: Option<string>): Option<string> {
    if blocks == [] then prev else blocks[|blocks| - 1].header.tranHash
  }

  /** `_accept_chain_batch`: the session with the batch added, or None. */
  function AcceptBatch(limits: Limits, s: Session, p: Response): Option<Session> {
    if !InRange(limits, s, p) then None
    else
      var blocks := CheckItems(p.blocks.value, s.expectedHeight, s.expectedPrev);
      if blocks.None? then None
      else if s.receivedBytes + limits.bytes(blocks.value) > limits.maxBytes then None
      else Some(s.(blocks := s.blocks + blocks.value,
                   expectedHeight := s.expectedHeight + |blocks.value|,
                   expectedPrev := LastHash(blocks.value, s.expectedPrev),
                   receivedBytes := s.receivedBytes + limits.bytes(blocks.value)))
  }

  /** CHAIN_RESPONSE with a session open. */
  function OnResponse(limits: Limits, s: Session, p: Response): Session {
    if s.done then s
    else
      match AcceptBatch(limits, s, p)
      case None => s.(blocks := [], done := true)
      case Some(next) => if MoreFlag(p) then next else next.(done := true)
  }

  function OnResponses(limits: Limits, s: Session, ps: seq<Response>): Session
    decreases |ps|
  {
    if ps == [] then s else OnResponses(limits, OnResponse(limits, s, ps[0]), ps[1..])
  }

  /** The mutable session object shared between the requester and the message handler. */
  class ChainSyncSession {
    var blocks: Chain
    var expectedHeight: int
    var expectedPrevHash: Option<string>
    var receivedBytes: nat
    var done: bool
    ghost const start: int
    ghost const prev: Option<string>

    constructor (start: int, prev: Option<string>)
      ensures Opened() == OpenAt(start, prev)
    {
      this.start := start;
      this.prev := prev;
      blocks := [];
      expectedHeight := start;
      expectedPrevHash := prev;
      receivedBytes := 0;
      done := false;
    }

    function Value(): Session
      reads this
    {
      Session(blocks, expectedHeight, expectedPrevHash, receivedBytes, done)
    }

    ghost function Opened(): Sync
      reads this
    {
      Sync(Value(), start, prev)
    }

    /** The loop over the elements of a batch. */
    method CollectItems(items: seq<Item>) returns (batch: Option<Chain>)
      ensures batch == CheckItems(items, expectedHeight, expectedPrevHash)
    {
      var previous := expectedPrevHash;
      var good: Chain := [];
      var i := 0;
      assert items[0..] == items;
      ghost var whole := CheckItems(items, expectedHeight, expectedPrevHash);
      assert whole.Some? ==> good + whole.value == whole.value;
      while i < |items|
        invariant 0 <= i <= |items| && |good| == i
        invariant previous == LastHash(good, expectedPrevHash)
        invariant CheckItems(items, expectedHeight, expectedPrevHash) ==
          var rest := CheckItems(items[i..], expectedHeight + i, previous);
          if rest.None? then None else Some(good + rest.value)
      {
        assert items[i..][1..] == items[i + 1..];
        if !ItemContinues(items[i], expectedHeight + i, previous) {
          return None;
        }
        var block := items[i].block;
        ghost var tail := CheckItems(items[i + 1..], expectedHeight + i + 1, block.header.tranHash);
        assert tail.Some? ==> good + ([block] + tail.value) == (good + [block]) + tail.value;
        good := good + [block];
        previous := block.header.tranHash;
        i := i + 1;
      }
      assert good + [] == good;
      batch := Some(good);
    }

    /** `_accept_chain_batch`: a refused batch changes nothing. */
    method AcceptChainBatch(limits: Limits, p: Response) returns (ok: bool)
      modifies this
      ensures ok <==> AcceptBatch(limits, old(Value()), p).Some?
      ensures Value() == if ok then AcceptBatch(limits, old(Value()), p).value else old(Value())
    {
      if !InRange(limits, Value(), p) {
        return false;
      }
      var batch := CollectItems(p.blocks.value);
      if batch.None? {
        return false;
      }
      var batchBytes := limits.bytes(batch.value);
      if receivedBytes + batchBytes > limits.maxBytes {
        return false;
      }
      blocks := blocks + batch.value;
      expectedHeight := p.nextHeight.value;
      expectedPrevHash := LastHash(batch.value, expectedPrevHash);
      receivedBytes := receivedBytes + batchBytes;
      ok := true;
    }

    /** The session's part of handling CHAIN_RESPONSE. */
    method Receive(limits: Limits, p: Response)
      modifies this
      ensures Value() == OnResponse(limits, old(Value()), p)
    {
      if done {
        return;
      }
      var ok := AcceptChainBatch(limits, p);
      if !ok {
        blocks := [];
        done := true;
      } else if !MoreFlag(p) {
        done := true;
      }
    }
  }

  // ---------- safety of a session ----------

  /** Blocks numbered from `start`, each naming its predecessor's hash, the first one `prev` if given. */
  ghost predicate Linked(blocks: Chain, start: int, prev: Option<string>) {
    forall i {:trigger LinkedAt(blocks, start, prev, i)} :: 0 <= i < |blocks| ==> LinkedAt(blocks, start, prev, i)
  }

  predicate LinkedAt(blocks: Chain, start: int, prev: Option<string>, i: nat)
    requires i < |blocks|
  {
    && blocks[i].index == Some(Exact(start + i))
    && blocks[i].header.tranHash.Some? && blocks[i].header.prevHash.Some?
    && (i == 0 ==> prev.Some? ==> blocks[i].header.prevHash == prev)
    && (i > 0 ==> blocks[i].header.prevHash == blocks[i - 1].header.tranHash)
  }

  /** What holds of a session for the request (start, prev), whatever has arrived. */
  ghost predicate SessionSafe(limits: Limits, s: Session, start: int, prev: Option<string>) {
    && Linked(s.blocks, start, prev)
    && (s.blocks != [] ==> |s.blocks| <= limits.maxBlocks)
    && (s.receivedBytes > 0 ==> s.receivedBytes <= limits.maxBytes)
    && ((s.done && s.blocks == []) ||
        (s.expectedHeight == start + |s.blocks| && s.expectedPrev == LastHash(s.blocks, prev)))
  }

  lemma {:induction false} CheckedItemsLinked(items: seq<Item>, index: int, prev: Option<string>)
    requires CheckItems(items, index, prev).Some?
    ensures Linked(CheckItems(items, index, prev).value, index, prev)
    decreases |items|
  {
    if items != [] {
      CheckedItemsLinked(items[1..], index + 1, items[0].block.header.tranHash);
      var blocks, rest := CheckItems(items, index, prev).value, CheckItems(items[1..], index + 1, items[0].block.header.tranHash).value;
      forall i | 1 <= i < |blocks| ensures LinkedAt(blocks, index, prev, i) {
        assert LinkedAt(rest, index + 1, items[0].block.header.tranHash, i - 1);
        assert blocks[i] == rest[i - 1];
        assert i > 1 ==> blocks[i - 1] == rest[i - 2];
      }
    }
  }

  lemma LinkedConcat(a: Chain, b: Chain, start: int, prev: Option<string>)
    requires Linked(a, start, prev) && Linked(b, start + |a|, LastHash(a, prev))
    ensures Linked(a + b, start, prev)
  {
    var c := a + b;
    forall i | 0 <= i < |c| ensures LinkedAt(c, start, prev, i) {
      if i < |a| {
        assert LinkedAt(a, start, prev, i);
      } else {
        assert LinkedAt(b, start + |a|, LastHash(a, prev), i - |a|);
        assert a != [] ==> LinkedAt(a, start, prev, |a| - 1);
      }
    }
  }

  lemma ResponseKeepsSafe(limits: Limits, s: Session, p: Response, start: int, prev: Option<string>)
    requires SessionSafe(limits, s, start, prev)
    ensures SessionSafe(limits, OnResponse(limits, s, p), start, prev)
  {
    if !s.done && AcceptBatch(limits, s, p).Some? {
      var batch := CheckItems(p.blocks.value, s.expectedHeight, s.expectedPrev).value;
      CheckedItemsLinked(p.blocks.value, s.expectedHeight, s.expectedPrev);
      LinkedConcat(s.blocks, batch, start, prev);
    }
  }

  /** Against any sequence of responses the collected blocks are consecutive and
      hash-linked from the requested point and within the limits. */
  lemma {:induction false} SessionStaysSafe(limits: Limits, s: Session, ps: seq<Response>, start: int, prev: Option<string>)
    requires SessionSafe(limits, s, start, prev)
    ensures SessionSafe(limits, OnResponses(limits, s, ps), start, prev)
    decreases |ps|
  {
    if ps != [] {
      ResponseKeepsSafe(limits, s, ps[0], start, prev);
      SessionStaysSafe(limits, OnResponse(limits, s, ps[0]), ps[1..], start, prev);
    }
  }

  lemma {:induction false} DoneIsFinal(limits: Limits, s: Session, ps: seq<Response>)
    requires s.done
    ensures OnResponses(limits, s, ps) == s
    decreases |ps|
  {
    if ps != [] {
      DoneIsFinal(limits, s, ps[1..]);
    }
  }

  lemma {:induction false} CheckedItemsAreBlocks(items: seq<Item>, index: int, prev: Option<string>)
    requires CheckItems(items, index, prev).Some?
    ensures items == Items(CheckItems(items, index, prev).value)
    decreases |items|
  {
    if items != [] {
      CheckedItemsAreBlocks(items[1..], index + 1, items[0].block.header.tranHash);
      assert items == [items[0]] + items[1..];
    }
  }

  /** The response says exactly what was asked for, counts its blocks right and carries a linked
      continuation within the limits; only a response with blocks may announce more. */
  ghost predicate Continues(limits: Limits, s: Session, p: Response, batch: Chain) {
    && p.blocks == Is(Items(batch))
    && p.fromHeight == Is(s.expectedHeight) && p.nextHeight == Is(s.expectedHeight + |batch|)
    && (p.hasMore == Absent || p.hasMore == Is(false) || (p.hasMore == Is(true) && batch != []))
    && Linked(batch, s.expectedHeight, s.expectedPrev)
    && |batch| <= limits.batch && |s.blocks| + |batch| <= limits.maxBlocks
    && s.receivedBytes + limits.bytes(batch) <= limits.maxBytes
  }

  /** The session after a batch: the blocks added, the next height and hash expected. */
  function Extended(limits: Limits, s: Session, batch: Chain): Session {
    Session(s.blocks + batch, s.expectedHeight + |batch|,
            if batch == [] then s.expectedPrev else batch[|batch| - 1].header.tranHash,
            s.receivedBytes + limits.bytes(batch), s.done)
  }

  lemma MoreIsOneOf(p: Response)
    ensures p.hasMore == Absent || p.hasMore == WrongType || p.hasMore == Is(true) || p.hasMore == Is(false)
  {
    if p.hasMore.Is? {
      if p.hasMore.value { assert p.hasMore == Is(true); } else { assert p.hasMore == Is(false); }
    }
  }

  /** A batch is accepted exactly when it answers the request and continues the session,
      and then exactly its blocks are added, never more than a batch. */
  lemma BatchAcceptedExactly(limits: Limits, s: Session, p: Response)
    ensures AcceptBatch(limits, s, p).Some? <==> exists batch :: Continues(limits, s, p, batch)
    ensures forall batch :: Continues(limits, s, p, batch) ==> AcceptBatch(limits, s, p) == Some(Extended(limits, s, batch))
  {
    if InRange(limits, s, p) {
      var checked := CheckItems(p.blocks.value, s.expectedHeight, s.expectedPrev);
      if checked.Some? {
        CheckedItemsLinked(p.blocks.value, s.expectedHeight, s.expectedPrev);
        CheckedItemsAreBlocks(p.blocks.value, s.expectedHeight, s.expectedPrev);
        if AcceptBatch(limits, s, p).Some? {
          assert |checked.value| == |p.blocks.value|;
          MoreIsOneOf(p);
          assert Continues(limits, s, p, checked.value);
        }
      }
      forall batch | Continues(limits, s, p, batch) ensures checked == Some(batch) {
        LinkedItemsPass(batch, s.expectedHeight, s.expectedPrev);
      }
    }
  }

  /** What a response does to a session: nothing once it is done; a batch that continues it is added and
      ends it unless more is announced; anything else empties and ends it. */
  lemma ResponseExactly(limits: Limits, s: Session, p: Response)
    ensures s.done ==> OnResponse(limits, s, p) == s
    ensures forall batch :: !s.done && Continues(limits, s, p, batch) ==>
      OnResponse(limits, s, p) == Extended(limits, s, batch).(done := p.hasMore != Is(true))
    ensures !s.done && !(exists batch :: Continues(limits, s, p, batch)) ==>
      OnResponse(limits, s, p) == s.(blocks := [], done := true)
  {
    BatchAcceptedExactly(limits, s, p);
  }

  /** One refused batch empties the session and ends it for good. */
  lemma BadBatchEnds(limits: Limits, s: Session, bad: Response, later: seq<Response>)
    requires !s.done && AcceptBatch(limits, s, bad).None?
    ensures var end := OnResponses(limits, s, [bad] + later);
      end.done && end.blocks == [] && end == OnResponse(limits, s, bad)
  {
    assert ([bad] + later)[1..] == later;
    DoneIsFinal(limits, OnResponse(limits, s, bad), later);
  }

  // ---------- serving GET_CHAIN ----------

  /** A number from a payload: absent, not convertible by `int()`, or an integer. */
  datatype Raw = Missing | NotInt | Num(n: int)

  /** `_resolve_get_chain_batch_size`. */
  function BatchSize(limit: Raw, maxBatch: int): (size: int)
    ensures 1 <= size && (maxBatch >= 1 ==> size <= maxBatch)
    ensures limit.Num? && 1 <= limit.n <= maxBatch ==> size == limit.n
    ensures limit.Num? && limit.n < 1 ==> size == 1
    ensures maxBatch >= 1 && (limit.Num? ==> limit.n > maxBatch) ==> size == maxBatch
  {
    var requested := if limit.Num? then limit.n else maxBatch;
    var capped := if requested <= maxBatch then requested else maxBatch;
    if capped >= 1 then capped else 1
  }

  /** `_resolve_get_chain_from_height`. */
  function FromHeight(raw: Raw): (height: int)
    ensures height >= 1
    ensures raw.Num? && raw.n >= 1 ==> height == raw.n
    ensures (raw.Num? ==> raw.n < 1) ==> height == 1
  {
    if raw.Num? && raw.n >= 1 then raw.n else 1
  }

  function Items(blocks: Chain): (items: seq<Item>)
    ensures |items| == |blocks| && forall i :: 0 <= i < |items| ==> items[i] == Item(blocks[i])
  {
    seq(|blocks|, i requires 0 <= i < |blocks| => Item(blocks[i]))
  }

  /** The answer to GET_CHAIN. */
  function Serve(chain: Chain, maxBatch: int, from: Raw, limit: Raw): Response {
    var height := FromHeight(from);
    var size := BatchSize(limit, maxBatch);
    AnswerWith(BlocksFrom(chain, height, Some(size)), height, size, |chain|)
  }

  /** The response that carries `blocks`. */
  function AnswerWith(blocks: Chain, height: int, size: nat, total: nat): Response {
    var next := height + |blocks|;
    Response(Is(Items(blocks)), Is(height), Is(next), Is(|blocks| == size && next <= total))
  }

  /** The answer to GET_CHAIN: the blocks from the requested height on, as many as asked for and there are,
      and `has_more` exactly when the chain goes on behind them. */
  lemma ServeExactly(chain: Chain, maxBatch: int, from: Raw, limit: Raw)
    ensures var p, h, n := Serve(chain, maxBatch, from, limit), FromHeight(from), BatchSize(limit, maxBatch);
      && p.blocks.Is? && p.fromHeight == Is(h)
      && var count := |p.blocks.value|;
      && count == (if h > |chain| then 0 else if |chain| - (h - 1) <= n then |chain| - (h - 1) else n)
      && (forall i :: 0 <= i < count ==> p.blocks.value[i] == Item(chain[h - 1 + i]))
      && p.nextHeight == Is(h + count) && p.hasMore == Is(h + count <= |chain|)
  {
  }

  // ---------- synchronising with an honest peer ----------

  lemma {:induction false} LinkedItemsPass(blocks: Chain, index: int, prev: Option<string>)
    requires Linked(blocks, index, prev)
    ensures CheckItems(Items(blocks), index, prev) == Some(blocks)
    decreases |blocks|
  {
    if blocks != [] {
      var items := Items(blocks);
      assert items[1..] == Items(blocks[1..]);
      assert LinkedAt(blocks, index, prev, 0);
      var tail, next, hash := blocks[1..], index + 1, blocks[0].header.tranHash;
      forall i | 0 <= i < |tail| ensures LinkedAt(tail, next, hash, i) {
        assert LinkedAt(blocks, index, prev, i + 1);
      }
      LinkedItemsPass(blocks[1..], index + 1, blocks[0].header.tranHash);
      assert blocks == [blocks[0]] + blocks[1..];
    }
  }

  /** Block `i` names its parent and is numbered by value. */
  predicate ChainedAt(chain: Chain, i: nat)
    requires i < |chain|
  {
    && IndexIs(chain[i], i + 1)
    && chain[i].header.tranHash.Some? && chain[i].header.prevHash.Some?
    && (i > 0 ==> chain[i].header.prevHash == chain[i - 1].header.tranHash)
  }

  ghost predicate Chained(chain: Chain) {
    forall i {:trigger ChainedAt(chain, i)} :: 0 <= i < |chain| ==> ChainedAt(chain, i)
  }

  lemma ValidChained(r: Rules, chain: Chain)
    requires ValidChain(r, chain)
    ensures Chained(chain)
  {
    forall i | 0 <= i < |chain| ensures ChainedAt(chain, i) {
      ValidLinks(r, chain, i);
    }
  }

  /** The index of block `i` is an int, not merely equal to one. */
  predicate ExactAt(chain: Chain, i: nat)
    requires i < |chain|
  {
    chain[i].index.Some? && chain[i].index.value.Exact?
  }

  /** All blocks lo .. hi-1 have an int as index. */
  ghost predicate ExactIn(chain: Chain, lo: nat, hi: nat)
    requires hi <= |chain|
  {
    forall i {:trigger ExactAt(chain, i)} :: lo <= i < hi ==> ExactAt(chain, i)
  }

  /** The hash before position `lo`. */
  function HashBefore(chain: Chain, lo: nat): Option<string>
    requires lo <= |chain|
  {
    if lo == 0 then None else chain[lo - 1].header.tranHash
  }

  lemma StretchLinked(chain: Chain, lo: nat, hi: nat)
    requires Chained(chain) && lo <= hi <= |chain| && ExactIn(chain, lo, hi)
    ensures Linked(chain[lo..hi], lo + 1, HashBefore(chain, lo))
    ensures LastHash(chain[lo..hi], HashBefore(chain, lo)) == HashBefore(chain, hi)
  {
    var part := chain[lo..hi];
    var start, before := lo + 1, HashBefore(chain, lo);
    forall i | 0 <= i < |part| ensures LinkedAt(part, start, before, i) {
      assert ChainedAt(chain, lo + i) && ExactAt(chain, lo + i);
    }
  }

  /** A batch with an index that is not an int is refused. */
  lemma {:induction false} LooseItemsFail(blocks: Chain, index: int, prev: Option<string>, k: nat)
    requires k < |blocks| && !ExactAt(blocks, k)
    ensures CheckItems(Items(blocks), index, prev).None?
    decreases |blocks|
  {
    var items := Items(blocks);
    assert items[1..] == Items(blocks[1..]);
    if k > 0 {
      assert blocks[1..][k - 1] == blocks[k];
      LooseItemsFail(blocks[1..], index + 1, blocks[0].header.tranHash, k - 1);
    }
  }

  /** Bytes of `missing` when it travels in batches of `size`. */
  function BatchedBytes(limits: Limits, size: nat, missing: Chain): nat
    requires size >= 1
    decreases |missing|
  {
    if |missing| <= size then limits.bytes(missing)
    else limits.bytes(missing[..size]) + BatchedBytes(limits, size, missing[size..])
  }

  /** The peer's chain full holds the local chain as its first h blocks, and the rest fits the limits. */
  ghost predicate Fits(limits: Limits, peerBatch: int, full: Chain, h: nat)
    requires h <= |full|
  {
    && limits.batch >= 1
    && |full| - h <= limits.maxBlocks
    && BatchedBytes(limits, BatchSize(Num(limits.batch), peerBatch), full[h..]) <= limits.maxBytes
  }

  /** The session holds the blocks h .. e-1 of full and there is room for the rest. */
  ghost predicate OnTrack(limits: Limits, peerBatch: int, full: Chain, h: nat, s: Session) {
    && h < s.expectedHeight <= |full| + 1
    && limits.batch >= 1 && peerBatch >= 1 && Chained(full) && |full| - h <= limits.maxBlocks
    && !s.done
    && s.blocks == full[h..s.expectedHeight - 1]
    && s.expectedPrev == HashBefore(full, s.expectedHeight - 1)
    && s.receivedBytes + BatchedBytes(limits, BatchSize(Num(limits.batch), peerBatch), full[s.expectedHeight - 1..]) <= limits.maxBytes
  }

  /** Position in full after the next batch. */
  function BatchEnd(size: nat, full: Chain, lo: nat): nat {
    if lo + size < |full| then lo + size else |full|
  }

  /** A linked batch within the limits is accepted. */
  lemma GoodBatchAccepted(limits: Limits, s: Session, batch: Chain, more: bool)
    requires Linked(batch, s.expectedHeight, s.expectedPrev)
    requires |batch| <= limits.batch && |s.blocks| + |batch| <= limits.maxBlocks
    requires more ==> batch != []
    requires s.receivedBytes + limits.bytes(batch) <= limits.maxBytes
    ensures AcceptBatch(limits, s, Response(Is(Items(batch)), Is(s.expectedHeight), Is(s.expectedHeight + |batch|), Is(more)))
      == Some(Session(s.blocks + batch, s.expectedHeight + |batch|, LastHash(batch, s.expectedPrev),
                      s.receivedBytes + limits.bytes(batch), s.done))
  {
    LinkedItemsPass(batch, s.expectedHeight, s.expectedPrev);
  }

  lemma BatchedBytesHead(limits: Limits, size: nat, full: Chain, lo: nat)
    requires size >= 1 && lo <= |full|
    ensures var hi := BatchEnd(size, full, lo);
      BatchedBytes(limits, size, full[lo..]) ==
        limits.bytes(full[lo..hi]) + (if hi < |full| then BatchedBytes(limits, size, full[hi..]) else 0)
  {
    var hi := BatchEnd(size, full, lo);
    if hi < |full| {
      assert full[lo..][..size] == full[lo..hi] && full[lo..][size..] == full[hi..];
    } else {
      assert full[lo..] == full[lo..hi];
    }
  }

  /** What the session becomes when it takes a good batch. */
  lemma GoodBatchEffect(limits: Limits, s: Session, batch: Chain, more: bool, p: Response)
    requires !s.done && Linked(batch, s.expectedHeight, s.expectedPrev)
    requires |batch| <= limits.batch && |s.blocks| + |batch| <= limits.maxBlocks
    requires more ==> batch != []
    requires s.receivedBytes + limits.bytes(batch) <= limits.maxBytes
    requires p == Response(Is(Items(batch)), Is(s.expectedHeight), Is(s.expectedHeight + |batch|), Is(more))
    ensures OnResponse(limits, s, p)
      == Session(s.blocks + batch, s.expectedHeight + |batch|, LastHash(batch, s.expectedPrev),
                 s.receivedBytes + limits.bytes(batch), !more)
  {
    GoodBatchAccepted(limits, s, batch, more);
  }

  /** The answer of an honest peer to a session's request. */
  function HonestReply(limits: Limits, peerBatch: int, full: Chain, s: Session): Response {
    Serve(full, peerBatch, Num(s.expectedHeight), Num(limits.batch))
  }

  /** The response with blocks lo .. hi-1 of full; it announces more exactly when full goes on. */
  function StretchReply(full: Chain, lo: nat, hi: nat): Response
    requires lo <= hi <= |full|
  {
    Response(Is(Items(full[lo..hi])), Is(lo + 1), Is(hi + 1), Is(hi < |full|))
  }

  /** The honest answer carries the next blocks of full. */
  lemma HonestAnswer(limits: Limits, peerBatch: int, full: Chain, s: Session, hi: nat)
    requires 1 <= s.expectedHeight <= |full| + 1
    requires hi == BatchEnd(BatchSize(Num(limits.batch), peerBatch), full, s.expectedHeight - 1)
    ensures HonestReply(limits, peerBatch, full, s) == StretchReply(full, s.expectedHeight - 1, hi)
  {
    var size := BatchSize(Num(limits.batch), peerBatch);
    assert FromHeight(Num(s.expectedHeight)) == s.expectedHeight;
    assert BlocksFrom(full, s.expectedHeight, Some(size)) == full[s.expectedHeight - 1..hi];
  }

  /** A session on track has room for the next batch. */
  lemma RoomForBatch(limits: Limits, peerBatch: int, full: Chain, h: nat, s: Session, hi: nat)
    requires OnTrack(limits, peerBatch, full, h, s)
    requires hi == BatchEnd(BatchSize(Num(limits.batch), peerBatch), full, s.expectedHeight - 1)
    ensures var lo := s.expectedHeight - 1;
      && hi - lo <= limits.batch && (hi - h) <= limits.maxBlocks
      && s.receivedBytes + limits.bytes(full[lo..hi]) <= limits.maxBytes
      && (hi == |full| || (hi > lo && s.receivedBytes + limits.bytes(full[lo..hi])
           + BatchedBytes(limits, BatchSize(Num(limits.batch), peerBatch), full[hi..]) <= limits.maxBytes))
  {
    BatchedBytesHead(limits, BatchSize(Num(limits.batch), peerBatch), full, s.expectedHeight - 1);
  }

  /** A session that holds h .. lo-1 of a linked chain takes lo .. hi-1. */
  lemma TakesStretch(limits: Limits, s: Session, full: Chain, h: nat, lo: nat, hi: nat)
    requires Chained(full) && h <= lo <= hi <= |full| && ExactIn(full, lo, hi) && !s.done
    requires s.expectedHeight == lo + 1 && s.blocks == full[h..lo] && s.expectedPrev == HashBefore(full, lo)
    requires hi - lo <= limits.batch && hi - h <= limits.maxBlocks && (hi < |full| ==> lo < hi)
    requires s.receivedBytes + limits.bytes(full[lo..hi]) <= limits.maxBytes
    ensures OnResponse(limits, s, StretchReply(full, lo, hi)) ==
      Session(full[h..hi], hi + 1, HashBefore(full, hi), s.receivedBytes + limits.bytes(full[lo..hi]), hi == |full|)
  {
    StretchLinked(full, lo, hi);
    GoodBatchEffect(limits, s, full[lo..hi], hi < |full|, StretchReply(full, lo, hi));
    assert full[h..lo] + full[lo..hi] == full[h..hi];
  }

  lemma LooseStretchRefused(limits: Limits, s: Session, full: Chain, lo: nat, hi: nat)
    requires lo <= hi <= |full| && !ExactIn(full, lo, hi) && !s.done
    ensures OnResponse(limits, s, StretchReply(full, lo, hi)) == s.(blocks := [], done := true)
  {
    var i: nat :| lo <= i < hi && !ExactAt(full, i);
    assert full[lo..hi][i - lo] == full[i];
    LooseItemsFail(full[lo..hi], s.expectedHeight, s.expectedPrev, i - lo);
  }

  lemma TrackTakesStretch(limits: Limits, peerBatch: int, full: Chain, h: nat, s: Session, lo: nat, hi: nat, p: Response)
    requires OnTrack(limits, peerBatch, full, h, s) && lo == s.expectedHeight - 1
    requires hi == BatchEnd(BatchSize(Num(limits.batch), peerBatch), full, lo) && ExactIn(full, lo, hi)
    requires p == StretchReply(full, lo, hi)
    ensures OnResponse(limits, s, p) ==
      Session(full[h..hi], hi + 1, HashBefore(full, hi), s.receivedBytes + limits.bytes(full[lo..hi]), hi == |full|)
  {
    RoomForBatch(limits, peerBatch, full, h, s, hi);
    TakesStretch(limits, s, full, h, lo, hi);
  }

  /** The honest reply is taken when its indices are ints. */
  lemma HonestReplyTaken(limits: Limits, peerBatch: int, full: Chain, h: nat, s: Session, hi: nat)
    requires OnTrack(limits, peerBatch, full, h, s)
    requires hi == BatchEnd(BatchSize(Num(limits.batch), peerBatch), full, s.expectedHeight - 1)
    requires ExactIn(full, s.expectedHeight - 1, hi)
    ensures OnResponse(limits, s, HonestReply(limits, peerBatch, full, s)) ==
      Session(full[h..hi], hi + 1, HashBefore(full, hi), s.receivedBytes + limits.bytes(full[s.expectedHeight - 1..hi]), hi == |full|)
  {
    HonestAnswer(limits, peerBatch, full, s, hi);
    TrackTakesStretch(limits, peerBatch, full, h, s, s.expectedHeight - 1, hi, HonestReply(limits, peerBatch, full, s));
  }

  /** Otherwise the session ends empty. */
  lemma HonestReplyRefused(limits: Limits, peerBatch: int, full: Chain, h: nat, s: Session, hi: nat)
    requires OnTrack(limits, peerBatch, full, h, s)
    requires hi == BatchEnd(BatchSize(Num(limits.batch), peerBatch), full, s.expectedHeight - 1)
    requires !ExactIn(full, s.expectedHeight - 1, hi)
    ensures OnResponse(limits, s, HonestReply(limits, peerBatch, full, s)) == s.(blocks := [], done := true)
  {
    var lo := s.expectedHeight - 1;
    HonestAnswer(limits, peerBatch, full, s, hi);
    LooseStretchRefused(limits, s, full, lo, hi);
  }

  /** A stretch taken keeps the session on track or completes it. */
  lemma TrackAfterStretch(limits: Limits, peerBatch: int, full: Chain, h: nat, s: Session, hi: nat, next: Session)
    requires OnTrack(limits, peerBatch, full, h, s)
    requires hi == BatchEnd(BatchSize(Num(limits.batch), peerBatch), full, s.expectedHeight - 1)
    requires next == Session(full[h..hi], hi + 1, HashBefore(full, hi),
                             s.receivedBytes + limits.bytes(full[s.expectedHeight - 1..hi]), hi == |full|)
    ensures if hi == |full| then next.done && next.blocks == full[h..]
            else OnTrack(limits, peerBatch, full, h, next) && next.expectedHeight == hi + 1 > s.expectedHeight
  {
    RoomForBatch(limits, peerBatch, full, h, s, hi);
    if hi == |full| {
      assert full[h..hi] == full[h..];
    }
  }

  /** One round with an honest peer: either an index is no int and the session ends empty, or
      the next blocks are taken and the exchange goes on exactly when blocks are still missing. */
  lemma HonestRound(limits: Limits, peerBatch: int, full: Chain, h: nat, s: Session)
    requires OnTrack(limits, peerBatch, full, h, s)
    ensures var next := OnResponse(limits, s, HonestReply(limits, peerBatch, full, s));
      var hi := BatchEnd(BatchSize(Num(limits.batch), peerBatch), full, s.expectedHeight - 1);
      if !ExactIn(full, s.expectedHeight - 1, hi) then next.done && next.blocks == []
      else if hi == |full| then next.done && next.blocks == full[h..]
      else OnTrack(limits, peerBatch, full, h, next) && next.expectedHeight == hi + 1 > s.expectedHeight
  {
    var hi := BatchEnd(BatchSize(Num(limits.batch), peerBatch), full, s.expectedHeight - 1);
    if ExactIn(full, s.expectedHeight - 1, hi) {
      HonestReplyTaken(limits, peerBatch, full, h, s, hi);
      TrackAfterStretch(limits, peerBatch, full, h, s, hi, OnResponse(limits, s, HonestReply(limits, peerBatch, full, s)));
    } else {
      HonestReplyRefused(limits, peerBatch, full, h, s, hi);
    }
  }

  /** The replies of the whole exchange, in order; heights remaining decrease every round. */
  ghost function HonestReplies(limits: Limits, peerBatch: int, full: Chain, h: nat, s: Session): (ps: seq<Response>)
    requires OnTrack(limits, peerBatch, full, h, s)
    decreases |full| + 1 - s.expectedHeight
  {
    HonestRound(limits, peerBatch, full, h, s);
    var p := HonestReply(limits, peerBatch, full, s);
    var next := OnResponse(limits, s, p);
    [p] + (if next.done then [] else HonestReplies(limits, peerBatch, full, h, next))
  }

  /** The exchange ends, with exactly the missing blocks if all their indices are ints and
      with nothing if one is not. */
  lemma {:induction false} HonestSync(limits: Limits, peerBatch: int, full: Chain, h: nat, s: Session)
    requires OnTrack(limits, peerBatch, full, h, s)
    ensures var end := OnResponses(limits, s, HonestReplies(limits, peerBatch, full, h, s));
      end.done && end.blocks == if ExactIn(full, s.expectedHeight - 1, |full|) then full[h..] else []
    decreases |full| + 1 - s.expectedHeight
  {
    HonestRound(limits, peerBatch, full, h, s);
    var p := HonestReply(limits, peerBatch, full, s);
    var next := OnResponse(limits, s, p);
    var lo, hi := s.expectedHeight - 1, BatchEnd(BatchSize(Num(limits.batch), peerBatch), full, s.expectedHeight - 1);
    var rest := if next.done then [] else HonestReplies(limits, peerBatch, full, h, next);
    assert ([p] + rest)[1..] == rest;
    assert OnResponses(limits, s, [p] + rest) == OnResponses(limits, next, rest);
    if !next.done {
      HonestSync(limits, peerBatch, full, h, next);
      ExactSplit(full, lo, hi);
    } else if !ExactIn(full, lo, hi) {
      ExactSplit(full, lo, hi);
    }
  }

  lemma ExactSplit(full: Chain, lo: nat, hi: nat)
    requires lo <= hi <= |full|
    ensures ExactIn(full, lo, |full|) <==> ExactIn(full, lo, hi) && ExactIn(full, hi, |full|)
  {
    if ExactIn(full, lo, |full|) {
      forall i | lo <= i < hi ensures ExactAt(full, i) {
      }
    }
  }

  lemma PrefixScoreStep(r: Rules, full: Chain, h: nat)
    requires !r.Legacy? && ValidChain(r, full) && h < |full|
    ensures ScoreLt(ScoreOf(r, full[..h]), ScoreOf(r, full[..h + 1]))
  {
    assert full[..h + 1] == full[..h] + [full[h]];
    AppendRaisesScore(r, full[..h], full[h]);
  }

  lemma {:induction false} PrefixScoresLower(r: Rules, full: Chain, h: nat, k: nat)
    requires !r.Legacy? && ValidChain(r, full) && h < k <= |full|
    ensures ScoreLt(ScoreOf(r, full[..h]), ScoreOf(r, full[..k]))
    decreases k - h
  {
    PrefixScoreStep(r, full, h);
    if h + 1 < k {
      PrefixScoresLower(r, full, h + 1, k);
      ScoreTransitive(ScoreOf(r, full[..h]), ScoreOf(r, full[..h + 1]), ScoreOf(r, full[..k]));
    }
  }

  lemma SuffixJoins(r: Rules, full: Chain, h: nat)
    requires ValidChain(r, full) && 0 < h < |full|
    ensures JoinSuffix(full[..h], full[h..]) == Some(full)
  {
    ValidLinks(r, full, h);
    assert full[..h][|full[..h]| - 1] == full[h - 1];
    assert full[..h] + full[h..] == full;
  }

  /** Resolving the missing suffix of a valid chain yields that chain. */
  lemma SuffixResolves(r: Rules, full: Chain, h: nat)
    requires !r.Legacy? && ValidChain(r, full) && h <= |full|
    ensures Resolve(r, full[..h], full[h..]) == full
  {
    if h == |full| {
      assert full[..h] == full;
    } else {
      PrefixValid(r, full, h);
      PrefixScoresLower(r, full, h, |full|);
      assert full[..|full|] == full;
      if h > 0 {
        SuffixJoins(r, full, h);
      } else {
        assert full[h..] == full;
      }
      ResolveIs(r, full[..h], full[h..]);
    }
  }

  lemma NothingResolves(r: Rules, local: Chain)
    requires !r.Legacy?
    ensures Resolve(r, local, []) == local
  {
  }

  /** Honest sync terminates and is exact: a node whose chain is the first h blocks of a peer's
      fixed valid chain collects exactly the rest and then holds that chain, if and only if the
      index of every missing block is an int; otherwise it collects nothing and keeps its chain. */
  lemma HonestSyncExact(r: Rules, limits: Limits, peerBatch: int, full: Chain, h: nat)
    requires !r.Legacy? && ValidChain(r, full) && h <= |full| && peerBatch >= 1 && Fits(limits, peerBatch, full, h)
    ensures var s := NewSession(h + 1, LastHash(full[..h], None));
      && OnTrack(limits, peerBatch, full, h, s)
      && var end := OnResponses(limits, s, HonestReplies(limits, peerBatch, full, h, s));
      && end.done
      && (if ExactIn(full, h, |full|) then end.blocks == full[h..] && Resolve(r, full[..h], end.blocks) == full
          else end.blocks == [] && Resolve(r, full[..h], end.blocks) == full[..h])
  {
    var s := NewSession(h + 1, LastHash(full[..h], None));
    assert full[h..h] == [];
    ValidChained(r, full);
    assert OnTrack(limits, peerBatch, full, h, s);
    HonestSync(limits, peerBatch, full, h, s);
    SuffixResolves(r, full, h);
    NothingResolves(r, full[..h]);
  }

  // ---------- an honest peer with any other chain ----------

  /** The peer's next block names the local tip; an empty chain is joined by anything. */
  predicate Joins(local: Chain, full: Chain) {
    |local| < |full| && (local == [] || full[|local|].header.prevHash == local[|local| - 1].header.tranHash)
  }

  /** The session a node with the chain `local` opens. */
  function SessionFor(local: Chain): Session {
    NewSession(|local| + 1, LastHash(local, None))
  }

  /** All replies of the peer until the session is done. */
  ghost function HonestExchange(limits: Limits, peerBatch: int, full: Chain, local: Chain): seq<Response> {
    if OnTrack(limits, peerBatch, full, |local|, SessionFor(local)) then HonestReplies(limits, peerBatch, full, |local|, SessionFor(local))
    else [HonestReply(limits, peerBatch, full, SessionFor(local))]
  }

  lemma JoinedOnTrack(r: Rules, limits: Limits, peerBatch: int, full: Chain, local: Chain)
    requires ValidChain(r, full) && Joins(local, full) && peerBatch >= 1 && Fits(limits, peerBatch, full, |local|)
    ensures OnTrack(limits, peerBatch, full, |local|, SessionFor(local))
  {
    var h := |local|;
    assert full[h..h] == [];
    ValidChained(r, full);
    ValidLinks(r, full, h);
  }

  lemma OnTrackJoins(r: Rules, limits: Limits, peerBatch: int, full: Chain, local: Chain)
    requires ValidChain(r, full) && |local| < |full| && OnTrack(limits, peerBatch, full, |local|, SessionFor(local))
    ensures Joins(local, full)
  {
    ValidLinks(r, full, |local|);
  }

  /** A peer with no more blocks than the node ends the session at once. */
  lemma ShorterPeerEnds(limits: Limits, peerBatch: int, full: Chain, local: Chain)
    requires |full| <= |local|
    ensures var end := OnResponse(limits, SessionFor(local), HonestReply(limits, peerBatch, full, SessionFor(local)));
      end.done && end.blocks == []
  {
    var s := SessionFor(local);
    assert BlocksFrom(full, s.expectedHeight, Some(BatchSize(Num(limits.batch), peerBatch))) == [];
  }

  /** So does a next block that does not name the local tip. */
  lemma ForeignStretchRefused(limits: Limits, s: Session, full: Chain, lo: nat, hi: nat)
    requires lo < hi <= |full| && !s.done && s.expectedPrev.Some? && full[lo].header.prevHash != s.expectedPrev
    ensures OnResponse(limits, s, StretchReply(full, lo, hi)) == s.(blocks := [], done := true)
  {
    assert Items(full[lo..hi])[0] == Item(full[lo]);
  }

  lemma ForeignPeerEnds(r: Rules, limits: Limits, peerBatch: int, full: Chain, local: Chain)
    requires ValidChain(r, local) && |local| < |full| && !Joins(local, full)
    ensures var end := OnResponse(limits, SessionFor(local), HonestReply(limits, peerBatch, full, SessionFor(local)));
      end.done && end.blocks == []
  {
    var s, h := SessionFor(local), |local|;
    var hi := BatchEnd(BatchSize(Num(limits.batch), peerBatch), full, h);
    ValidLinks(r, local, h - 1);
    HonestAnswer(limits, peerBatch, full, s, hi);
    ForeignStretchRefused(limits, s, full, h, hi);
  }

  /** What a session with an honest peer collects: everything missing if the peer's next block names
      the local tip and the missing indices are ints, and nothing otherwise. */
  lemma ExchangeCollects(r: Rules, limits: Limits, peerBatch: int, full: Chain, local: Chain)
    requires ValidChain(r, full) && ValidChain(r, local) && peerBatch >= 1
    requires |local| < |full| ==> Fits(limits, peerBatch, full, |local|)
    ensures var end := OnResponses(limits, SessionFor(local), HonestExchange(limits, peerBatch, full, local));
      end.done && end.blocks ==
        if Joins(local, full) && ExactIn(full, |local|, |full|) then full[|local|..] else []
  {
    var s := SessionFor(local);
    if OnTrack(limits, peerBatch, full, |local|, s) {
      HonestSync(limits, peerBatch, full, |local|, s);
      if |local| < |full| {
        OnTrackJoins(r, limits, peerBatch, full, local);
      }
    } else {
      var p := HonestReply(limits, peerBatch, full, s);
      assert [p][1..] == [];
      assert OnResponses(limits, s, [p]) == OnResponse(limits, s, p);
      if |full| <= |local| {
        ShorterPeerEnds(limits, peerBatch, full, local);
      } else if Joins(local, full) {
        JoinedOnTrack(r, limits, peerBatch, full, local);
        assert false;
      } else {
        ForeignPeerEnds(r, limits, peerBatch, full, local);
      }
    }
  }

  /** A suffix that names the local tip is adopted exactly when the joined chain is valid. */
  lemma JoinedResolves(r: Rules, local: Chain, suffix: Chain)
    requires !r.Legacy? && ValidChain(r, local) && suffix != []
    requires local == [] || suffix[0].header.prevHash == local[|local| - 1].header.tranHash
    ensures Resolve(r, local, suffix) == if ValidChain(r, local + suffix) then local + suffix else local
  {
    var joined := local + suffix;
    assert local == [] ==> joined == suffix;
    assert joined[..|local|] == local && joined[..|joined|] == joined;
    if ValidChain(r, joined) {
      PrefixScoresLower(r, joined, |local|, |joined|);
    }
    ResolveIs(r, local, suffix);
  }

  /** Sync with an honest peer is exact for any two valid chains: the node ends with its own chain
      followed by the peer's further blocks if and only if the peer's next block names the local
      tip, the indices of those blocks are ints and the joined chain is valid; otherwise it
      keeps its chain. */
  lemma SyncExactly(r: Rules, limits: Limits, peerBatch: int, full: Chain, local: Chain)
    requires !r.Legacy? && ValidChain(r, full) && ValidChain(r, local) && peerBatch >= 1
    requires |local| < |full| ==> Fits(limits, peerBatch, full, |local|)
    ensures var end := OnResponses(limits, SessionFor(local), HonestExchange(limits, peerBatch, full, local));
      && end.done
      && Resolve(r, local, end.blocks) ==
           if Joins(local, full) && ExactIn(full, |local|, |full|) && ValidChain(r, local + full[|local|..])
           then local + full[|local|..] else local
  {
    ExchangeCollects(r, limits, peerBatch, full, local);
    NothingResolves(r, local);
    if Joins(local, full) {
      JoinedResolves(r, local, full[|local|..]);
    }
  }

  /** PoW neither hashes nor checks the type of the index, so NEW_BLOCK takes a block
      whose index merely equals the right int exactly when it takes it with the int. */
  lemma LooseIndexIsTaken(r: Rules, chain: Chain, b: Block, n: int)
    requires r.Pow? && b.index == Some(Exact(n))
    ensures AddVerdict(r, chain, b).Valid? <==> AddVerdict(r, chain, b.(index := Some(Loose(n)))).Valid?
    ensures !ExactAt(chain + [b.(index := Some(Loose(n)))], |chain|)
  {
  }
}
