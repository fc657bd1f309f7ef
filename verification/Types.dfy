/** Blocks, settings and verdicts shared by every module (types.py).

    A field that the Python code reads with `.get`, tests for presence or tests with
    `isinstance` is an Option. Where no check tells them apart, a field of the wrong type
    counts as absent; a `consensus_type` that is not a text stands for some other text.
    A missing `block_header` is the header with every field absent. */
module Types {
  import opened Reals

  datatype Option<+T> = None | Some(value: T)

  datatype Result<+T> = Success(value: T) | Failure(error: string)

  datatype TransactionBody = TransactionBody(inputData: seq<string>, outputData: seq<string>)

  /** `tran_body`: null, a dict, or any other JSON value, which the hash takes all the same. */
  datatype Body = Null | Dict(content: TransactionBody) | NotDict(json: string)

  /** `block_item`: absent or not a string, a string that does not parse, or a time in seconds. */
  datatype Stamp = NoStamp | BadStamp | At(seconds: int)

  /** `block_index`: an int; a value of another type that equals an int, as 5.0 or True do;
      or a value that equals no int. */
  datatype BlockIndex = Exact(value: int) | Loose(value: int) | Other

  datatype Header = Header(
    prevHash: Option<string>,
    tranHash: Option<string>,
    consensusType: Option<string>,
    nonce: Option<int>,
    difficulty: Option<int>,
    validatorId: Option<string>,
    slot: Option<int>)

  datatype Block = Block(
    index: Option<BlockIndex>,
    item: Stamp,
    header: Header,
    tranCounter: int,
    body: Option<Body>,
    signature: Option<string>,
    publicKey: Option<string>)

  type Chain = seq<Block>

  /** `block["block_index"] == n` with Python's equality. */
  predicate IndexIs(b: Block, n: int) {
    b.index.Some? && !b.index.value.Other? && b.index.value.value == n
  }

  /** Outcome of a check: accepted, refused with a reason, or an exception left the check. */
  datatype Verdict = Valid | Invalid(reason: string) | Raises(error: string)

  /** What a boolean check answers: true, false, or the exception that leaves it. */
  function Answer(v: Verdict): Result<bool> {
    match v
    case Valid => Success(true)
    case Invalid(_) => Success(false)
    case Raises(error) => Failure(error)
  }

  /** Validator id to stake; stakes are never negative. */
  type Stakes = map<string, nat>

  datatype PowParameters = PowParameters(
    initialDifficulty: int,
    adjustmentInterval: int,
    maxAdjustmentFactor: real,
    maxMiningIterations: int,
    targetBlockTimeSeconds: int,
    round: real -> real)

  /** The settings the proofs assume; the loader converts values but does not enforce these bounds.
      `round` is the rounding of a float division, under which the factor has a reciprocal. */
  type PowSettings = p: PowParameters |
      && p.initialDifficulty >= 1 && p.adjustmentInterval >= 1 && p.maxAdjustmentFactor >= 1.0
      && IsRounding(p.round) && p.round(1.0 / p.maxAdjustmentFactor) > 0.0
    witness PowParameters(4, 10, 2.0, 1_000_000, 10, x => x)

  datatype PosSettings = PosSettings(minStake: nat, blockReward: nat)

  function GetOr<T>(o: Option<T>, default: T): T {
    if o.Some? then o.value else default
  }
}
