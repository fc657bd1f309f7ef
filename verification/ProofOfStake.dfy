/** Proof of stake: what a valid block is and what a proposer produces (consensus/pos.py). */
module ProofOfStake {
  import opened Types
  import opened HashUtils
  import opened Text
  import opened StakeMaps

  /** The key registry after `register_validator`: the PEM given, or the node's own key for its own id;
      an empty PEM counts as none. */
  function RegisteredKeys(env: Crypto, keys: map<string, string>, nodeId: Option<string>, privateKey: Option<string>,
                          id: string, pem: Option<string>): map<string, string> {
    if pem.Some? && pem.value != "" then keys[id := pem.value]
    else if nodeId == Some(id) && privateKey.Some? then keys[id := env.publicKey(privateKey.value)]
    else keys
  }

  /** The part of a block that is signed. */
  function Payload(b: Block): Block {
    b.(signature := None, publicKey := None)
  }

  /** `sign_block` of signature.py. */
  function SignBlock(env: Crypto, privateKey: string, b: Block): Block {
    var payload := Payload(b);
    payload.(signature := Some(env.sign(privateKey, payload)), publicKey := Some(env.publicKey(privateKey)))
  }

  /** `verify_block_signature` of signature.py. */
  predicate VerifySignature(env: Crypto, b: Block) {
    b.signature.Some? && b.publicKey.Some? && env.verify(Payload(b), b.signature.value, b.publicKey.value)
  }

  /** `isinstance(tran_body, dict)`. */
  predicate HasDict(b: Block) {
    b.body.Some? && b.body.value.Dict?
  }

  /** `validate_block` against the stakes `validators` at height `height`;
      `keys` are the registered public keys. */
  ghost function ValidateBlock(env: Crypto, keys: map<string, string>, b: Block, height: int, validators: Stakes): Verdict {
    var h := b.header;
    if h.consensusType != Some("pos") then Invalid("consensus_type is not pos")
    else if h.validatorId.None? || h.validatorId.value == "" || h.slot.None? || h.slot.value < 0 then
      Invalid("missing PoS fields")
    else if validators == map[] then Invalid("no validators registered")
    else if h.slot.value != height then Invalid("slot does not match block height")
    else if h.validatorId.value !in validators then Invalid("unknown validator")
    else if !HasDict(b) || h.prevHash.None? || h.tranHash.None? then Invalid("missing PoS fields")
    else
      match Proposer(env, h.slot.value, validators)
      case Failure(error) => Raises(error)
      case Success(proposer) => ValidateSeal(env, keys, b, proposer)
  }

  /** The checks of `validate_block` that follow the choice of the proposer. */
  function ValidateSeal(env: Crypto, keys: map<string, string>, b: Block, proposer: string): Verdict
    requires b.header.validatorId.Some? && b.header.slot.Some?
    requires b.body.Some? && b.header.prevHash.Some? && b.header.tranHash.Some?
  {
    var h := b.header;
    var id := h.validatorId.value;
    if id != proposer then Invalid("invalid proposer for slot")
    else if h.tranHash.value != env.sha(PosPreimage(h.prevHash.value, BodyHash(env, b.body.value), id, h.slot.value)) then
      Invalid("tran_hash mismatch")
    else if b.signature.None? || b.publicKey.None? then Invalid("missing validator signature")
    else if id !in keys then Invalid("validator public key not registered")
    else if b.publicKey.value != keys[id] then Invalid("public key does not match validator_id")
    else if !VerifySignature(env, b) then Invalid("invalid validator signature")
    else Valid
  }

  /** The block names `id`, is hashed for it at `height` and signed under its registered key. */
  predicate SealedBy(env: Crypto, keys: map<string, string>, b: Block, id: string, height: int) {
    && b.header.validatorId == Some(id) && b.header.slot == Some(height)
    && HasDict(b) && b.header.prevHash.Some?
    && b.header.tranHash == Some(env.sha(PosPreimage(b.header.prevHash.value, BodyHash(env, b.body.value), id, height)))
    && id in keys && b.publicKey == Some(keys[id]) && VerifySignature(env, b)
  }

  lemma SealExactly(env: Crypto, keys: map<string, string>, b: Block, proposer: string, height: int)
    requires b.header.slot == Some(height) && b.header.validatorId.Some?
    requires HasDict(b) && b.header.prevHash.Some? && b.header.tranHash.Some?
    ensures ValidateSeal(env, keys, b, proposer).Valid? <==> SealedBy(env, keys, b, proposer, height)
  {
  }

  /** The validator drawn for a height from `validators` exists, has a non-empty id and sealed the block. */
  ghost predicate SealedByDrawn(env: Crypto, keys: map<string, string>, b: Block, height: int, validators: Stakes) {
    var drawn := Proposer(env, height, validators);
    drawn.Success? && drawn.value != "" && SealedBy(env, keys, b, drawn.value, height)
  }

  lemma ValidIsSealed(env: Crypto, keys: map<string, string>, b: Block, height: nat, validators: Stakes)
    requires ValidateBlock(env, keys, b, height, validators).Valid?
    ensures b.header.consensusType == Some("pos") && SealedByDrawn(env, keys, b, height, validators)
  {
    SealExactly(env, keys, b, Proposer(env, height, validators).value, height);
  }

  lemma SealedIsValid(env: Crypto, keys: map<string, string>, b: Block, height: nat, validators: Stakes)
    requires b.header.consensusType == Some("pos") && SealedByDrawn(env, keys, b, height, validators)
    ensures ValidateBlock(env, keys, b, height, validators).Valid?
  {
    var proposer := Proposer(env, height, validators).value;
    ProposerHasStake(env, height, validators);
    SealExactly(env, keys, b, proposer, height);
    assert ValidateBlock(env, keys, b, height, validators) == ValidateSeal(env, keys, b, proposer);
  }

  /** A block is valid exactly when it is of type PoS and sealed, for its height, by the
      validator drawn for that height. */
  lemma ValidExactly(env: Crypto, keys: map<string, string>, b: Block, height: nat, validators: Stakes)
    ensures ValidateBlock(env, keys, b, height, validators).Valid? <==>
      b.header.consensusType == Some("pos") && SealedByDrawn(env, keys, b, height, validators)
  {
    if ValidateBlock(env, keys, b, height, validators).Valid? {
      ValidIsSealed(env, keys, b, height, validators);
    } else if b.header.consensusType == Some("pos") && SealedByDrawn(env, keys, b, height, validators) {
      SealedIsValid(env, keys, b, height, validators);
    }
  }

  /** The header `prepare_block` writes, signed. */
  function Sealed(env: Crypto, privateKey: string, b: Block, proposer: string, slot: int): Block
    requires b.header.prevHash.Some? && b.body.Some?
  {
    var hash := env.sha(PosPreimage(b.header.prevHash.value, BodyHash(env, b.body.value), proposer, slot));
    SignBlock(env, privateKey, b.(header := b.header.(
      validatorId := Some(proposer), slot := Some(slot), tranHash := Some(hash), consensusType := Some("pos"))))
  }

  /** `prepare_block` on a chain of length `height - 1` whose replayed stakes are `validators`. */
  ghost function Proposed(env: Crypto, nodeId: Option<string>, privateKey: Option<string>,
                          b: Block, height: int, validators: Stakes): Result<Block>
    requires b.header.prevHash.Some? && b.body.Some?
  {
    match Proposer(env, height, validators)
    case Failure(error) => Failure(error)
    case Success(proposer) =>
      if nodeId.None? then Failure("node_validator_id is not set")
      else if proposer != nodeId.value then Failure("Not proposer for slot")
      else if privateKey.None? then Failure("Private key required for PoS block proposal")
      else Success(Sealed(env, privateKey.value, b, proposer, height))
  }

  /** Proposing fills in the seal and leaves the rest of the block alone. */
  lemma ProposedShape(env: Crypto, nodeId: Option<string>, privateKey: Option<string>, b: Block, height: int, validators: Stakes)
    requires b.header.prevHash.Some? && b.body.Some?
    requires Proposed(env, nodeId, privateKey, b, height, validators).Success?
    ensures var p := Proposed(env, nodeId, privateKey, b, height, validators).value;
      p.index == b.index && p.item == b.item && p.header.prevHash == b.header.prevHash && p.body == b.body
  {
  }

  lemma SignedBlockVerifies(env: Crypto, privateKey: string, b: Block)
    requires SignaturesVerify(env)
    ensures VerifySignature(env, SignBlock(env, privateKey, b))
  {
    assert Payload(SignBlock(env, privateKey, b)) == Payload(b);
    assert env.verify(Payload(b), env.sign(privateKey, Payload(b)), env.publicKey(privateKey));
  }

  /** What `prepare_block` seals is sealed by the proposer, for every node that has its key. */
  lemma SealHolds(env: Crypto, privateKey: string, b: Block, proposer: string, slot: int, keys: map<string, string>)
    requires SignaturesVerify(env)
    requires b.header.prevHash.Some? && HasDict(b)
    ensures SealedBy(env, keys, Sealed(env, privateKey, b, proposer, slot), proposer, slot)
       <==> proposer in keys && keys[proposer] == env.publicKey(privateKey)
  {
    var hash := env.sha(PosPreimage(b.header.prevHash.value, BodyHash(env, b.body.value), proposer, slot));
    SignedBlockVerifies(env, privateKey, b.(header := b.header.(
      validatorId := Some(proposer), slot := Some(slot), tranHash := Some(hash), consensusType := Some("pos"))));
  }

  /** A proposed block passes validation by any node that replays the same stakes
      exactly when that node has the proposer's public key registered. */
  lemma ProposedBlockValidates(env: Crypto, nodeId: Option<string>, privateKey: Option<string>, b: Block,
                               height: nat, validators: Stakes, keys: map<string, string>)
    requires SignaturesVerify(env)
    requires b.header.prevHash.Some? && HasDict(b)
    requires Proposed(env, nodeId, privateKey, b, height, validators).Success?
    requires nodeId != Some("")
    ensures ValidateBlock(env, keys, Proposed(env, nodeId, privateKey, b, height, validators).value, height, validators).Valid?
       <==> nodeId.value in keys && keys[nodeId.value] == env.publicKey(privateKey.value)
  {
    var sealed := Sealed(env, privateKey.value, b, nodeId.value, height);
    SealHolds(env, privateKey.value, b, nodeId.value, height, keys);
    ValidExactly(env, keys, sealed, height, validators);
  }

  // ---------- keys, payloads and proposals in closed form ----------

  /** Registration touches one entry: a non-empty PEM becomes the key of `id`, the node's own id without
      one gets the node's key, and nothing else changes. */
  lemma RegisteredExactly(env: Crypto, keys: map<string, string>, nodeId: Option<string>, privateKey: Option<string>,
                          id: string, pem: Option<string>)
    ensures var after := RegisteredKeys(env, keys, nodeId, privateKey, id, pem);
      && (forall other :: other != id ==> (other in after <==> other in keys) && (other in keys ==> after[other] == keys[other]))
      && (pem.Some? && pem.value != "" ==> id in after && after[id] == pem.value)
      && ((pem.None? || pem.value == "") && nodeId == Some(id) && privateKey.Some? ==>
            id in after && after[id] == env.publicKey(privateKey.value))
      && ((pem.None? || pem.value == "") && (nodeId != Some(id) || privateKey.None?) ==> after == keys)
  {
  }

  /** A payload keeps everything but signature and key. */
  lemma PayloadExactly(x: Block, y: Block)
    ensures Payload(x) == Payload(y) <==>
      && x.index == y.index && x.item == y.item && x.header == y.header
      && x.tranCounter == y.tranCounter && x.body == y.body
    ensures Payload(x).signature.None? && Payload(x).publicKey.None?
  {
  }

  /** Signing adds the signature of the rest of the block and the public key of the signer. */
  lemma SignedExactly(env: Crypto, privateKey: string, b: Block)
    ensures var signed := SignBlock(env, privateKey, b);
      && Payload(signed) == Payload(b) && signed.publicKey == Some(env.publicKey(privateKey))
      && signed.signature == Some(env.sign(privateKey, b.(signature := None, publicKey := None)))
    ensures VerifySignature(env, b) <==>
      && b.signature.Some? && b.publicKey.Some?
      && env.verify(b.(signature := None, publicKey := None), b.signature.value, b.publicKey.value)
  {
  }

  /** Proposing succeeds if and only if the node is the validator drawn for the slot and has a key. */
  lemma ProposingExactly(env: Crypto, nodeId: Option<string>, privateKey: Option<string>, b: Block, slot: int, validators: Stakes)
    requires b.header.prevHash.Some? && b.body.Some?
    ensures Proposed(env, nodeId, privateKey, b, slot, validators).Success? <==>
      && nodeId.Some? && privateKey.Some? && nodeId.value in validators && Total(validators) > 0
      && var pick := HexValue(env.sha("slot-" + Str(slot))) % Total(validators);
      && StakeBefore(validators, nodeId.value) <= pick < StakeBefore(validators, nodeId.value) + validators[nodeId.value]
  {
    if nodeId.Some? {
      ProposerExactly(env, slot, validators, nodeId.value);
    }
  }

  /** What a proposed block carries: the node as validator, the slot, the hash of both with parent and body,
      and the node's signature over all of it; everything else is as before. */
  lemma ProposedFields(env: Crypto, nodeId: Option<string>, privateKey: Option<string>, b: Block, slot: int, validators: Stakes)
    requires b.header.prevHash.Some? && b.body.Some?
    requires Proposed(env, nodeId, privateKey, b, slot, validators).Success?
    ensures var p := Proposed(env, nodeId, privateKey, b, slot, validators).value;
      && nodeId.Some? && privateKey.Some?
      && p.index == b.index && p.item == b.item && p.tranCounter == b.tranCounter && p.body == b.body
      && p.header == b.header.(
           validatorId := nodeId, slot := Some(slot), consensusType := Some("pos"),
           tranHash := Some(env.sha(b.header.prevHash.value + env.sha(env.bodyText(b.body.value)) + nodeId.value + Str(slot))))
      && p.publicKey == Some(env.publicKey(privateKey.value))
      && p.signature == Some(env.sign(privateKey.value, p.(signature := None, publicKey := None)))
  {
  }

  lemma SealNeverRaises(env: Crypto, keys: map<string, string>, b: Block, proposer: string)
    requires b.header.validatorId.Some? && b.header.slot.Some?
    requires b.body.Some? && b.header.prevHash.Some? && b.header.tranHash.Some?
    ensures !ValidateSeal(env, keys, b, proposer).Raises?
  {
  }

  /** Validation gets as far as the draw. */
  predicate Reaches(b: Block, height: int, validators: Stakes) {
    && b.header.consensusType == Some("pos") && b.header.slot == Some(height)
    && b.header.validatorId.Some? && b.header.validatorId.value != "" && b.header.validatorId.value in validators
    && b.body.Some? && b.body.value.Dict? && b.header.prevHash.Some? && b.header.tranHash.Some?
  }

  lemma StopsBeforeDraw(env: Crypto, keys: map<string, string>, b: Block, height: nat, validators: Stakes)
    requires !Reaches(b, height, validators)
    ensures ValidateBlock(env, keys, b, height, validators).Invalid?
  {
  }

  lemma GoesByDraw(env: Crypto, keys: map<string, string>, b: Block, height: nat, validators: Stakes)
    requires Reaches(b, height, validators)
    ensures ValidateBlock(env, keys, b, height, validators) ==
      match Proposer(env, height, validators)
      case Failure(error) => Raises(error)
      case Success(proposer) => ValidateSeal(env, keys, b, proposer)
  {
  }

  /** Validation raises exactly where it gets as far as the draw and the total stake is zero. */
  lemma RaisesExactly(env: Crypto, keys: map<string, string>, b: Block, height: nat, validators: Stakes)
    ensures ValidateBlock(env, keys, b, height, validators).Raises? <==> Reaches(b, height, validators) && Total(validators) == 0
  {
    ProposerExactly(env, height, validators, "");
    if Reaches(b, height, validators) {
      GoesByDraw(env, keys, b, height, validators);
      if Proposer(env, height, validators).Success? {
        SealNeverRaises(env, keys, b, Proposer(env, height, validators).value);
      }
    } else {
      StopsBeforeDraw(env, keys, b, height, validators);
    }
  }
}
