/** The link check that both consensus protocols inherit (consensus/base.py). */
module ConsensusBase {
  import opened Types

  /** `validate_chain_link`. `genesis` is the genesis value in force. Reading an
      absent `block_index` or hash of a header raises KeyError; adding one to a parent
      index that is no number raises TypeError. Indices are compared by value only. */
  function ValidateChainLink(block: Block, previous: Option<Block>, genesis: string): Verdict {
    if previous.None? then
      if block.index.None? then Raises("block_index")
      else if !IndexIs(block, 1) then Invalid("first block_index must be 1")
      else if block.header.prevHash.None? then Raises("prev_hash")
      else if block.header.prevHash.value != genesis then Invalid("genesis prev_hash mismatch")
      else Valid
    else
      var parent := previous.value;
      if parent.header.tranHash.None? then Raises("tran_hash")
      else if block.header.prevHash.None? then Raises("prev_hash")
      else if block.header.prevHash.value != parent.header.tranHash.value then Invalid("prev_hash mismatch")
      else if block.index.None? || parent.index.None? then Raises("block_index")
      else if parent.index.value.Other? then Raises("block_index")
      else if !IndexIs(block, parent.index.value.value + 1) then Invalid("block_index mismatch")
      else Valid
  }

  /** `chain[-1] if chain else None`. */
  function Tip(chain: Chain): Option<Block> {
    if chain == [] then None else Some(chain[|chain| - 1])
  }
}
