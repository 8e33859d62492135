/** Proof-of-Work search over an otherwise immutable candidate. */
module Miner {
  import opened Types
  import opened Consensus

  /** Tries nonces upwards from the candidate's own, at most `maxAttempts` of them and never past
      the 64-bit range. The block found carries the first nonce whose hash, read as a number, is not
      above the target; a failure means every hash in that window is. */
  method MineBlock(net: Network, candidate: Block, maxAttempts: int) returns (r: Result<Block>)
    ensures maxAttempts <= 0 ==> r == Err(BadCount)
    ensures var first := candidate.header.nonce;
            maxAttempts > 0 ==>
              match r
              case Ok(b) =>
                && first <= b.header.nonce < first + maxAttempts && b.header.nonce <= U64_MAX
                && b == candidate.WithNonce(b.header.nonce)
                && 0 < candidate.header.target <= MAX_TARGET
                && net.hashValue(net.blockHash(b.header)) <= candidate.header.target
                && forall n :: first <= n < b.header.nonce ==>
                     net.hashValue(net.blockHash(candidate.WithNonce(n).header)) > candidate.header.target
              case Err(fault) =>
                && fault == NoNonceFound
                && forall n :: first <= n < first + maxAttempts && n <= U64_MAX
                               && 0 < candidate.header.target <= MAX_TARGET ==>
                     net.hashValue(net.blockHash(candidate.WithNonce(n).header)) > candidate.header.target
  {
    if maxAttempts <= 0 { return Err(BadCount); }
    var nonce := candidate.header.nonce;
    var attempts := 0;
    while attempts < maxAttempts
      invariant 0 <= attempts <= maxAttempts && nonce == candidate.header.nonce + attempts
      invariant forall n :: candidate.header.nonce <= n < nonce ==> !Mined(net, candidate.WithNonce(n))
      invariant nonce <= U64_MAX + 1 || attempts == 0
    {
      if nonce > U64_MAX { break; }
      var block := candidate.WithNonce(nonce);
      if Mined(net, block) { return Ok(block); }
      nonce := nonce + 1;
      attempts := attempts + 1;
    }
    r := Err(NoNonceFound);
  }
}
