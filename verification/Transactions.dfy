/** Validation of a transaction on its own, before any account is looked at. */
module Transactions {
  import opened Types

  const TRANSACTION_VERSION := 1

  /** The rules a transaction must satisfy on its own: fields, network binding, expiry, addresses
      and signature. */
  predicate ValidAt(net: Network, tx: Transaction, height: int) {
    && InU64(height)
    && tx.version == TRANSACTION_VERSION && tx.chainId == net.chainId
    && |tx.senderPublicKey| == PUBLIC_KEY_LENGTH && |tx.signature| == SIGNATURE_LENGTH
    && InU64(tx.amount) && InU64(tx.fee) && InU64(tx.nonce) && InU64(tx.validUntil)
    && tx.amount != 0 && tx.amount + tx.fee <= U64_MAX
    && height <= tx.validUntil
    && net.validAddress(tx.sender) && net.validAddress(tx.recipient)
    && tx.sender == net.addressOf(tx.senderPublicKey)
    && net.verifies(tx)
  }

  /** The rule the node reports for a transaction that is not valid: the first one broken. */
  function FirstBrokenRule(net: Network, tx: Transaction, height: int): Fault {
    if !InU64(height) then HeightOutOfRange
    else if tx.version != TRANSACTION_VERSION then UnsupportedVersion
    else if tx.chainId != net.chainId then WrongNetwork
    else if |tx.senderPublicKey| != PUBLIC_KEY_LENGTH then BadPublicKey
    else if |tx.signature| != SIGNATURE_LENGTH then BadSignatureLength
    else if !(InU64(tx.amount) && InU64(tx.fee) && InU64(tx.nonce) && InU64(tx.validUntil)) then
      FieldOutOfRange
    else if tx.amount == 0 then ZeroAmount
    else if tx.amount + tx.fee > U64_MAX then AmountPlusFeeOverflow
    else if height > tx.validUntil then Expired
    else if !(net.validAddress(tx.sender) && net.validAddress(tx.recipient)) then InvalidAddress
    else if tx.sender != net.addressOf(tx.senderPublicKey) then SenderMismatch
    else BadSignature
  }

  /** What a sender pays for one transaction. */
  function Cost(tx: Transaction): int {
    tx.amount + tx.fee
  }
}
