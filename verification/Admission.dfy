/** Admission of a transaction to the pool, and what it guarantees. */
module Admission {
  import opened ChainTypes
  import opened WorldState
  import opened StateTransitions
  import SP = StateProcessors

  datatype PoolError = ErrCheap | ErrInvalidSender | ErrNonExistentAccount | ErrNonce | ErrGasLimit | ErrNegativeValue |
                       ErrInsufficientFunds | ErrIntrinsicGas

  function Cost(tx: Tx): int {
    tx.gasPrice * tx.gas + tx.value
  }

  /** The pool's checks, against the accounts `m` of the current state. */
  function ValidateTx(local: bool, minGasPrice: int, m: Accounts, gasLimit: int, homestead: bool,
                      tx: Tx): Option<PoolError> {
    if !local && minGasPrice > tx.gasPrice then Some(ErrCheap)
    else if !tx.signed then Some(ErrInvalidSender)
    else if tx.sender !in m then Some(ErrNonExistentAccount)
    else if Get(m, tx.sender).nonce > tx.nonce then Some(ErrNonce)
    else if gasLimit < tx.gas then Some(ErrGasLimit)
    else if tx.value < 0 then Some(ErrNegativeValue)
    else if Get(m, tx.sender).balance < Cost(tx) then Some(ErrInsufficientFunds)
    else if tx.gas < Intrinsic(tx.data, tx.to.None?, homestead) then Some(ErrIntrinsicGas)
    else None
  }

  /** Which transactions are admitted, due or not: a price the pool asks or a local one, a signature, an account whose
      nonce is not beyond it, gas within the block, no negative value, a balance for gas and value, and gas for its data. */
  lemma AdmittedIff(local: bool, minGasPrice: int, m: Accounts, gasLimit: int, homestead: bool, tx: Tx)
    ensures ValidateTx(local, minGasPrice, m, gasLimit, homestead, tx).None? <==>
            && (local || minGasPrice <= tx.gasPrice) && tx.signed && tx.sender in m && m[tx.sender].nonce <= tx.nonce
            && 0 <= tx.value && tx.gasPrice * tx.gas + tx.value <= m[tx.sender].balance
            && Intrinsic(tx.data, tx.to.None?, homestead) <= tx.gas <= gasLimit
    ensures ValidateTx(local, minGasPrice, m, gasLimit, homestead, tx) == Some(ErrNonce) ==>
              tx.signed && tx.sender in m && tx.nonce < m[tx.sender].nonce
    ensures !tx.signed && (local || minGasPrice <= tx.gasPrice) ==>
              ValidateTx(local, minGasPrice, m, gasLimit, homestead, tx) == Some(ErrInvalidSender)
  {
  }

  /** For a signed transaction whose turn has come, in a block whose pool covers its gas: the pool admits
      it exactly when it can be executed on that state and the pool's own policy allows it. */
  lemma AdmittedIffExecutable(local: bool, minGasPrice: int, m: Accounts, gasLimit: int, homestead: bool, tx: Tx,
                              env: Env, pool: int)
    requires tx.signed && tx.nonce == Get(m, tx.sender).nonce && tx.gas <= pool
    requires homestead == env.config.IsHomestead(env.blockNumber)
    ensures ValidateTx(local, minGasPrice, m, gasLimit, homestead, tx).None? <==>
            && Verdict(env, SP.AsMessage(tx), m, pool).None?
            && (local || minGasPrice <= tx.gasPrice) && tx.sender in m && tx.gas <= gasLimit && 0 <= tx.value
  {
    assert tx.gas * tx.gasPrice == tx.gasPrice * tx.gas;
  }
}
