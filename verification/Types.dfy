/** Values shared by every part of the model.

A hash is the value it was computed from, wrapped: hashing is thereby injective and a header can
never be its own ancestor, which is all the chain code relies on.  A header's transaction root and
uncle root commit to the block body and its state root to the accounts after it, so a header carries them and stands
for the whole block. */
module ChainTypes {

  type Byte = x: int | 0 <= x < 256

  /** A 160-bit account address. */
  type Address = nat

  datatype Option<+T> = None | Some(value: T)

  /** `signed` tells whether the signature recovers to `sender`. */
  datatype Tx = Tx(sender: Address, signed: bool, nonce: nat, gasPrice: nat, gas: nat, value: int,
                   to: Option<Address>, data: seq<Byte>)

  datatype TxHash = TxHash(tx: Tx)

  datatype Account = Account(balance: int, nonce: nat)

  type Accounts = map<Address, Account>

  /** `Zero` is the empty hash; `Other` is any byte string that is no header's hash. */
  datatype Hash = Zero | Digest(header: Header) | Other(id: nat)

  datatype Header = Header(parentHash: Hash, number: nat, difficulty: int, time: int,
                           gasLimit: nat, gasUsed: nat, coinbase: Address, extra: seq<Byte>,
                           nonce: nat, txs: seq<Tx>, uncles: seq<Header>, root: Accounts)
}
