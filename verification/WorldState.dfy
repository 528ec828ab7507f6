/** Accounts, the state database that changes them and the gas pool of a block. */
module WorldState {
  import opened ChainTypes

  const NO_ACCOUNT := Account(0, 0)

  function Get(m: Accounts, a: Address): Account {
    if a in m then m[a] else NO_ACCOUNT
  }

  function Credit(m: Accounts, a: Address, amount: int): Accounts {
    m[a := Get(m, a).(balance := Get(m, a).balance + amount)]
  }

  function WithNonce(m: Accounts, a: Address, nonce: nat): Accounts {
    m[a := Get(m, a).(nonce := nonce)]
  }

  /** Sum of all balances. */
  ghost function Total(m: Accounts): int {
    if m == map[] then 0 else var a :| a in m; m[a].balance + Total(m - {a})
  }

  lemma {:induction false} TotalSplit(m: Accounts, a: Address)
    requires a in m
    ensures Total(m) == m[a].balance + Total(m - {a})
    decreases |m|
  {
    var b :| b in m && Total(m) == m[b].balance + Total(m - {b});
    if a != b {
      TotalSplit(m - {b}, a);
      TotalSplit(m - {a}, b);
      assert m - {b} - {a} == m - {a} - {b};
    }
  }

  /** Replacing one account changes the sum by the change of its balance. */
  lemma TotalUpdate(m: Accounts, a: Address, account: Account)
    ensures Total(m[a := account]) == Total(m) - Get(m, a).balance + account.balance
  {
    TotalSplit(m[a := account], a);
    assert m[a := account] - {a} == m - {a};
    if a in m {
      TotalSplit(m, a);
    } else {
      assert m - {a} == m;
    }
  }

  class GasPool {
    var gas: int

    constructor ()
      ensures gas == 0
    {
      gas := 0;
    }

    method AddGas(amount: int)
      modifies this
      ensures gas == old(gas) + amount
    {
      gas := gas + amount;
    }

    /** Takes gas if there is enough, otherwise nothing. */
    method SubGas(amount: int) returns (ok: bool)
      modifies this
      ensures ok <==> amount <= old(gas)
      ensures gas == if ok then old(gas) - amount else old(gas)
    {
      if gas < amount {
        return false;
      }
      gas := gas - amount;
      return true;
    }
  }

  class StateDB {
    var accounts: Accounts
    var refund: int

    constructor (initial: Accounts)
      ensures accounts == initial && refund == 0
    {
      accounts := initial;
      refund := 0;
    }

    method AddBalance(a: Address, amount: int)
      modifies `accounts
      ensures accounts == Credit(old(accounts), a, amount)
      ensures Total(accounts) == Total(old(accounts)) + amount
    {
      TotalUpdate(accounts, a, Get(accounts, a).(balance := Get(accounts, a).balance + amount));
      accounts := Credit(accounts, a, amount);
    }

    method SetBalance(a: Address, amount: int)
      modifies `accounts
      ensures accounts == old(accounts)[a := Get(old(accounts), a).(balance := amount)]
    {
      accounts := accounts[a := Get(accounts, a).(balance := amount)];
    }

    method SetNonce(a: Address, nonce: nat)
      modifies `accounts
      ensures accounts == WithNonce(old(accounts), a, nonce)
      ensures Total(accounts) == Total(old(accounts))
    {
      TotalUpdate(accounts, a, Get(accounts, a).(nonce := nonce));
      accounts := WithNonce(accounts, a, nonce);
    }

    /** A fresh account that keeps the balance already held under its address. */
    method CreateAccount(a: Address)
      modifies `accounts
      ensures accounts == old(accounts)[a := Account(Get(old(accounts), a).balance, 0)]
      ensures Total(accounts) == Total(old(accounts))
    {
      TotalUpdate(accounts, a, Account(Get(accounts, a).balance, 0));
      accounts := accounts[a := Account(Get(accounts, a).balance, 0)];
    }

    /** Moves value; the two accounts may be the same. */
    method Transfer(from: Address, to: Address, amount: int)
      modifies `accounts
      ensures accounts == Credit(Credit(old(accounts), from, -amount), to, amount)
      ensures Total(accounts) == Total(old(accounts))
    {
      AddBalance(from, -amount);
      AddBalance(to, amount);
    }
  }
}
