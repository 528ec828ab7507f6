/** Applying one message: buy gas, pay the intrinsic gas, move the value, refund, pay the miner. */
module StateTransitions {
  import opened ChainTypes
  import opened WorldState
  import opened HeaderRules

  const TX_GAS := 21000
  const TX_GAS_EXTERNAL_LOGIC_CREATION := 53000
  const TX_DATA_ZERO_GAS := 4
  const TX_DATA_NON_ZERO_GAS := 68
  const CALL_CREATE_DEPTH := 1024

  datatype Message = Message(from: Address, to: Option<Address>, gasPrice: nat, gas: nat, value: int, nonce: nat,
                             checkNonce: bool, data: seq<Byte>)

  /** The block a message is applied in.  `createAddress` derives the address of a created account. */
  datatype Env = Env(config: ChainConfig, blockNumber: nat, coinbase: Address, depth: nat, precompiled: set<Address>,
                     createAddress: (Address, nat) -> Address)

  datatype TxError = WrongTxNonce | CannotBuyGas | GasLimitReached | OutOfIntrinsicGas | CannotTransfer | InvalidSignature

  datatype CallResult = Done | DepthError | TransferError

  function DataGas(data: seq<Byte>): nat {
    if data == [] then 0
    else DataGas(data[..|data| - 1]) + if data[|data| - 1] == 0 then TX_DATA_ZERO_GAS else TX_DATA_NON_ZERO_GAS
  }

  /** Base price plus a price per byte. */
  function Intrinsic(data: seq<Byte>, creation: bool, homestead: bool): (gas: nat)
    ensures gas >= TX_GAS
  {
    (if creation && homestead then TX_GAS_EXTERNAL_LOGIC_CREATION else TX_GAS) + DataGas(data)
  }

  /** The prices: a zero byte costs 4, any other 68, on top of 21000, or of 53000 for a homestead creation. */
  lemma IntrinsicPrices(data: seq<Byte>, b: Byte, creation: bool, homestead: bool)
    ensures Intrinsic([], creation, homestead) == if creation && homestead then 53000 else 21000
    ensures Intrinsic(data + [b], creation, homestead) == Intrinsic(data, creation, homestead) + if b == 0 then 4 else 68
  {
    assert (data + [b])[..|data + [b]| - 1] == data;
  }

  method IntrinsicGas(data: seq<Byte>, creation: bool, homestead: bool) returns (igas: nat)
    ensures igas == Intrinsic(data, creation, homestead)
  {
    igas := if creation && homestead then TX_GAS_EXTERNAL_LOGIC_CREATION else TX_GAS;
    if |data| > 0 {
      var nz := 0;
      for i := 0 to |data|
        invariant 0 <= nz <= i
        invariant DataGas(data[..i]) == nz * TX_DATA_NON_ZERO_GAS + (i - nz) * TX_DATA_ZERO_GAS
      {
        assert data[..i + 1][..i] == data[..i];
        if data[i] != 0 {
          nz := nz + 1;
        }
      }
      assert data[..|data|] == data;
      igas := igas + nz * TX_DATA_NON_ZERO_GAS;
      igas := igas + (|data| - nz) * TX_DATA_ZERO_GAS;
    }
  }

  ghost function IntrinsicOf(env: Env, msg: Message): nat {
    Intrinsic(msg.data, msg.to.None?, env.config.IsHomestead(env.blockNumber))
  }

  /** Why a message cannot be applied, judged from the state before it. */
  ghost function Verdict(env: Env, msg: Message, m: Accounts, pool: int): Option<TxError> {
    if msg.checkNonce && Get(m, msg.from).nonce != msg.nonce then Some(WrongTxNonce)
    else if Get(m, msg.from).balance < msg.gas * msg.gasPrice then Some(CannotBuyGas)
    else if pool < msg.gas then Some(GasLimitReached)
    else if msg.gas < IntrinsicOf(env, msg) then Some(OutOfIntrinsicGas)
    else if Get(m, msg.from).balance - msg.gas * msg.gasPrice < msg.value then Some(CannotTransfer)
    else None
  }

  /** Gas a message uses: the intrinsic gas less a refund of at most half of it. */
  ghost function UsedGas(env: Env, msg: Message, refund: nat): nat {
    var igas := IntrinsicOf(env, msg);
    igas - if igas / 2 <= refund then igas / 2 else refund
  }

  ghost function Target(env: Env, msg: Message, m: Accounts): Address {
    if msg.to.Some? then msg.to.value else env.createAddress(msg.from, Get(m, msg.from).nonce)
  }

  function If(c: bool, x: int): int {
    if c then x else 0
  }

  /** What a message adds to the balance of `a`, whichever of the addresses involved coincide. */
  ghost function Delta(env: Env, msg: Message, m: Accounts, used: nat, a: Address): int {
    If(a == Target(env, msg, m), msg.value) + If(a == env.coinbase, used * msg.gasPrice)
    - If(a == msg.from, used * msg.gasPrice) - If(a == msg.from && !SelfCreated(env, msg, m), msg.value)
  }

  /** A creation whose derived address is the sender's own.  The account is replaced before the value is taken from what
      it was, so nothing is taken. */
  ghost predicate SelfCreated(env: Env, msg: Message, m: Accounts) {
    msg.to.None? && Target(env, msg, m) == msg.from
  }

  /** The nonce of `a` after a message: the sender's rises, a created account starts afresh. */
  ghost function NextNonce(env: Env, msg: Message, m: Accounts, a: Address): nat {
    if msg.to.None? && a == Target(env, msg, m) then if env.config.IsSiotImpr2(env.blockNumber) then 1 else 0
    else if a == msg.from then Get(m, a).nonce + 1
    else Get(m, a).nonce
  }

  class StateTransition {
    const gp: GasPool
    const msg: Message
    const env: Env
    const state: StateDB
    var gas: int
    var initialGas: int

    constructor (env: Env, msg: Message, state: StateDB, gp: GasPool)
      ensures this.env == env && this.msg == msg && this.state == state && this.gp == gp
      ensures gas == 0 && initialGas == 0
    {
      this.env, this.msg, this.state, this.gp := env, msg, state, gp;
      gas, initialGas := 0, 0;
    }

    /** Pre-pays all gas of the message and takes it from the pool. */
    method BuyGas() returns (err: Option<TxError>)
      requires gas == 0
      modifies this, gp, state`accounts
      ensures var cost := msg.gas * msg.gasPrice;
              err == if Get(old(state.accounts), msg.from).balance < cost then Some(CannotBuyGas)
                     else if old(gp.gas) < msg.gas then Some(GasLimitReached) else None
      ensures err.None? ==>
                && gas == initialGas == msg.gas && gp.gas == old(gp.gas) - msg.gas
                && state.accounts == Credit(old(state.accounts), msg.from, -(msg.gas * msg.gasPrice))
                && Total(state.accounts) == Total(old(state.accounts)) - msg.gas * msg.gasPrice
      ensures err.Some? ==> gp.gas == old(gp.gas)
    {
      var mgval := msg.gas * msg.gasPrice;
      if Get(state.accounts, msg.from).balance < mgval {
        return Some(CannotBuyGas);
      }
      var ok := gp.SubGas(msg.gas);
      if !ok {
        return Some(GasLimitReached);
      }
      gas := gas + msg.gas;
      initialGas := msg.gas;
      state.AddBalance(msg.from, -mgval);
      return None;
    }

    /** A plain call: value moves to an existing or new account. */
    method Call(addr: Address) returns (r: CallResult)
      requires msg.from in state.accounts
      modifies state`accounts
      ensures r == if env.depth > CALL_CREATE_DEPTH then DepthError
                   else if Get(old(state.accounts), msg.from).balance < msg.value then TransferError else Done
      ensures Total(state.accounts) == Total(old(state.accounts))
      ensures forall a :: Get(state.accounts, a).nonce == Get(old(state.accounts), a).nonce
      ensures r != Done ==> state.accounts == old(state.accounts)
      ensures r == Done ==> forall a :: Get(state.accounts, a).balance == Get(old(state.accounts), a).balance
                                        - If(a == msg.from, msg.value) + If(a == addr, msg.value)
    {
      if env.depth > CALL_CREATE_DEPTH {
        return DepthError;
      }
      if Get(state.accounts, msg.from).balance < msg.value {
        return TransferError;
      }
      if addr !in state.accounts {
        if addr !in env.precompiled && env.config.IsSiotImpr2(env.blockNumber) && msg.value == 0 {
          return Done;
        }
        state.CreateAccount(addr);
      }
      state.Transfer(msg.from, addr, msg.value);
      return Done;
    }

    /** Raises the sender's nonce and puts a fresh account at an address, with the balance already held there. */
    method Found(addr: Address)
      modifies state`accounts
      ensures Total(state.accounts) == Total(old(state.accounts))
      ensures forall a :: Get(state.accounts, a).balance == Get(old(state.accounts), a).balance
      ensures forall a :: Get(state.accounts, a).nonce == if a == addr then If(env.config.IsSiotImpr2(env.blockNumber), 1)
                                                          else Get(old(state.accounts), a).nonce + If(a == msg.from, 1)
    {
      state.SetNonce(msg.from, Get(state.accounts, msg.from).nonce + 1);
      state.CreateAccount(addr);
      if env.config.IsSiotImpr2(env.blockNumber) {
        state.SetNonce(addr, 1);
      }
    }

    /** Creation of an account at the address derived from the sender's nonce. */
    method Create() returns (r: CallResult)
      modifies state`accounts
      ensures r == if env.depth > CALL_CREATE_DEPTH then DepthError
                   else if Get(old(state.accounts), msg.from).balance < msg.value then TransferError else Done
      ensures r != Done ==> state.accounts == old(state.accounts)
      ensures var addr := env.createAddress(msg.from, Get(old(state.accounts), msg.from).nonce);
              r == Done ==>
                && (forall a :: Get(state.accounts, a).balance == Get(old(state.accounts), a).balance
                                - If(a == msg.from != addr, msg.value) + If(a == addr, msg.value))
                && Total(state.accounts) == Total(old(state.accounts)) + If(addr == msg.from, msg.value)
                && (addr != msg.from ==>
                      Get(state.accounts, msg.from).nonce == Get(old(state.accounts), msg.from).nonce + 1)
                && Get(state.accounts, addr).nonce == (if env.config.IsSiotImpr2(env.blockNumber) then 1 else 0)
                && (forall a | a != msg.from && a != addr ::
                      Get(state.accounts, a).nonce == Get(old(state.accounts), a).nonce)
    {
      if env.depth > CALL_CREATE_DEPTH {
        return DepthError;
      }
      if Get(state.accounts, msg.from).balance < msg.value {
        return TransferError;
      }
      var addr := env.createAddress(msg.from, Get(state.accounts, msg.from).nonce);
      Found(addr);
      if addr == msg.from {
        state.AddBalance(addr, msg.value); // it is taken from the object that has just been replaced
      } else {
        state.Transfer(msg.from, addr, msg.value);
      }
      return Done;
    }

    /** Returns unused gas to the sender, credits the capped refund and refills the pool.  The refund
        counter is overwritten when it is the smaller of the two amounts compared. */
    method RefundGas()
      requires 0 <= gas <= initialGas && 0 <= state.refund
      modifies this`gas, gp, state
      ensures var before := initialGas - old(gas);
              var refund := if before / 2 <= old(state.refund) then before / 2 else old(state.refund);
              && gas == old(gas) + refund && gp.gas == old(gp.gas) + gas
              && state.accounts == Credit(Credit(old(state.accounts), msg.from, old(gas) * msg.gasPrice),
                                          msg.from, refund * msg.gasPrice)
              && Total(state.accounts) == Total(old(state.accounts)) + old(gas) * msg.gasPrice + refund * msg.gasPrice
      ensures 0 <= state.refund
    {
      state.AddBalance(msg.from, gas * msg.gasPrice);
      var uhalf := (initialGas - gas) / 2;
      var refund := uhalf;
      if uhalf > state.refund {
        refund := state.refund;
        state.refund := refund * msg.gasPrice;
      }
      gas := gas + refund;
      state.AddBalance(msg.from, refund * msg.gasPrice);
      gp.AddGas(gas);
    }

    /** Creates the sender's account if the state does not have it. */
    method EnsureAccount(a: Address)
      modifies state`accounts
      ensures state.accounts.Keys == old(state.accounts).Keys + {a}
      ensures Total(state.accounts) == Total(old(state.accounts))
      ensures forall b :: Get(state.accounts, b) == Get(old(state.accounts), b)
    {
      if a !in state.accounts {
        state.CreateAccount(a);
      }
    }

    method PreCheck() returns (err: Option<TxError>)
      requires gas == 0
      modifies this, gp, state`accounts
      ensures var sender, cost := Get(old(state.accounts), msg.from), msg.gas * msg.gasPrice;
              err == if msg.checkNonce && sender.nonce != msg.nonce then Some(WrongTxNonce)
                     else if sender.balance < cost then Some(CannotBuyGas)
                     else if old(gp.gas) < msg.gas then Some(GasLimitReached) else None
      ensures err.None? ==>
                && gas == initialGas == msg.gas && gp.gas == old(gp.gas) - msg.gas && msg.from in state.accounts
                && Total(state.accounts) == Total(old(state.accounts)) - msg.gas * msg.gasPrice
                && (forall a :: Get(state.accounts, a).nonce == Get(old(state.accounts), a).nonce)
                && (forall a :: Get(state.accounts, a).balance
                                == Get(old(state.accounts), a).balance - If(a == msg.from, msg.gas * msg.gasPrice))
      ensures err.Some? ==> gp.gas == old(gp.gas)
    {
      EnsureAccount(msg.from);
      if msg.checkNonce && Get(state.accounts, msg.from).nonce != msg.nonce {
        return Some(WrongTxNonce);
      }
      err := BuyGas();
    }

    /** Raises the sender's nonce and moves the value, by a call or by a creation. */
    method Execute() returns (r: CallResult)
      requires env.depth == 0 && msg.from in state.accounts
      modifies state`accounts
      ensures r == if Get(old(state.accounts), msg.from).balance < msg.value then TransferError else Done
      ensures r != Done ==> Total(state.accounts) == Total(old(state.accounts))
      ensures r == Done ==>
                var target, self := Target(env, msg, old(state.accounts)), SelfCreated(env, msg, old(state.accounts));
                && Total(state.accounts) == Total(old(state.accounts)) + If(self, msg.value)
                && (forall a :: Get(state.accounts, a).balance == Get(old(state.accounts), a).balance
                                - If(a == msg.from && !self, msg.value) + If(a == target, msg.value))
                && (forall a :: Get(state.accounts, a).nonce == NextNonce(env, msg, old(state.accounts), a))
    {
      if msg.to.None? {
        r := Create();
      } else {
        state.SetNonce(msg.from, Get(state.accounts, msg.from).nonce + 1);
        EnsureAccount(msg.to.value);
        r := Call(msg.to.value);
      }
    }

    /** Refunds the sender and pays the miner for the gas used. */
    method Settle(ghost igas: nat) returns (usedGas: nat)
      requires 0 <= gas && initialGas == gas + igas && 0 <= state.refund
      modifies this`gas, gp, state
      ensures usedGas == igas - if igas / 2 <= old(state.refund) then igas / 2 else old(state.refund)
      ensures gp.gas == old(gp.gas) + initialGas - usedGas
      ensures Total(state.accounts) == Total(old(state.accounts)) + initialGas * msg.gasPrice
      ensures forall a :: Get(state.accounts, a).nonce == Get(old(state.accounts), a).nonce
      ensures forall a :: Get(state.accounts, a).balance
                          == Get(old(state.accounts), a).balance
                             + If(a == msg.from, initialGas * msg.gasPrice - usedGas * msg.gasPrice)
                             + If(a == env.coinbase, usedGas * msg.gasPrice)
      ensures 0 <= state.refund
    {
      ghost var unused, price := gas, msg.gasPrice;
      RefundGas();
      usedGas := initialGas - gas;
      state.AddBalance(env.coinbase, usedGas * msg.gasPrice);
      assert unused * price + (gas - unused) * price == initialGas * price - usedGas * price by {
        Distribute(unused, gas - unused, usedGas, price);
      }
    }

    /** Applies the message.  It succeeds exactly when the state before it and the pool allow it, and then
        every balance moves by `Delta`, the sender's nonce rises by one, the pool loses exactly the gas
        used and the sum of all balances stays the same, except for a creation at the sender's own address. */
    method TransitionDb() returns (usedGas: nat, err: Option<TxError>)
      requires gas == 0 && env.depth == 0 && 0 <= state.refund
      modifies this, gp, state
      ensures err == Verdict(env, msg, old(state.accounts), old(gp.gas))
      ensures err.None? ==>
                && usedGas == UsedGas(env, msg, old(state.refund))
                && gp.gas == old(gp.gas) - usedGas
                && Total(state.accounts) ==
                   Total(old(state.accounts)) + If(SelfCreated(env, msg, old(state.accounts)), msg.value)
                && (forall a :: Get(state.accounts, a).balance
                                == Get(old(state.accounts), a).balance + Delta(env, msg, old(state.accounts), usedGas, a))
                && (forall a :: Get(state.accounts, a).nonce == NextNonce(env, msg, old(state.accounts), a))
      ensures err.None? ==>
                var m, target := old(state.accounts), Target(env, msg, old(state.accounts));
                && (!SelfCreated(env, msg, m) ==> Get(state.accounts, msg.from).nonce == Get(m, msg.from).nonce + 1)
                && (forall a | a != msg.from && (msg.to.Some? || a != target) ::
                      Get(state.accounts, a).nonce == Get(m, a).nonce)
                && (msg.to.None? ==>
                      Get(state.accounts, target).nonce == if env.config.IsSiotImpr2(env.blockNumber) then 1 else 0)
      ensures err.Some? ==>
                gp.gas == old(gp.gas) - If(err == Some(OutOfIntrinsicGas) || err == Some(CannotTransfer), msg.gas)
      ensures 0 <= state.refund
    {
      usedGas := 0;
      err := PreCheck();
      if err.Some? {
        return;
      }
      var igas := IntrinsicGas(msg.data, msg.to.None?, env.config.IsHomestead(env.blockNumber));
      if gas < igas {
        return 0, Some(OutOfIntrinsicGas);
      }
      gas := gas - igas;
      var r := Execute();
      if r == TransferError {
        return 0, Some(CannotTransfer);
      }
      usedGas := Settle(igas);
    }
  }

  /** Between three different accounts the sender pays value and fee, the target gets the value and the miner the fee. */
  lemma DeltaApart(env: Env, msg: Message, m: Accounts, used: nat, a: Address)
    requires var target := Target(env, msg, m); msg.from != target && target != env.coinbase && env.coinbase != msg.from
    ensures Delta(env, msg, m, used, a) ==
            if a == msg.from then -msg.value - used * msg.gasPrice
            else if a == Target(env, msg, m) then msg.value
            else if a == env.coinbase then used * msg.gasPrice else 0
  {
  }

  /** What a message must meet: the sender's nonce, a balance for gas and value, room in the pool and gas for its data.  The
      errors come in the order nonce, price of the gas, pool, gas for the data, value. */
  lemma VerdictMeans(env: Env, msg: Message, m: Accounts, pool: int)
    ensures Verdict(env, msg, m, pool).None? <==>
            && (msg.checkNonce ==> Get(m, msg.from).nonce == msg.nonce) && 0 <= Get(m, msg.from).balance - msg.gas * msg.gasPrice
            && msg.value <= Get(m, msg.from).balance - msg.gas * msg.gasPrice
            && IntrinsicOf(env, msg) <= msg.gas <= pool
    ensures var sender, cost, err := Get(m, msg.from), msg.gas * msg.gasPrice, Verdict(env, msg, m, pool);
            var due := msg.checkNonce ==> sender.nonce == msg.nonce;
            && (err == Some(WrongTxNonce) <==> !due)
            && (err == Some(CannotBuyGas) <==> due && sender.balance < cost)
            && (err == Some(GasLimitReached) <==> due && cost <= sender.balance && pool < msg.gas)
            && (err == Some(OutOfIntrinsicGas) <==>
                due && cost <= sender.balance && msg.gas <= pool && msg.gas < IntrinsicOf(env, msg))
            && (err == Some(CannotTransfer) <==>
                due && cost <= sender.balance < cost + msg.value && IntrinsicOf(env, msg) <= msg.gas <= pool)
  {
  }

  lemma Distribute(x: int, y: int, z: int, p: int)
    ensures x * p + y * p == (x + y + z) * p - z * p
  {
  }

  /** Gas used lies between half the intrinsic gas, rounded up, and the gas bought. */
  lemma UsedGasBounds(env: Env, msg: Message, m: Accounts, pool: int, refund: nat)
    requires Verdict(env, msg, m, pool).None?
    ensures (IntrinsicOf(env, msg) + 1) / 2 <= UsedGas(env, msg, refund) <= IntrinsicOf(env, msg) <= msg.gas
    ensures UsedGas(env, msg, 0) == IntrinsicOf(env, msg)
  {
  }
}
