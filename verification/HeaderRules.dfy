/** Header validity, the gas-limit rule and the header a miner assembles. */
module HeaderRules {
  import opened ChainTypes
  import FC = ForkChoice

  const MAXIMUM_EXTRA_DATA_SIZE := 32
  const GAS_LIMIT_BOUND_DIVISOR := 1024
  const MIN_GAS_LIMIT := 5000
  const TARGET_GAS_LIMIT := 4712388
  const DAO_FORK_EXTRA_RANGE := 10
  const MAX_BIG := 0xffff_ffff_ffff_ffff_ffff_ffff_ffff_ffff_ffff_ffff_ffff_ffff_ffff_ffff_ffff_ffff
  const MAX_INT64 := 0x7fff_ffff_ffff_ffff

  /** The bytes of "dao-hard-fork". */
  const DAO_FORK_BLOCK_EXTRA: seq<Byte> :=
    [0x64, 0x61, 0x6f, 0x2d, 0x68, 0x61, 0x72, 0x64, 0x2d, 0x66, 0x6f, 0x72, 0x6b]

  datatype ChainConfig = ChainConfig(homesteadBlock: Option<nat>, daoForkBlock: Option<nat>, daoForkSupport: bool,
                                     siotImpr0Block: Option<nat>, siotImpr0Hash: Hash, siotImpr2Block: Option<nat>)
  {
    predicate IsHomestead(number: nat) {
      homesteadBlock.Some? && number >= homesteadBlock.value
    }

    predicate IsSiotImpr2(number: nat) {
      siotImpr2Block.Some? && number >= siotImpr2Block.value
    }

    predicate InDaoRange(number: nat) {
      daoForkBlock.Some? && daoForkBlock.value <= number < daoForkBlock.value + DAO_FORK_EXTRA_RANGE
    }

    predicate ForkHashOk(header: Header) {
      siotImpr0Block == Some(header.number) ==> siotImpr0Hash == Zero || siotImpr0Hash == Digest(header)
    }
  }

  datatype HeaderError =
    ExtraTooLong | TimeTooBig | FutureTime | TimeNotAfterParent | WrongDifficulty | WrongGasLimit | WrongNumber |
    WrongNonce | WrongDaoExtra | WrongForkHash

  function CalcDifficulty(time: int, parent: Header): int {
    FC.DIFFICULTY
  }

  function Abs(x: int): nat {
    if x < 0 then -x else x
  }

  predicate ValidDaoExtra(config: ChainConfig, header: Header) {
    config.InDaoRange(header.number) ==> (config.daoForkSupport <==> header.extra == DAO_FORK_BLOCK_EXTRA)
  }

  predicate GasLimitOk(header: Header, parent: Header) {
    && Abs(parent.gasLimit - header.gasLimit) < parent.gasLimit / GAS_LIMIT_BOUND_DIVISOR
    && header.gasLimit >= MIN_GAS_LIMIT
  }

  /** The first rule a header breaks against its parent, if any.  `now` is the clock and `pow` the
      proof-of-work verifier. */
  function ValidateHeader(config: ChainConfig, pow: Header -> bool, header: Header, parent: Header, now: int,
                          checkPow: bool, uncle: bool): Option<HeaderError>
  {
    if |header.extra| > MAXIMUM_EXTRA_DATA_SIZE then Some(ExtraTooLong)
    else if uncle && header.time > MAX_BIG then Some(TimeTooBig)
    else if !uncle && header.time > now then Some(FutureTime)
    else if header.time <= parent.time then Some(TimeNotAfterParent)
    else if CalcDifficulty(header.time, parent) != header.difficulty then Some(WrongDifficulty)
    else if !GasLimitOk(header, parent) then Some(WrongGasLimit)
    else if header.number - parent.number != 1 then Some(WrongNumber)
    else if checkPow && !pow(header) then Some(WrongNonce)
    else if !ValidDaoExtra(config, header) then Some(WrongDaoExtra)
    else if !config.ForkHashOk(header) then Some(WrongForkHash)
    else None
  }

  /** Which headers are accepted, field by field. */
  lemma AcceptedIff(config: ChainConfig, pow: Header -> bool, h: Header, parent: Header, now: int, checkPow: bool, uncle: bool)
    ensures ValidateHeader(config, pow, h, parent, now, checkPow, uncle).None? <==>
            && |h.extra| <= 32 && parent.time < h.time && (if uncle then h.time <= MAX_BIG else h.time <= now)
            && h.difficulty == 0x2000 && h.number == parent.number + 1
            && 5000 <= h.gasLimit && -(parent.gasLimit / 1024) < h.gasLimit - parent.gasLimit < parent.gasLimit / 1024
            && (checkPow ==> pow(h))
            && (config.daoForkBlock.Some? && 0 <= h.number - config.daoForkBlock.value < 10 ==>
                  (config.daoForkSupport <==> h.extra == DAO_FORK_BLOCK_EXTRA))
            && (config.siotImpr0Block == Some(h.number) && config.siotImpr0Hash != Zero ==> config.siotImpr0Hash == Digest(h))
  {
  }

  /** The gas limit a miner gives the next block. */
  function CalcGasLimit(parent: Header): int {
    var contrib := parent.gasUsed * 3 / 2 / GAS_LIMIT_BOUND_DIVISOR;
    var decay := parent.gasLimit / GAS_LIMIT_BOUND_DIVISOR - 1;
    var gl := parent.gasLimit - decay + contrib;
    var floored := if gl < MIN_GAS_LIMIT then MIN_GAS_LIMIT else gl;
    if floored < TARGET_GAS_LIMIT then
      (if parent.gasLimit + decay > TARGET_GAS_LIMIT then TARGET_GAS_LIMIT else parent.gasLimit + decay)
    else floored
  }

  /** Whatever the parent used, the miner's gas limit obeys the consensus rule. */
  lemma GasLimitInBounds(parent: Header)
    requires parent.gasUsed <= parent.gasLimit && parent.gasLimit >= MIN_GAS_LIMIT
    ensures CalcGasLimit(parent) >= MIN_GAS_LIMIT
    ensures Abs(parent.gasLimit - CalcGasLimit(parent)) < parent.gasLimit / GAS_LIMIT_BOUND_DIVISOR
  {
    var contrib := parent.gasUsed * 3 / 2 / GAS_LIMIT_BOUND_DIVISOR;
    var decay := parent.gasLimit / GAS_LIMIT_BOUND_DIVISOR - 1;
    assert 0 <= contrib <= parent.gasLimit * 3 / 2 / GAS_LIMIT_BOUND_DIVISOR;
    assert 2 * contrib <= 3 * (decay + 2);
    if parent.gasLimit - decay + contrib >= TARGET_GAS_LIMIT {
      assert decay >= 1000;
    }
  }

  /** Above the target the gas limit follows the use: a full parent raises it, an empty one lowers it. */
  lemma GasLimitFollowsUse(parent: Header)
    requires 2 * TARGET_GAS_LIMIT <= parent.gasLimit
    ensures parent.gasUsed == parent.gasLimit ==> parent.gasLimit < CalcGasLimit(parent)
    ensures parent.gasUsed == 0 ==> CalcGasLimit(parent) == parent.gasLimit - parent.gasLimit / 1024 + 1
  {
  }

  /** Miners' gas limits grow until they reach the target and never fall below it again. */
  lemma GasLimitReachesTarget(parent: Header)
    requires parent.gasUsed <= parent.gasLimit && parent.gasLimit >= MIN_GAS_LIMIT
    ensures CalcGasLimit(parent) > parent.gasLimit || CalcGasLimit(parent) >= TARGET_GAS_LIMIT
  {
  }

  /** The header `commitNewWork` builds on `parent` when the clock shows `start`. */
  function AssembleHeader(config: ChainConfig, parent: Header, start: int, coinbase: Address, extra: seq<Byte>,
                          nonce: nat, txs: seq<Tx>, uncles: seq<Header>): Header
    requires parent.gasUsed <= parent.gasLimit && parent.gasLimit >= MIN_GAS_LIMIT
  {
    var tstamp := if parent.time >= start then parent.time + 1 else start;
    var number := parent.number + 1;
    var extra' := if config.InDaoRange(number) then
                    (if config.daoForkSupport then DAO_FORK_BLOCK_EXTRA
                     else if extra == DAO_FORK_BLOCK_EXTRA then [] else extra)
                  else extra;
    GasLimitInBounds(parent);
    Header(Digest(parent), number, CalcDifficulty(tstamp, parent), tstamp, CalcGasLimit(parent), 0, coinbase,
           extra', nonce, txs, uncles, map[])
  }

  /** What the miner's header names: its place, its miner, and the time on the clock or just after the parent. */
  lemma AssembledHeaderNames(config: ChainConfig, parent: Header, start: int, coinbase: Address, extra: seq<Byte>, nonce: nat,
                             txs: seq<Tx>, uncles: seq<Header>)
    requires parent.gasUsed <= parent.gasLimit && parent.gasLimit >= MIN_GAS_LIMIT
    ensures var h := AssembleHeader(config, parent, start, coinbase, extra, nonce, txs, uncles);
            && h.parentHash == Digest(parent) && h.number == parent.number + 1 && h.coinbase == coinbase && h.nonce == nonce
            && h.txs == txs && h.uncles == uncles && start <= h.time && parent.time < h.time
            && (h.time == start || h.time == parent.time + 1)
            && (!config.InDaoRange(h.number) ==> h.extra == extra)
  {
  }

  /** A mined header, whatever gas its transactions use and whatever root it names, breaks no rule of its own making:
      against a valid parent it is accepted exactly when the clock has reached its time, its nonce verifies if checked,
      and a fork hash pinned to its number is its own. */
  lemma AssembledHeaderAccepted(config: ChainConfig, pow: Header -> bool, parent: Header, start: int, coinbase: Address,
                                extra: seq<Byte>, nonce: nat, txs: seq<Tx>, uncles: seq<Header>, gasUsed: nat,
                                root: Accounts, now: int, checkPow: bool)
    requires parent.gasUsed <= parent.gasLimit && parent.gasLimit >= MIN_GAS_LIMIT && parent.time < MAX_INT64
    requires |extra| <= MAXIMUM_EXTRA_DATA_SIZE
    ensures var h := AssembleHeader(config, parent, start, coinbase, extra, nonce, txs, uncles)
                     .(gasUsed := gasUsed, root := root);
            ValidateHeader(config, pow, h, parent, now, checkPow, false).None? <==>
            h.time <= now && (checkPow ==> pow(h)) && config.ForkHashOk(h)
  {
    GasLimitInBounds(parent);
  }

  /** What an accepted header owes its parent, the clock, the proof of work and the fork. */
  lemma AcceptedHeaderFits(config: ChainConfig, pow: Header -> bool, h: Header, parent: Header, now: int,
                           checkPow: bool, uncle: bool)
    requires ValidateHeader(config, pow, h, parent, now, checkPow, uncle).None?
    ensures h.number == parent.number + 1 && h.difficulty == FC.DIFFICULTY && parent.time < h.time
    ensures !uncle ==> h.time <= now
    ensures checkPow ==> pow(h)
    ensures MIN_GAS_LIMIT <= h.gasLimit && |h.extra| <= MAXIMUM_EXTRA_DATA_SIZE
    ensures 1023 * parent.gasLimit < 1024 * h.gasLimit < 1025 * parent.gasLimit
    ensures config.InDaoRange(h.number) ==> (h.extra == DAO_FORK_BLOCK_EXTRA <==> config.daoForkSupport)
  {
  }
}
