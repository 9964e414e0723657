/**
 A model of the winter-token staking ledger: a per-address record of how many
 tokens were staked and the epoch until which they stay locked, the deposit
 endpoint that validates a payment and updates the caller's record, and the
 query that reads any address's record.

 The host supplies the caller, the current epoch and the two configuration
 values; here they are explicit parameters and constant fields.
 */
module Staking {

  /** Epochs and the lock deadline are unsigned 64-bit integers. */
  const U64_BOUND: int := 0x1_0000_0000_0000_0000
  type U64 = x: int | 0 <= x < U64_BOUND

  /** An account address, as raw bytes. */
  type Address = seq<bv8>

  /** A token identifier such as "WINTER-1a2b3c". */
  type TokenIdentifier = string

  datatype Option<T> = None | Some(value: T)

  /** What one address has staked; `amount` is an unbounded BigUint. */
  datatype StakedTokens = StakedTokens(amount: nat, lockUntilEpoch: U64)

  /** The storage: one record per address that has ever been written. */
  type Stakes = map<Address, StakedTokens>

  datatype StakeError = InvalidToken | InvalidAmount

  /** Either the deposit went through, or the whole call was rejected. */
  datatype Outcome = Pass | Fail(error: StakeError)

  /** The two stored configuration values the deposit reads. */
  datatype Config = Config(winterTokenId: TokenIdentifier, minStakingEpochs: U64)

  /** One call of the deposit endpoint: who paid, what, how much, and when. */
  datatype Deposit = Deposit(caller: Address, token: TokenIdentifier, amount: nat, epoch: U64)

  /**
   The storage mapper's read: the stored record, or the default all-zero
   record for an address that was never written.
   */
  function StakedOf(stakes: Stakes, address: Address): StakedTokens {
    if address in stakes then stakes[address] else StakedTokens(0, 0)
  }

  /**
   The two guards of the deposit, in the order the endpoint checks them:
   the token first, then the amount.
   */
  function Validate(config: Config, token: TokenIdentifier, amount: nat): (r: Outcome)
    ensures r == Pass <==> token == config.winterTokenId && amount > 0
    ensures token != config.winterTokenId ==> r == Fail(InvalidToken)
    ensures token == config.winterTokenId && amount == 0 ==> r == Fail(InvalidAmount)
  {
    if token != config.winterTokenId then Fail(InvalidToken)
    else if amount == 0 then Fail(InvalidAmount)
    else Pass
  }

  /**
   The new lock deadline of an accepted deposit fits in a u64. The addition
   is only reached once both guards have passed, so a rejected deposit
   needs nothing of its epoch.
   */
  predicate LockFits(config: Config, d: Deposit) {
    Validate(config, d.token, d.amount) == Pass ==> d.epoch + config.minStakingEpochs < U64_BOUND
  }

  /**
   The ledger after one deposit: unchanged when rejected; otherwise the
   caller's amount grows by the deposit and its deadline is overwritten.
   */
  function Apply(stakes: Stakes, config: Config, d: Deposit): (r: Stakes)
    requires LockFits(config, d)
    ensures Validate(config, d.token, d.amount) != Pass ==> r == stakes
    ensures Validate(config, d.token, d.amount) == Pass ==>
              d.caller in r &&
              r[d.caller].amount == StakedOf(stakes, d.caller).amount + d.amount &&
              r[d.caller].lockUntilEpoch == d.epoch + config.minStakingEpochs
    ensures forall a :: a != d.caller ==> (a in r <==> a in stakes)
    ensures forall a :: a != d.caller && a in stakes ==> r[a] == stakes[a]
    ensures stakes.Keys <= r.Keys
    ensures forall a :: StakedOf(stakes, a).amount <= StakedOf(r, a).amount
  {
    if Validate(config, d.token, d.amount) != Pass then stakes
    else
      var prior := StakedOf(stakes, d.caller);
      stakes[d.caller := StakedTokens(prior.amount + d.amount, d.epoch + config.minStakingEpochs)]
  }

  /** Two accepted deposits by one caller add up. */
  lemma TwoDepositsAccumulate(stakes: Stakes, config: Config, d1: Deposit, d2: Deposit)
    requires d1.caller == d2.caller
    requires LockFits(config, d1) && LockFits(config, d2)
    requires Validate(config, d1.token, d1.amount) == Pass
    requires Validate(config, d2.token, d2.amount) == Pass
    ensures StakedOf(Apply(Apply(stakes, config, d1), config, d2), d1.caller).amount
            == StakedOf(stakes, d1.caller).amount + d1.amount + d2.amount
  {
  }

  /**
   The deadline is overwritten, not maximised: when the minimum lock shrinks
   between two deposits, the second one moves the deadline back.
   */
  lemma OverwriteCanShortenLock()
    ensures var alice: Address := [1];
            var first := Apply(map[], Config("WINTER", 100), Deposit(alice, "WINTER", 50, 100));
            var second := Apply(first, Config("WINTER", 10), Deposit(alice, "WINTER", 25, 105));
            StakedOf(first, alice) == StakedTokens(50, 200) &&
            StakedOf(second, alice) == StakedTokens(75, 115)
  {
  }

  /** The contract: the ledger in storage and its configuration. */
  class WinterTokenStaking {
    var stakes: Stakes
    const winterTokenId: TokenIdentifier
    const minStakingEpochs: U64

    function Settings(): Config {
      Config(winterTokenId, minStakingEpochs)
    }

    /** A freshly deployed contract whose storage holds no stake yet. */
    constructor (winterTokenId: TokenIdentifier, minStakingEpochs: U64)
      ensures stakes == map[]
      ensures this.winterTokenId == winterTokenId && this.minStakingEpochs == minStakingEpochs
    {
      this.winterTokenId := winterTokenId;
      this.minStakingEpochs := minStakingEpochs;
      stakes := map[];
    }

    /**
     The deposit endpoint: reject a foreign token, then a zero amount;
     otherwise read the caller's record, add the amount, overwrite the
     deadline with `currentEpoch + minStakingEpochs`, and store it back.
     */
    method StakeTokenWinter(caller: Address, token: TokenIdentifier, amount: nat, currentEpoch: U64)
      returns (outcome: Outcome)
      requires LockFits(Settings(), Deposit(caller, token, amount, currentEpoch))
      modifies this`stakes
      ensures outcome == Validate(Settings(), token, amount)
      ensures outcome != Pass ==> stakes == old(stakes)
      ensures stakes == Apply(old(stakes), Settings(), Deposit(caller, token, amount, currentEpoch))
    {
      if token != winterTokenId {
        return Fail(InvalidToken);
      }
      if amount == 0 {
        return Fail(InvalidAmount);
      }
      var lockUntilEpoch := currentEpoch + minStakingEpochs;
      var staked := StakedOf(stakes, caller);
      staked := staked.(amount := staked.amount + amount);
      staked := staked.(lockUntilEpoch := lockUntilEpoch);
      stakes := stakes[caller := staked];
      outcome := Pass;
    }

    /** The view: any address's record, the zero record if it never staked. */
    function GetStakedTokens(address: Address): (r: StakedTokens)
      reads this
      ensures address in stakes ==> r == stakes[address]
      ensures address !in stakes ==> r.amount == 0 && r.lockUntilEpoch == 0
    {
      StakedOf(stakes, address)
    }
  }

  /**
   With minimum lock 10: 50 staked at epoch 100 gives (50, 110); 25 more at
   epoch 105 gives (75, 115); an address that never staked reads (0, 0).
   */
  method WorkedTrace() returns (first: StakedTokens, second: StakedTokens, stranger: StakedTokens)
    ensures first == StakedTokens(50, 110)
    ensures second == StakedTokens(75, 115)
    ensures stranger == StakedTokens(0, 0)
  {
    var contract := new WinterTokenStaking("WINTER", 10);
    var alice: Address := [1];
    var bob: Address := [2];
    var outcome := contract.StakeTokenWinter(alice, "WINTER", 50, 100);
    first := contract.GetStakedTokens(alice);
    outcome := contract.StakeTokenWinter(alice, "WINTER", 25, 105);
    second := contract.GetStakedTokens(alice);
    stranger := contract.GetStakedTokens(bob);
  }
}
