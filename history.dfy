/**
 The ledger over a whole log of deposit calls, processed one at a time in
 order, each either applied in full or rejected in full. The lemmas here
 state what the per-call update rule adds up to.
 */
module StakingHistory {
  import opened Staking

  /** Every accepted deposit in the log has a deadline that fits in a u64. */
  predicate AllLocksFit(config: Config, ds: seq<Deposit>) {
    forall i :: 0 <= i < |ds| ==> LockFits(config, ds[i])
  }

  /** The ledger after the deposits of `ds`, oldest first. */
  function Run(stakes: Stakes, config: Config, ds: seq<Deposit>): (r: Stakes)
    requires AllLocksFit(config, ds)
    ensures stakes.Keys <= r.Keys
    ensures forall a :: StakedOf(stakes, a).amount <= StakedOf(r, a).amount
    decreases |ds|
  {
    if ds == [] then stakes
    else Apply(Run(stakes, config, ds[..|ds| - 1]), config, ds[|ds| - 1])
  }

  /** Whether `d` is a deposit by `address` that passes both guards. */
  predicate AcceptedFrom(config: Config, d: Deposit, address: Address) {
    d.caller == address && Validate(config, d.token, d.amount) == Pass
  }

  /** The sum of the accepted deposits `address` made in `ds`. */
  function TotalAccepted(config: Config, ds: seq<Deposit>, address: Address): nat
    decreases |ds|
  {
    if ds == [] then 0
    else
      var d := ds[|ds| - 1];
      TotalAccepted(config, ds[..|ds| - 1], address) + (if AcceptedFrom(config, d, address) then d.amount else 0)
  }

  /** The epoch of the last accepted deposit `address` made in `ds`, if any. */
  function LastAcceptedEpoch(config: Config, ds: seq<Deposit>, address: Address): Option<U64>
    decreases |ds|
  {
    if ds == [] then None
    else if AcceptedFrom(config, ds[|ds| - 1], address) then Some(ds[|ds| - 1].epoch)
    else LastAcceptedEpoch(config, ds[..|ds| - 1], address)
  }

  /** Accumulation: an address's staked amount is what it had plus all its accepted deposits. */
  lemma {:induction false} RunAmountIsTotal(stakes: Stakes, config: Config, ds: seq<Deposit>, address: Address)
    requires AllLocksFit(config, ds)
    ensures StakedOf(Run(stakes, config, ds), address).amount
            == StakedOf(stakes, address).amount + TotalAccepted(config, ds, address)
    decreases |ds|
  {
    if ds != [] {
      RunAmountIsTotal(stakes, config, ds[..|ds| - 1], address);
    }
  }

  /**
   Overwrite: an address's deadline is the one set by its last accepted
   deposit, however large any earlier deadline was; with no accepted
   deposit it keeps the deadline it had.
   */
  lemma {:induction false} RunLockIsLastDeadline(stakes: Stakes, config: Config, ds: seq<Deposit>, address: Address)
    requires AllLocksFit(config, ds)
    ensures var last := LastAcceptedEpoch(config, ds, address);
            StakedOf(Run(stakes, config, ds), address).lockUntilEpoch
            == if last.Some? then last.value + config.minStakingEpochs
               else StakedOf(stakes, address).lockUntilEpoch
    decreases |ds|
  {
    if ds != [] && !AcceptedFrom(config, ds[|ds| - 1], address) {
      RunLockIsLastDeadline(stakes, config, ds[..|ds| - 1], address);
    }
  }

  /**
   Isolation: an address that made no call keeps exactly its previous
   record, or its absence.
   */
  lemma {:induction false} RunIsolation(stakes: Stakes, config: Config, ds: seq<Deposit>, address: Address)
    requires AllLocksFit(config, ds)
    requires forall i :: 0 <= i < |ds| ==> ds[i].caller != address
    ensures address in Run(stakes, config, ds) <==> address in stakes
    ensures address in stakes ==> Run(stakes, config, ds)[address] == stakes[address]
    decreases |ds|
  {
    if ds != [] {
      RunIsolation(stakes, config, ds[..|ds| - 1], address);
    }
  }

  /** All-or-nothing: a log of rejected calls leaves the whole ledger as it was. */
  lemma {:induction false} RejectedCallsChangeNothing(stakes: Stakes, config: Config, ds: seq<Deposit>)
    requires AllLocksFit(config, ds)
    requires forall i :: 0 <= i < |ds| ==> Validate(config, ds[i].token, ds[i].amount) != Pass
    ensures Run(stakes, config, ds) == stakes
    decreases |ds|
  {
    if ds != [] {
      RejectedCallsChangeNothing(stakes, config, ds[..|ds| - 1]);
    }
  }

  /** A log of calls made at epochs that never go backwards. */
  predicate EpochsNondecreasing(ds: seq<Deposit>) {
    forall i, j :: 0 <= i <= j < |ds| ==> ds[i].epoch <= ds[j].epoch
  }

  /** No stored deadline lies after `bound`. */
  predicate DeadlinesAtMost(stakes: Stakes, bound: int) {
    forall a :: a in stakes ==> stakes[a].lockUntilEpoch <= bound
  }

  /**
   Starting from the empty storage of a fresh deployment, every deadline is
   at most the one the latest call would set.
   */
  lemma {:induction false} RunDeadlinesAtMost(config: Config, ds: seq<Deposit>)
    requires AllLocksFit(config, ds)
    requires EpochsNondecreasing(ds)
    requires ds != []
    ensures DeadlinesAtMost(Run(map[], config, ds), ds[|ds| - 1].epoch + config.minStakingEpochs)
    decreases |ds|
  {
    var prefix := ds[..|ds| - 1];
    var bound := ds[|ds| - 1].epoch + config.minStakingEpochs;
    if prefix != [] {
      RunDeadlinesAtMost(config, prefix);
      assert prefix[|prefix| - 1].epoch <= ds[|ds| - 1].epoch;
    }
    assert DeadlinesAtMost(Run(map[], config, prefix), bound);
  }

  /**
   With a fixed minimum lock and epochs that never go backwards, a deposit
   never moves anyone's deadline back: every deadline after a prefix of the
   log is at most the deadline after the whole log.
   */
  lemma {:induction false} RunLockMonotone(config: Config, ds: seq<Deposit>, k: nat, address: Address)
    requires AllLocksFit(config, ds)
    requires EpochsNondecreasing(ds)
    requires k <= |ds|
    ensures StakedOf(Run(map[], config, ds[..k]), address).lockUntilEpoch
            <= StakedOf(Run(map[], config, ds), address).lockUntilEpoch
    decreases |ds|
  {
    if k < |ds| {
      var prefix := ds[..|ds| - 1];
      assert prefix[..k] == ds[..k];
      RunLockMonotone(config, prefix, k, address);
      if prefix != [] {
        RunDeadlinesAtMost(config, prefix);
      }
    } else {
      assert ds[..k] == ds;
    }
  }
}
