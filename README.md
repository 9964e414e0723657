# Winter-token staking ledger, modelled in Dafny

This project models the staking contract for the WINTER token on MultiversX (the Elrond
`elrond_wasm` framework). Its storage keeps one `StakedTokens` record per address. The record holds
the staked `amount` (a BigUint) and `lock_until_epoch` (a u64). The contract has two operations:

- `stake_token_winter` (the deposit endpoint) checks that the paid token is the configured
  `winter_token_id`, and then that the amount is positive. It adds the amount to the caller's record
  and overwrites the caller's deadline with `current_epoch + min_staking_epochs`.
- `get_staked_tokens` (the view) returns any address's record. An address that was never written
  reads as the zero record.

Files:

- `staking.dfy`, module `Staking`, holds the data model and the update rule.
  - `Validate` is the two guards. `Apply` is the ledger after one deposit.
  - The class `WinterTokenStaking` holds the storage as a `map` field and the two configuration
    values as constant fields.
  - Its method `StakeTokenWinter` does the read-modify-write of the caller's record in place.
    Its `ensures` tie the outcome to `Validate` and the new map to `Apply` of the old one.
  - Its function `GetStakedTokens` is the view.
- `history.dfy`, module `StakingHistory`, runs the rule over a log of calls.
  - Calls are processed one at a time, each applied in full or rejected in full.
  - It proves what the rule adds up to: accumulation, the overwrite of the deadline, isolation,
    rejection with no effect, and deadlines that never move back while epochs do not go back.

The host's inputs are explicit. The caller and the current epoch are parameters of the deposit.
The accepted token and the minimum lock are fixed when the object is constructed.

## Model

| member | source | states |
|---|---|---|
| `Staking.Validate` | contract.rs:28-29 | a deposit passes iff the token is the accepted one and the amount is positive; a wrong token gives InvalidToken even when the amount is also zero (the token is checked first); the right token with a zero amount gives InvalidAmount |
| `Staking.Apply` | contract.rs:27-37 | a rejected deposit leaves the whole ledger unchanged; an accepted one makes the caller's amount the old amount (0 when absent) plus the deposit and its deadline `epoch + min_staking_epochs` whatever it was before; every other address keeps exactly its record or its absence; no record is deleted; no amount decreases |
| `Staking.TwoDepositsAccumulate` | contract.rs:34-35 | two accepted deposits `a1`, `a2` by one caller raise its amount by `a1 + a2` |
| `Staking.OverwriteCanShortenLock` | contract.rs:32-36 | the deadline is overwritten, not maximised: after a deadline of 200, a deposit at epoch 105 under a minimum of 10 sets it to 115 |
| `Staking.WinterTokenStaking.constructor` | lib.rs:16-17 | a freshly deployed contract holds no stake record and the given configuration |
| `Staking.WinterTokenStaking.StakeTokenWinter` | contract.rs:17-38 | the outcome is the guards' verdict; a rejected call leaves the storage unchanged; the new storage is `Apply` of the old one for this caller, token, amount and epoch |
| `Staking.WinterTokenStaking.GetStakedTokens` | contract.rs:42-48 | returns the stored record of the address, or `(0, 0)` when the address never deposited; it reads the storage and changes nothing |
| `Staking.WorkedTrace` | contract.rs:32-37 | with minimum lock 10, depositing 50 at epoch 100 gives `(50, 110)`, then 25 at epoch 105 gives `(75, 115)`, and an unknown address reads `(0, 0)` |
| `StakingHistory.Run` | contract.rs:34-37 | over any log of calls, no record disappears and no address's amount decreases |
| `StakingHistory.RunAmountIsTotal` | contract.rs:34-35 | after a log of calls, an address's amount is its starting amount plus the sum of its accepted deposits |
| `StakingHistory.RunLockIsLastDeadline` | contract.rs:32-36 | after a log of calls, an address's deadline is the epoch of its last accepted deposit plus the minimum lock, or its starting deadline if it has no accepted deposit |
| `StakingHistory.RunIsolation` | contract.rs:34-37 | an address that made no call in the log keeps exactly its previous record or its absence |
| `StakingHistory.RejectedCallsChangeNothing` | contract.rs:28-29 | a log of rejected calls leaves the whole ledger as it was |
| `StakingHistory.RunDeadlinesAtMost` | contract.rs:32-36 | starting from empty storage with epochs that never go back, no stored deadline exceeds the one the latest call would set |
| `StakingHistory.RunLockMonotone` | contract.rs:32-36 | starting from empty storage, with a fixed minimum lock and epochs that never go back, no address's deadline after a prefix of the log exceeds its deadline after the whole log |

## Left out

- The contract macros, the empty `init` and the one-line delegating endpoints in `lib.rs` (lib.rs:11-45). They are interface glue. The constructor stands for deployment.
- The `WinterTokenStaking` trait at contract.rs:51-61. Its host and storage accessors are replaced by parameters, constant fields and the `stakes` map. Its declaration at line 56 is malformed as written and is not reproduced.
- Settlement of the payment itself (`#[payment_token]`, `#[payment_amount]`). The host performs it before the endpoint runs; the model takes the token and the amount as given.
- BigUint internals and the storage encoding. The amount is a mathematical `nat` and storage is a `map`.
- Where the configuration is written. Nothing in the source writes `winter_token_id` or `min_staking_epochs`; the model takes both as constructor arguments.
- Staking.WinterTokenStaking.StakeTokenWinter: requires that an accepted deposit's `current_epoch + min_staking_epochs` is below 2^64. The source adds two u64 values unchecked (contract.rs:32), and its overflow behaviour depends on the build. No wrap-around or saturation is modelled. A rejected call needs nothing of its epoch, because the addition is only reached after both guards.
- Concurrency: calls are taken one at a time, as the chain executes them.
