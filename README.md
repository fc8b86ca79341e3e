# Whitelist escrow (`SolHolder`) in Dafny

The repository holds two near-identical Anchor programs for Solana,
`solana_grid_game` and `valorant_performance_ledger`. Each program keeps one
`SolHolder` account. The account is an escrow with five slots, and only the
five keys on its whitelist may deposit. It holds:

- the authority;
- the five allowed depositor keys;
- the five deposit amounts (`u64`);
- `total_collected` (`u64`);
- `depositors_count` (`u8`);
- in the grid game only, `expiry_time` (`i64`).

`initialize` creates the account. `deposit` runs its guards in a fixed order:

1. The round has not expired (grid game only).
2. The caller's key is on the whitelist. The slot used is the first position holding that key.
3. That slot is still zero.

Then `deposit` performs the system-program transfer. Only after the transfer does it write the slot, add the amount to the total and increment the count.

Each program is modelled in its own module:

- `SolanaGridGame` (`solana_grid_game.dfy`);
- `ValorantPerformanceLedger` (`valorant_performance_ledger.dfy`).

Each module has three layers:

- A value `Record` of the account.
- A function `DepositTransition` that specifies one `deposit` instruction. It says which outcome the instruction has and what the account then holds.
- A class `SolHolder` whose fields are the account's fields. The whitelist and the slots are arrays of length five. The constructor `Initialize` models `initialize`. The method `Position` is the whitelist scan done by `Iterator::position`. The method `Deposit` updates the arrays and counters in place, and its postcondition ties the new state to `DepositTransition`.

`Escrow` (`escrow.dfy`) holds the definitions both programs share:

- the integer widths;
- the 32-byte `Pubkey`;
- `FirstIndex`, the first-match lookup;
- `Sum` and `NonZeroCount` over the slots, with their update lemmas.

`LedgerMatchesGridGame` (`correspondence.dfy`) proves that the ledger is the grid game without the expiry gate.

Boundaries of the model:

- The clock reading `Clock::get()?.unix_timestamp` is the parameter `now`.
- The outcome of the system-program transfer is the parameter `transferOk`.
- The `+=` on `total_collected` (`u64`) or `depositors_count` (`u8`) can overflow. The model treats an overflow as a failure, `ArithmeticOverflow`, that aborts the whole instruction, so the account is left as it was. Wrap-around is never modelled.
- The overflow is checked before the writes. In the program, the slot is written first and the addition then panics. The runtime rolls back the whole transaction, so the account ends up the same either way.

`Accounting` is the invariant kept by every deposit. It has two parts:

- `total_collected` is the sum of the slots.
- The number of non-zero slots is at most `depositors_count`.

The count is not equal to the number of non-zero slots. A deposit of zero succeeds and leaves its slot at zero, so the same caller can deposit again, and `depositors_count` counts successful calls. The tests and the field's comment suggest one deposit per wallet. The model follows the code, and `ZeroDepositRepeats` and `CountDiffersFromNonZeroSlots` state this behaviour.

## Model

| member | source | states |
|---|---|---|
| `Escrow.FirstIndex` | programs/solana_grid_game/src/lib.rs:44-46 | The result is the least index holding the key: that index holds the key and no earlier one does. It is `None` exactly when the key is not in the whitelist. |
| `Escrow.FirstIndexIs` | programs/valorant_performance_ledger/src/lib.rs:33-35 | An index that holds the key, with no earlier index holding it, is the one the lookup returns. |
| `Escrow.SumUpdate` | programs/solana_grid_game/src/lib.rs:65-66 | Overwriting one slot changes the total of the slots by the new amount minus the old one. |
| `Escrow.NonZeroCountFill` | programs/solana_grid_game/src/lib.rs:65-67 | Filling a zero slot with `v` adds one non-zero slot exactly when `v` is non-zero. |
| `Escrow.ZeroSlots` | programs/solana_grid_game/src/lib.rs:27-28 | All-zero slots sum to zero and contain no non-zero slot. |
| `SolanaGridGame.InitialRecord` | programs/solana_grid_game/src/lib.rs:22-32 | The new account has five entries in each array and satisfies the accounting invariant, with no non-zero slot. |
| `SolanaGridGame.DepositTransition` | programs/solana_grid_game/src/lib.rs:34-69 | Every failure leaves the account unchanged. The outcome is `FundingTimeExpired` whenever `now >= expiry_time`, for any caller, because that check runs first. Before expiry: a non-whitelisted caller gets `UnauthorizedDepositAddress`; a non-zero first slot gives `AlreadyDeposited`; a failed transfer gives `TransferFailed`. Success happens exactly when all guards pass, the transfer succeeds and neither addition overflows. On success only the caller's first slot (set to `amount`), the total (plus `amount`) and the count (plus one) change. |
| `SolanaGridGame.DepositPreservesAccounting` | programs/solana_grid_game/src/lib.rs:49-67 | Every deposit, successful or not, keeps `total_collected == sum(deposits)` and keeps the number of non-zero slots at most `depositors_count`. |
| `SolanaGridGame.DuplicateKeyUsesFirstSlot` | programs/solana_grid_game/src/lib.rs:44-45 | A key listed at two positions never changes the later slot. |
| `SolanaGridGame.ZeroDepositRepeats` | programs/solana_grid_game/src/lib.rs:49-67 | Two deposits of zero by the same caller both succeed. They leave the slots and the total as they were and add two to the count. |
| `SolanaGridGame.CountDiffersFromNonZeroSlots` | programs/solana_grid_game/src/lib.rs:22-67 | From a freshly initialized account, two zero deposits reach a count of 2 with no non-zero slot. |
| `SolanaGridGame.FundingRoundScenario` | tests/solana_grid_game.ts:59-317 | Replays the test suite. The first key's 1 SOL deposit is recorded in slot 0, the total and the count. An outsider is refused. Three more keys deposit, giving slots `[1 SOL ×4, 0]`, a total of 4 SOL and a count of 4. A repeat deposit is refused with `AlreadyDeposited`. An expired round refuses with `FundingTimeExpired`. |
| `SolanaGridGame.SolHolder.Snapshot` | programs/solana_grid_game/src/lib.rs:96-103 | The account's fields, read as a `Record`; five-entry arrays give a well-formed record. |
| `SolanaGridGame.SolHolder.Initialize` | programs/solana_grid_game/src/lib.rs:22-32 | The signer is the authority, the whitelist equals the argument, all five slots are zero, the total and the count are zero, and the expiry time equals the argument. The accounting invariant holds. |
| `SolanaGridGame.SolHolder.Position` | programs/solana_grid_game/src/lib.rs:44-46 | Scans the whitelist array and returns the first matching index, or `None` when no slot matches. |
| `SolanaGridGame.SolHolder.Deposit` | programs/solana_grid_game/src/lib.rs:34-69 | The outcome returned and the account afterwards are those of `DepositTransition`. The accounting invariant is preserved. |
| `ValorantPerformanceLedger.InitialRecord` | programs/valorant_performance_ledger/src/lib.rs:17-26 | The new account has five entries in each array and satisfies the accounting invariant, with no non-zero slot. |
| `ValorantPerformanceLedger.DepositTransition` | programs/valorant_performance_ledger/src/lib.rs:28-59 | Every failure leaves the account unchanged. A non-whitelisted caller gets `UnauthorizedDepositAddress`; a non-zero first slot gives `AlreadyDeposited`; a failed transfer gives `TransferFailed`. Success happens exactly when the guards pass, the transfer succeeds and nothing overflows. On success only the caller's first slot, the total (plus `amount`) and the count (plus one) change. |
| `ValorantPerformanceLedger.DepositPreservesAccounting` | programs/valorant_performance_ledger/src/lib.rs:38-56 | Every deposit keeps the total equal to the sum of the slots and keeps the number of non-zero slots at most the count. |
| `ValorantPerformanceLedger.DuplicateKeyUsesFirstSlot` | programs/valorant_performance_ledger/src/lib.rs:33-34 | A key listed at two positions never changes the later slot. |
| `ValorantPerformanceLedger.ZeroDepositRepeats` | programs/valorant_performance_ledger/src/lib.rs:38-56 | Two deposits of zero by the same caller both succeed. They leave the slots and the total as they were and add two to the count. |
| `ValorantPerformanceLedger.CountDiffersFromNonZeroSlots` | programs/valorant_performance_ledger/src/lib.rs:17-56 | From a freshly initialized account, two zero deposits reach a count of 2 with no non-zero slot. |
| `ValorantPerformanceLedger.SolHolder.Snapshot` | programs/valorant_performance_ledger/src/lib.rs:86-92 | The account's fields, read as a `Record`; five-entry arrays give a well-formed record. |
| `ValorantPerformanceLedger.SolHolder.Initialize` | programs/valorant_performance_ledger/src/lib.rs:17-26 | The signer is the authority, the whitelist equals the argument, all five slots are zero, and the total and the count are zero. The accounting invariant holds. |
| `ValorantPerformanceLedger.SolHolder.Position` | programs/valorant_performance_ledger/src/lib.rs:33-35 | Scans the whitelist array and returns the first matching index, or `None` when no slot matches. |
| `ValorantPerformanceLedger.SolHolder.Deposit` | programs/valorant_performance_ledger/src/lib.rs:28-59 | The outcome returned and the account afterwards are those of `DepositTransition`. The accounting invariant is preserved. |
| `LedgerMatchesGridGame.InitializeAgrees` | programs/valorant_performance_ledger/src/lib.rs:17-26 | Both programs' `initialize` create the same account apart from the grid game's expiry time. |
| `LedgerMatchesGridGame.DepositAgreesBeforeExpiry` | programs/valorant_performance_ledger/src/lib.rs:28-59 | Before expiry, the two programs' deposits give the same outcome and the same account, and the grid game keeps its expiry time. |
| `LedgerMatchesGridGame.OnlyGridGameExpires` | programs/valorant_performance_ledger/src/lib.rs:5-11 | The ledger never reports `FundingTimeExpired`; the grid game reports it for every caller once the round has expired. |

## Left out

- The system-program transfer (grid game lines 52-62, ledger lines 41-51) is a cross-program call. Lamport balances, rent and the movement of SOL are not modelled; only the transfer's success or failure is, as `transferOk`.
- `Clock::get()` is a sysvar read. Its value is the parameter `now`, and the failure of `Clock::get()` itself is not modelled.
- Anchor's account machinery is framework code: the `#[derive(Accounts)]` structs, `init`/`payer`/`space` allocation, signer checks, `declare_id!`, account (de)serialisation and `InitSpace`. `initialize` is modelled as the constructor of a fresh account, because `init` only ever creates a new one.
- The error messages of `#[msg(...)]` and Anchor's numeric error codes are not modelled; only the error names are.
- The `+=` overflow behaviour depends on build flags, and the build configuration is not part of this model. The model treats an overflow as a failed instruction (`ArithmeticOverflow`) and never as wrap-around.
- The test scripts' client-side mismatches are not modelled: the grid-game test passes four keys where the program takes five, and the ledger test calls `initialize` with no arguments. `FundingRoundScenario` uses five distinct keys and never deposits with the fifth.
- The unused `use std::thread::current;` has no behaviour.
