# Coherence beamsplitter — a Dafny model

The beamsplitter is an on-chain program that builds ETF tokens ("prism ETFs") out of baskets of
constituent tokens. It has four parts:

- **A controller account.** It holds the owner and the default fee rates.
- **One record per ETF.** Each ETF points to a fixed table of up to 100 weighted constituents (mint, weight). The table is filled while the ETF is unfinished and frozen once it is finished.
- **One order record per orderer,** with a parallel table of 100 "transferred" flags. An order works like this:
  - A **construction** order is started, then every constituent is *cohered*: the orderer's share of that constituent is paid into custody. Finalizing mints the ETF tokens, minus a fee shared between the controller's owner and the ETF's manager.
  - A **deconstruction** order burns the ETF tokens when it starts. Each constituent is then *decohered*, which pays it out of custody.
- **Fixed-point arithmetic.** The program uses the `rust_decimal` number type: an integer mantissa with a decimal scale.

The model is laid out as follows:

| module | file | contents |
|---|---|---|
| `Types` | types.dfy | machine integer ranges, keys, the program's error codes, `Result`/`Outcome` |
| `Enums` | enums.dfy | the five enumerations and their default values |
| `FixedPoint` | fixed_point.dfy | decimals as mantissa and scale: multiplication, `set_scale`, subtraction, comparison, truncation to `u64` |
| `TokenLedger` | token_ledger.dfy | an abstract token program: balances and supplies changed by transfer, mint and burn calls |
| `Fees` | fees.dfy | the amount owed for one constituent (cohere/decohere), and the construction fee split |
| `Registry` | registry.dfy | the constituent table, push_tokens, and the registration checks of init_prism_etf, as functions |
| `Orders` | orders.dfy | start_order, cohere, decohere and finalize_order, as functions over snapshots |
| `Accounts` | accounts.dfy | the five account kinds as classes, the two tables with array fields; the creating instructions as constructors; the `set_*` handlers |
| `CoherenceBeamsplitter` | program.dfy | the multi-account handlers as methods that mutate the accounts, each proved against its function in `Registry`/`Orders` composed with its token calls |

Every handler is atomic: when it fails, no account and no balance has changed. init_prism_etf,
push_tokens, start_order, cohere, decohere and finalize_order write before they can fail. In the
methods for the last five the writes are undone on the failing path, which models how the runtime
discards a failed instruction. `InitPrismEtf` writes the new record first and returns it only on
success; on an error it returns no record, which models the discarded account.

Two kinds of abort are modelled as the error `Panic`, not as preconditions:

- an index past the 100-slot arrays;
- a decimal product past the 96-bit mantissa in cohere/decohere.

The code's own quirks are reproduced as written, and their consequences are proved:

- push_tokens checks only the starting length against the capacity.
- cohere reads the flag before the bound.
- decohere bounds the index by the capacity.
- finalize_order assigns 1 to the fee, not to the manager share.
- init_prism_etf compares the mint authority with the controller owner.

## Model

| member | source | states |
|---|---|---|
| `Enums.EnumDefaults` | programs/coherence-beamsplitter/src/enums.rs:9-63 | each enumeration defaults as declared; a default order status is not pending |
| `FixedPoint.SetScale` | programs/coherence-beamsplitter/src/lib.rs:270-273 | `set_scale` succeeds exactly when the scale is at most 28, and keeps the mantissa |
| `FixedPoint.SetScaleDivides` | programs/coherence-beamsplitter/src/lib.rs:270-273 | a rescale from a smaller scale succeeds within the limit and divides the value by 10^(new − old scale) |
| `FixedPoint.ToU64` | programs/coherence-beamsplitter/src/lib.rs:294-296 | `to_u64` returns q with q·10^scale ≤ mantissa < (q+1)·10^scale; it fails exactly for a negative value or one of at least 2^64 |
| `FixedPoint.SubIsExact` | programs/coherence-beamsplitter/src/lib.rs:457-461 | subtraction at the larger scale is exact at every common scale |
| `TokenLedger.TransfersConserve` | programs/coherence-beamsplitter/src/lib.rs:303 | any list of transfers (cohere's and decohere's token calls) changes no supply and keeps the combined balance of every set of distinct accounts that holds all their sources and destinations |
| `TokenLedger.SupplyChange` | programs/coherence-beamsplitter/src/lib.rs:479-526 | a list of token calls changes a mint's supply by what it mints minus what it burns |
| `Fees.RequiredAmount` | programs/coherence-beamsplitter/src/lib.rs:258-273 | the owed amount is exactly amount·weight / 10^decimals, and exists exactly when decimals ≤ 28 |
| `Fees.CohereAmount` | programs/coherence-beamsplitter/src/lib.rs:275-301 | the allowance check fails exactly when delegated·10^d < amount·weight; once it passes, cohere pays max(1, ⌊amount·weight/10^d⌋) without a conversion failure |
| `Fees.CohereNeverTransfersZero` | programs/coherence-beamsplitter/src/lib.rs:298-301 | cohere never transfers zero |
| `Fees.DecohereAmount` | programs/coherence-beamsplitter/src/lib.rs:368-386 | decohere pays ⌊amount·weight/10^d⌋, possibly 0, and fails only when that exceeds 64 bits |
| `Fees.SplitShape` | programs/coherence-beamsplitter/src/lib.rs:424-461 | the three shares at scale 8 in closed form, including the fee floor of 2 and the fee reset to 1 |
| `Fees.SplitConserves` | programs/coherence-beamsplitter/src/lib.rs:457-461 | the orderer, owner and manager shares sum to exactly the ordered amount |
| `Fees.MintsWithinAmount` | programs/coherence-beamsplitter/src/lib.rs:479-526 | the three truncated mints sum to between amount − 2 and amount |
| `Fees.SplitOrdinary` | programs/coherence-beamsplitter/src/lib.rs:424-526 | with fee ≥ 2, manager share ≥ 1 and rates ≤ 100%, the mints are amount − ⌈bps·amount/10^4⌉, the owner's remainder, and ⌊cut·bps·amount/10^8⌋ |
| `Fees.SplitManagerBelowOne` | programs/coherence-beamsplitter/src/lib.rs:438-455 | when the manager share is below one unit, which is always so after the fee floor, the orderer gets amount − 1, the manager 0, and the owner 0 unless the cut is 0 |
| `Fees.OrdererShareConverts` | programs/coherence-beamsplitter/src/lib.rs:424-482 | when the fee is not floored, the manager share is at least one unit and the rate is at most 100%, the orderer's share converts to amount − ⌈bps·amount/10^4⌉ whatever the cut |
| `Fees.ExcessiveCutFails` | programs/coherence-beamsplitter/src/lib.rs:568-574 | when the fee is not floored and the manager share is at least one unit, a manager cut above 100% (never range-checked) leaves the owner's share without a conversion, so the split fails with InvalidArgument |
| `Fees.ExcessiveRateFails` | programs/coherence-beamsplitter/src/lib.rs:576-582 | when the fee is not floored and the manager share is at least one unit, a construction rate above 100% makes the split fail with InvalidArgument |
| `Fees.SplitSucceedsInRange` | programs/coherence-beamsplitter/src/lib.rs:424-526 | with rates ≤ 100% and a nonzero amount, the split always yields three mints |
| `Fees.SplitDefaultExample` | tests/coherence-beamsplitter.ts:1127-1149 | 10^9 units at 90 bps and a 20% cut mint 991,000,000 / 7,200,000 / 1,800,000 |
| `Fees.SplitNeverOverflows` | programs/coherence-beamsplitter/src/lib.rs:429-445 | no multiplication of the split leaves the 96-bit mantissa |
| `Registry.EmptyTable` | programs/coherence-beamsplitter/src/lib.rs:58-66 | a new constituent table is well formed and empty |
| `Registry.LoopFailureNone` | programs/coherence-beamsplitter/src/lib.rs:123-132 | the append loop gets through exactly when every weight is positive and a nonempty list fits below the capacity and within the slots |
| `Registry.PushTokensSucceeds` | programs/coherence-beamsplitter/src/lib.rs:115-137 | push_tokens succeeds exactly when the ETF is unfinished, no weight is zero, and a nonempty list fits within the capacity |
| `Registry.PushTokensAppends` | programs/coherence-beamsplitter/src/lib.rs:123-134 | on success the items occupy positions old length.. in order, the length grows by their count, every other slot is unchanged, and length ≤ capacity still holds |
| `Registry.PushTokensErrors` | programs/coherence-beamsplitter/src/lib.rs:119-131 | IsFinished exactly for a finished ETF; InvalidArgument only with a zero weight; ETFFull only when the starting length is at capacity, and always then for a valid first item; an overrun past the last slot aborts |
| `Registry.RegistrationCheck` | programs/coherence-beamsplitter/src/lib.rs:93-104 | NotMintAuthority exactly when the mint authority is not the controller owner and the manager is not the owner; otherwise NonZeroSupply exactly for a nonzero supply |
| `Orders.NewOrder` | programs/coherence-beamsplitter/src/lib.rs:139-145 | a new order record is not pending and has amount 0 |
| `Orders.NewFlags` | programs/coherence-beamsplitter/src/lib.rs:68-76 | a new flag table is well formed, empty, and has no flag set |
| `Orders.StartOrderContract` | programs/coherence-beamsplitter/src/lib.rs:162-213 | start_order succeeds exactly when no order is pending, the ETF is finished and the amount is positive, with InvalidArgument otherwise; it stores type and amount as pending, sizes the flags to the table without changing any flag, and its only token call is a burn of the amount from the orderer's ETF account for a deconstruction, none for a construction |
| `Orders.CohereTransfers` | programs/coherence-beamsplitter/src/lib.rs:229-303 | a paying cohere was for a pending construction, a clear flag below the length and the right mint, covered by the allowance; it sets only that flag and pays max(1, ⌊amount·weight/10^d⌋) from orderer to custody |
| `Orders.CohereRepeatIsNoOp` | programs/coherence-beamsplitter/src/lib.rs:244-246 | after a successful cohere, any repeat on that index succeeds with no change and no transfer |
| `Orders.CohereErrors` | programs/coherence-beamsplitter/src/lib.rs:233-277 | each named error of cohere happens exactly under its condition, in the code's order; a set flag never errs |
| `Orders.DecohereContract` | programs/coherence-beamsplitter/src/lib.rs:322-389 | decohere succeeds exactly for a pending deconstruction with a clear flag, the slot's mint and a 64-bit payout; it sets only that flag and pays ⌊amount·weight/10^d⌋ from custody; every other failure is InvalidArgument or an abort |
| `Orders.DecohereRepeatRefused` | programs/coherence-beamsplitter/src/lib.rs:337-339 | a repeat decohere of the same index is refused with InvalidArgument |
| `Orders.DecohereIgnoresLength` | programs/coherence-beamsplitter/src/lib.rs:341-348 | an unused slot past the length is accepted when the zero mint is passed; it pays 0 and sets the flag |
| `Orders.ShareMints` | programs/coherence-beamsplitter/src/lib.rs:463-526 | the mints issued are those of the orderer's, owner's and manager's shares, in that order, up to the first share that does not convert; the sequence ends with InvalidArgument at that share, and without error exactly when all three are minted |
| `Orders.ShareMintsComplete` | programs/coherence-beamsplitter/src/lib.rs:463-526 | the mint sequence runs to its end exactly when all three shares convert, and then mints the converted amounts |
| `Orders.FinalizeContract` | programs/coherence-beamsplitter/src/lib.rs:405-529 | finalize completes exactly for a pending order with all its flags set and, for a construction, a convertible split; InvalidArgument exactly when the order is not pending; StillPending exactly when a flag is clear; on success the status is succeeded, the order's flags are cleared and the rest kept, and a construction makes exactly the three split mints |
| `Orders.FinalizeAborts` | programs/coherence-beamsplitter/src/lib.rs:463-526 | a finalize that passes its checks but does not complete is a construction whose split does not convert; it has minted to the orderer and then the owner the shares before the failing one, and aborts with InvalidArgument |
| `Orders.ExcessiveCutAfterOrdererMint` | programs/coherence-beamsplitter/src/lib.rs:463-503 | in the ordinary case with a cut above 100%, finalize mints the orderer's share and then aborts with InvalidArgument on the owner's share, so a failing orderer mint decides the error |
| `Orders.FinalizeMintsAmount` | programs/coherence-beamsplitter/src/lib.rs:424-526 | a finished construction mints between amount − 2 and amount ETF tokens and burns none; a deconstruction mints none |
| `Orders.FinalizeThenStart` | programs/coherence-beamsplitter/src/lib.rs:405-422 | after a successful finalize, start_order accepts the record again, with no flag of the new order set when the table length is unchanged |
| `Orders.NeverCancelled` | programs/coherence-beamsplitter/src/lib.rs:162-529 | no instruction produces a cancelled order: start, cohere and decohere leave it pending, and finalize leaves it succeeded |
| `Orders.FlagsStayValid` | programs/coherence-beamsplitter/src/lib.rs:188-422 | every order instruction keeps the flag table well formed |
| `Accounts.Beamsplitter.Initialize` | programs/coherence-beamsplitter/src/lib.rs:47-56 | the signer becomes the owner, with default rates 90 / 0 / 2000 |
| `Accounts.Beamsplitter.SetOwner` | programs/coherence-beamsplitter/src/lib.rs:534-537 | changes the owner and no other field |
| `Accounts.Beamsplitter.SetDefaultManagerCut` | programs/coherence-beamsplitter/src/lib.rs:539-545 | changes the default manager cut and no other field |
| `Accounts.Beamsplitter.SetDefaultConstructionBps` | programs/coherence-beamsplitter/src/lib.rs:547-553 | changes the default construction rate and no other field |
| `Accounts.Beamsplitter.SetDefaultDeconstructionBps` | programs/coherence-beamsplitter/src/lib.rs:555-561 | changes the default deconstruction rate and no other field |
| `Accounts.PrismEtf.Create` | programs/coherence-beamsplitter/src/lib.rs:85-91 | a new ETF is unfinished, with the controller's current rates and default rebalancing fields |
| `Accounts.PrismEtf.Finalize` | programs/coherence-beamsplitter/src/lib.rs:107-112 | the status becomes finished and nothing else changes, so a second call is a no-op |
| `Accounts.PrismEtf.SetManager` | programs/coherence-beamsplitter/src/lib.rs:563-566 | changes the manager and no other field |
| `Accounts.PrismEtf.SetManagerCut` | programs/coherence-beamsplitter/src/lib.rs:568-574 | changes the manager cut and no other field |
| `Accounts.PrismEtf.SetConstructionBps` | programs/coherence-beamsplitter/src/lib.rs:576-582 | changes the construction rate and no other field |
| `Accounts.PrismEtf.SetDeconstructionBps` | programs/coherence-beamsplitter/src/lib.rs:584-590 | changes the deconstruction rate and no other field |
| `Accounts.WeightedTokens.Init` | programs/coherence-beamsplitter/src/lib.rs:58-66 | a new table is valid, zeroed, empty and of capacity 100 |
| `Accounts.TransferredTokens.Init` | programs/coherence-beamsplitter/src/lib.rs:68-76 | a new flag table is valid, all clear, empty and of capacity 100 |
| `Accounts.OrderState.InitOrderState` | programs/coherence-beamsplitter/src/lib.rs:139-145 | a new order record is succeeded, not pending, with the given bump and flag-table key |
| `CoherenceBeamsplitter.ExecuteSupply` | programs/coherence-beamsplitter/src/lib.rs:194-526 | a committed instruction changes the ETF supply by its mints minus its burns |
| `CoherenceBeamsplitter.InitPrismEtf` | programs/coherence-beamsplitter/src/lib.rs:78-105 | fails exactly as the registration check says and then creates nothing; on success a fresh record holding the controller's rates, unfinished |
| `CoherenceBeamsplitter.PushTokens` | programs/coherence-beamsplitter/src/lib.rs:115-137 | the in-place append loop yields the table the push_tokens function gives, or its error with the table unchanged |
| `CoherenceBeamsplitter.StartOrder` | programs/coherence-beamsplitter/src/lib.rs:162-213 | the order record, flags and balances after the handler are those of start_order with its burn applied, or all unchanged with its error |
| `CoherenceBeamsplitter.Cohere` | programs/coherence-beamsplitter/src/lib.rs:229-306 | the flags and balances after the handler are those of cohere with its transfer applied, or unchanged with its error |
| `CoherenceBeamsplitter.Decohere` | programs/coherence-beamsplitter/src/lib.rs:322-389 | the flags and balances after the handler are those of decohere with its transfer applied, or unchanged with its error |
| `CoherenceBeamsplitter.FinalizeOrder` | programs/coherence-beamsplitter/src/lib.rs:405-532 | the flag-clearing loop and the interleaved conversions and mints yield the order, flags and balances of finalize_order, or leave all unchanged with the first error met |
| `CoherenceBeamsplitter.MintShares` | programs/coherence-beamsplitter/src/lib.rs:463-526 | converting and minting each share in turn gives the balances after the mints of the mint sequence, or the error of the first conversion or mint that fails |

## Left out

- The token program's internals are not modelled: delegation, account ownership and signer checks. Transfers, mints and burns change an abstract balance map. They fail only on an insufficient balance or a 64-bit overflow. The allowance that cohere compares against is an input.
- The framework plumbing is not modelled: account loading, PDA seeds and bumps as derivations, the constraints that tie an ETF to its table and an order to its flags, rent, and log messages. Keys are natural numbers. The handlers receive the right accounts as arguments.
- init_prism_etf reads two values through the token-account accessors `authority` and `amount`, applied to the mint account. The model takes the values those accessors return as inputs (`mintAuthority`, `mintSupply`). The byte layout they are read from is not modelled.
- Account fields that the handlers never read or write are not modelled. These are `OrderState.orderer`, `PrismEtf.totalSharedOrderStates`, `Beamsplitter.autorebalancer`, and the referral, timeout, manager-fee and schedule fields of the account layouts. The rebalancing enumerations are modelled only as the defaults a new ETF holds, because no handler uses them.
- `deconstructionBps` is stored and settable but no handler reads it, so no fee is taken on deconstruction.
- The Serum swap wrapper, the price-feed code that is not compiled, the earlier splitcoin-prism program and the TypeScript client are not part of this model.
- Decimal overflow: a cohere or decohere product that exceeds the 96-bit mantissa is the error `Panic`. `rust_decimal` would first try to rescale a product with a nonzero scale; that is not modelled, because both operands here have scale 0.
- The integration tests agree with the program on the cohere amount (⌊amount·weight / 10^decimals⌋, raised to 1 when it is 0). They disagree on the flags: they expect the flags to stay set after finalize, and the opposite direction for a deconstruction. That belongs to a different version of the program. This model follows the program source: both cohere and decohere set flags, and finalize clears them.
- push_tokens: an append that runs past the 100th slot is the error `Panic`. It is not ETFFull, because the code only compares the starting length against the capacity.
