# veranatest: trust-deposit yield, validator registry and admission gates

This Dafny project models the chain-specific core of veranatest, a Cosmos-SDK
application, and proves properties of that model. It covers four parts.

- **Yield settlement (`x/td`).** Every block, a yield computed as
  `trust_deposit_value × trust_deposit_yield_rate / 6,311,520` (an 18-digit
  fixed-point `LegacyDec`) is added to a persisted dust accumulator.
  - Whole `uvna` units are moved from the verana pool to the td module
    account when the pool can cover them, and the fraction is carried.
  - Whatever is left in the pool is then swept to the community pool.
  - `MsgFundModule` lets a user fund a module account. Funding the td module
    also raises the trust deposit value parameter, with `uint64` wrap-around.
- **Group proposal auto-execution.** The registry module's `EndBlock` scans
  the groups, policies and proposals the group keeper's listings return (the
  first page, at most 100 each, since the queries carry no page request). It hands each accepted proposal whose voting period has ended, and
  which has no final executor result, to the group keeper's `Exec`.
  - Listing failures inside the scan are skipped.
  - A failure of the top-level group listing is logged and dropped.
- **Admission (`ante/`).** `NewAnteHandler` chains five decorators. Two custom
  gates exist:
  - the validator whitelist, which is in the chain;
  - the group-proposal timing gate, which is defined but not in the chain.
- **Validator registry.**
  - A string-keyed validator collection and the whitelist lookup over it.
  - Onboarding of a validator by member id.
  - The staking hooks.
  - Genesis validation, import and export.
  - The single and paginated queries.

The model is functional. Keeper writes in Go take effect immediately, so a
state-changing operation returns an `Outcome`: the state after the call and
the error it returned, if any. Pure queries return a `Result`.

Several things that Go hides in calls are explicit parameters here:
- bech32 and address-codec checks (predicates such as `isAccAddress`);
- the outcome of each `Exec` call;
- the verdicts of the SDK's own ante decorators;
- the group keeper's answers (a `Snapshot` of listings and a proposal table).

Fixed-width integers are unbounded here. The `int64(uint64)` cast and the
`uint64` addition are written out with their wrap-around (module `Ints`).
`LegacyDec` is an integer count of 10^-18 (module `LegacyDec`):
- multiplication and division round half-to-even at the 18th digit, as the
  SDK's `chopPrecisionAndRound` does;
- the underlying big-integer division truncates toward zero.

Behaviour of the code worth knowing:

- **Short pool.** When the pool cannot cover the whole units due, the yield
  step returns at once. The stored dust keeps its OLD value and the block's
  yield is lost. It is not added to the carried dust.
  (`TdAbci.SendFundsFromVeranaPool`, `TdLedger.Ledger`'s `dropped` total.)
- **Per-block yield example.** For a deposit of 1,000,000 uvna at a 15 % rate,
  the formula gives 0.023766065860521713 uvna per block
  (`TdAbci.PerBlockYieldExample`).
- **Timing gate error.** Every rejection of the timing gate is
  `ErrInvalidRequest`, including "not accepted".
- **Timing gate not wired.** The timing gate is not part of the chain that
  `NewAnteHandler` builds, so admission never depends on proposal timing
  (`AnteChain.AdmissionIgnoresProposals`, `AnteChain.PrematureExecIsAdmitted`).
- **Hook allow-list.** `BeforeValidatorModified` compares the operator's
  address string with the placeholder `"verana"` followed by 34 `X`. A
  bech32 address always contains the separator `1`, so every call is
  rejected (`RegistryHooks.NoRenderedAddressPasses`).

## Model

| member | source | states |
|---|---|---|
| Ints.ToInt64 | x/td/keeper/abci.go:39 | the `uint64 → int64` cast keeps the value below 2^63 and wraps it by 2^64 above |
| Ints.ToUint64 | x/td/keeper/msg_server_fund_module.go:27 | the `int64 → uint64` cast is congruent mod 2^64 and exact on non-negative values |
| Ints.AddUint64 | x/td/keeper/msg_server_fund_module.go:27 | the result is the `uint64` congruent to a + b modulo 2^64: the exact sum when it fits, and a value below a when it wraps |
| LegacyDec.ChopRoundNonNeg | x/td/keeper/abci.go:43-46 | the rounding behind `Mul` and `Quo`: within half a unit of the exact quotient by 10^18, ties going to the even neighbour |
| LegacyDec.ChopRound | x/td/keeper/abci.go:43-46 | the rounding on any sign: the result times 10^18 is within half a unit of the input, has the input's sign, and an exact tie goes to the even neighbour |
| LegacyDec.NegativeTieRoundsToEven | x/td/keeper/abci.go:43-46 | −1.5 (in 10^-18 units, −1.5·10^18) rounds to −2, the even neighbour |
| LegacyDec.FromInt | x/td/keeper/abci.go:39 | an integer converted to a decimal truncates back to the same integer |
| LegacyDec.TruncateInt | x/td/keeper/abci.go:67 | the whole part, toward zero: `|n|·10^18 ≤ |d| < (|n|+1)·10^18` with the sign of `d` |
| LegacyDec.MulByIntegerIsExact | x/td/keeper/abci.go:43 | a whole-number decimal times a rate is exact, so the annual yield is `value × rate` with no rounding |
| LegacyDec.QuoNearExact | x/td/keeper/abci.go:46 | decimal division lands within one unit of the divisor of the exact quotient |
| Bank.Send | x/td/keeper/abci.go:80-82 | a transfer succeeds exactly when both accounts exist and the sender holds enough; it debits and credits exactly the amount and touches no other account |
| TdParams.NewParams | x/td/types/params.go:6-8 | only the share value is set; every other field keeps its zero value |
| TdParams.DefaultParams | x/td/types/params.go:3-13 | the default share value is 1 and the other fields are zero |
| TdParams.Validate | x/td/types/params.go:16-26 | validation never fails, because the share-value validator accepts everything |
| TdParams.ValidateTrustDepositShareValue | x/td/types/params.go:23-26 | every share value is accepted |
| TdKeeper.GetParams | x/td/keeper/abci.go:29-32 | reading the params fails exactly when the item was never written |
| TdKeeper.GetDustAmount | x/td/keeper/keeper.go:74-85 | dust that was never written reads as zero; reading fails exactly when the stored bytes do not decode |
| TdKeeper.SetDustAmount | x/td/keeper/keeper.go:88-90 | after a write, the dust reads back as the amount written |
| TdKeeper.AddToDustAmount | x/td/keeper/keeper.go:93-101 | the dust then reads as the old value plus the amount; a read error writes nothing and is returned |
| TdKeeper.ResetDustAmount | x/td/keeper/keeper.go:104-106 | after a reset, the dust reads as zero |
| TdKeeper.ResetDustAmountIdempotent | x/td/keeper/keeper.go:104-106 | resetting twice equals resetting once |
| TdAbci.PerBlockYield | x/td/keeper/abci.go:35-46 | when the value fits in an `int64` and the rate is not negative, the per-block yield is non-negative and, times the blocks per year, within 6,311,520 units (10^-18 uvna) of `value × rate` |
| TdAbci.PerBlockYieldExample | x/td/keeper/abci.go:35-46 | 1,000,000 uvna at a 15 % rate yields 0.023766065860521713 uvna per block |
| TdAbci.Settle | x/td/keeper/abci.go:55-105 | below one uvna the total is carried whole; otherwise, if the pool covers the whole part, that part is paid, is at least 1 and at most the pool, and the fraction below one uvna is carried, with nothing lost; otherwise nothing happens |
| TdAbci.SendFundsFromVeranaPool | x/td/keeper/abci.go:27-108 | a missing params item or undecodable dust is returned with no state change; on success, paid units × 10^18 plus the new dust equal old dust plus the block's yield, unless the pool is short and nothing changes; the pool and td balances together are conserved; the params are untouched |
| TdAbci.SendFundsBackToCommunityPool | x/td/keeper/abci.go:111-134 | an empty pool is left alone; otherwise the whole pool moves to the community pool, no other account changes, and a failed transfer changes nothing |
| TdAbci.BeginBlocker | x/td/keeper/abci.go:12-24 | a yield-step error is returned before the sweep; on success the pool ends empty, the td module receives exactly what the yield step paid, and the three balances together are conserved |
| TdAbci.HealthyBlockSucceeds | x/td/keeper/abci.go:12-134 | with the params written, the dust readable and the three module accounts present, the begin-block hook never fails and leaves those conditions in place |
| TdLedger.Ledger | x/td/keeper/abci.go:55-105 | over n blocks: paid × 10^18 + dust + dropped yield = initial dust + n × yield; the dust stays below one uvna; empty pools pay nothing; pools that always cover the payment drop nothing |
| TdLedger.YieldStepFollowsSettle | x/td/keeper/abci.go:61-101 | a successful yield step does exactly what the settlement rule decides: carry, skip with no change, or pay that amount and carry that dust |
| TdLedger.RunBlocks | x/td/keeper/abci.go:12-24 | after any non-empty run of blocks that succeeds, the verana pool is empty and the params are unchanged; a run from healthy stores always succeeds and keeps them healthy |
| TdLedger.RunBlocksFollowsLedger | x/td/keeper/abci.go:12-134 | a multi-block run from healthy stores, with deposits into the pool between blocks, succeeds, pays the td module exactly the reference ledger's total and leaves its dust |
| TdLedger.YieldIsConserved | x/td/keeper/abci.go:84-91 | from healthy stores, when every block's pool covers the payment, uvna paid × 10^18 plus the final dust equals the initial dust plus n blocks of yield, exactly |
| TdLedger.EmptyPoolNeverPays | x/td/keeper/abci.go:72-77 | with an empty pool and no deposits, the run succeeds and the td module never receives anything, over any number of blocks |
| TdFund.FundModule | x/td/keeper/msg_server_fund_module.go:14-35 | a bad creator, a negative amount or a failed transfer is an error and changes nothing; success moves exactly the amount from the user to the module; only funding the td module changes the params, where the trust deposit value grows by the amount mod 2^64 and the other fields stay the same |
| TdFund.FundingTdRaisesTrustDepositValue | x/td/keeper/msg_server_fund_module.go:24-32 | without overflow, funding the td module raises the trust deposit value by exactly the amount |
| ValidatorStore.Find | x/validatorregistry/keeper/msg_server_onboard_validator.go:22 | a lookup finds a value exactly when the key is stored, and returns the value stored under that key |
| ValidatorStore.Set | x/validatorregistry/keeper/msg_server_onboard_validator.go:57 | a write keeps the collection in key order, adds no key but its own, keeps every value decodable, and grows the collection only for a new key |
| ValidatorStore.SetThenFind | x/validatorregistry/keeper/msg_server_onboard_validator.go:57 | after a write, the key reads the new validator and every other key reads as before |
| ValidatorStore.DecodeAll | x/validatorregistry/keeper/genesis.go:29-34 | a walk over the collection yields every validator in key order exactly when all values decode, and otherwise names the first undecodable key |
| RegistryKeeper.NewKeeper | x/validatorregistry/keeper/keeper.go:30-65 | construction fails exactly when the authority bytes do not render as an address, and the keeper then reports that authority |
| RegistryKeeper.AuthorityRoundTrip | x/validatorregistry/keeper/keeper.go:48-64 | a keeper built from an authority that renders as an address is built, and `GetAuthority` returns that authority |
| RegistryKeeper.IsValidatorWhitelisted | x/validatorregistry/keeper/keeper.go:73-84 | true exactly when some stored validator has that operator address and every value before it in key order decodes; an empty store gives false |
| RegistryKeeper.WhitelistedIffStored | x/validatorregistry/keeper/keeper.go:73-84 | when every value decodes, whitelisting is membership of the operator address among the stored validators |
| RegistryKeeper.OnboardValidator | x/validatorregistry/keeper/msg_server_onboard_validator.go:12-73 | errors in source order (bad creator, existing index, empty address, malformed address) leave the store unchanged; success stores the record under the member id with status "active", changes no other key, and makes the address whitelisted |
| RegistryKeeper.OnboardedIsWhitelisted | x/validatorregistry/keeper/msg_server_onboard_validator.go:47-59 | a stored validator's operator address is whitelisted when the store decodes |
| RegistryKeeper.OnboardTwiceFails | x/validatorregistry/keeper/msg_server_onboard_validator.go:21-28 | onboarding the same member id again fails with "already exists" and leaves the store as the first call left it |
| RegistryQuery.GetValidator | x/validatorregistry/keeper/query_validator.go:35-50 | a nil request gives InvalidArgument, a missing index NotFound, and an undecodable value Internal; otherwise it returns the validator stored under that index |
| RegistryQuery.GetAfterOnboard | x/validatorregistry/keeper/query_validator.go:35-50 | after onboarding, the query by member id returns exactly the onboarded record |
| RegistryQuery.ListValidator | x/validatorregistry/keeper/query_validator.go:15-33 | a nil request gives InvalidArgument; otherwise it returns the first min(limit, n) validators in key order (limit 0 meaning 100), the total when requested or when the limit is 0, and it succeeds exactly when every value in the page decodes, failing with Internal otherwise |
| RegistryQuery.UndecodablePastPageIsHarmless | x/validatorregistry/keeper/query_validator.go:20-31 | with limit 1, a store of one decoded validator followed by an undecodable value lists that one validator |
| RegistryQuery.ListAllWithTotal | x/validatorregistry/keeper/query_validator.go:15-33 | a default request over at most 100 decodable validators returns all of them in key order, with the total equal to the store size |
| RegistryHooks.CallHook | x/validatorregistry/keeper/hooks.go:22-87 | only `BeforeValidatorModified` can fail, and it fails exactly when the address differs from the hard-coded allowed string |
| RegistryHooks.NoRenderedAddressPasses | x/validatorregistry/keeper/hooks.go:22-38 | every bech32 address (it contains '1'), and the empty address, is rejected |
| RegistryGenesis.DefaultGenesis | x/validatorregistry/types/genesis.go:6-10 | the default genesis has the default params and no validators |
| RegistryGenesis.DuplicateScan | x/validatorregistry/types/genesis.go:15-23 | the scan reports a duplicate exactly when two entries share an index or an index was already seen |
| RegistryGenesis.Validate | x/validatorregistry/types/genesis.go:14-26 | a duplicated index is an error; otherwise the verdict is the params' own validation |
| RegistryGenesis.DuplicateVerdictIgnoresOrder | x/validatorregistry/types/genesis.go:15-23 | reordering the validator list never changes the duplicate verdict |
| RegistryGenesis.InitGenesis | x/validatorregistry/keeper/genesis.go:10-18 | loading keeps the collection in key order and stores the params |
| RegistryGenesis.LoadLastWins | x/validatorregistry/keeper/genesis.go:11-15 | after loading, each index holds the last list element with that index; other keys are untouched |
| RegistryGenesis.ExportGenesis | x/validatorregistry/keeper/genesis.go:21-37 | missing params is an error; export succeeds exactly when every value decodes, and then returns the params and every validator in key order |
| RegistryGenesis.LoadAppends | x/validatorregistry/keeper/genesis.go:11-15 | indices that ascend and lie above every stored key are appended in order |
| RegistryGenesis.GenesisRoundTrip | x/validatorregistry/keeper/genesis.go:10-37 | exporting after importing, into an empty store, a genesis whose indices are distinct and in key order gives back the same genesis |
| AutoExec.PrepareExec | x/validatorregistry/module/module.go:237-272 | `Exec` is prepared exactly when the proposal is found, accepted and past its voting end, with the proposal's own policy as executor; a lookup failure or wrong status is reported first |
| AutoExec.ScanProposals | x/validatorregistry/module/module.go:191-227 | an `Exec` call is made for a listed proposal exactly when it is ready and passes the re-check; each attempt records that call's outcome; there are never more calls than listed proposals |
| AutoExec.ScanProposalsConcat | x/validatorregistry/module/module.go:191-227 | proposals are processed in list order: scanning a concatenation is scanning each part in turn |
| AutoExec.ScanPolicies | x/validatorregistry/module/module.go:182-228 | scanning the policies is scanning all their listed proposals in policy order; a failed listing contributes nothing |
| AutoExec.ScanGroups | x/validatorregistry/module/module.go:171-229 | scanning the groups is scanning all their listed proposals in group order; a failed listing contributes nothing |
| AutoExec.ExecutePendingGroupProposals | x/validatorregistry/module/module.go:160-232 | the scan reports an error exactly when the group listing fails, and then makes no call |
| AutoExec.EndBlock | x/validatorregistry/module/module.go:145-156 | the end-block hook never fails; `Exec` receives exactly the listed proposals that pass both checks, each with its policy as executor |
| AutoExec.CallsIgnoreExecOutcome | x/validatorregistry/module/module.go:218-225 | which proposals are executed does not depend on whether earlier `Exec` calls failed |
| AutoExec.InnerFailureSkipsOnlyThatGroup | x/validatorregistry/module/module.go:173-180 | a group whose policy listing fails is skipped, and the other groups are scanned exactly as if it were absent |
| AutoExec.ExecutesExactlyTheReady | x/validatorregistry/module/module.go:191-220 | with listings that agree with the lookup, `Exec` is called exactly for the accepted, ended proposals with no final executor result |
| AutoExec.SettledProposalIsNotExecuted | x/validatorregistry/module/module.go:198-206 | a proposal whose executor result is Success or Failure is never executed again |
| AutoExec.VotingEndIsInclusive | x/validatorregistry/module/module.go:193-196 | a proposal is not executed one tick before its voting end, and is executed at the end instant itself and after it |
| AnteGates.FirstViolation | ante/group_proposal_timing.go:32-73 | the gates answer with the first message, in order, that breaks their rule, and pass only when no message does |
| AnteGates.WhitelistCheck | ante/validator_whitelist.go:24-35 | a message breaks the whitelist exactly when it creates a validator with an address other than the allowed constant |
| AnteGates.ValidatorWhitelistAnteHandle | ante/validator_whitelist.go:18-38 | the whitelist gate rejects as unauthorized with the first foreign validator address, and otherwise returns the next handler's result unchanged |
| AnteGates.TimingCheck | ante/group_proposal_timing.go:33-71 | a `MsgExec` is rejected with InvalidRequest when its proposal is missing, its voting period has not ended, or it is not accepted, checked in that order; other messages pass |
| AnteGates.GroupProposalTimingAnteHandle | ante/group_proposal_timing.go:26-76 | the timing gate rejects at the first `MsgExec` whose proposal is not executable, and otherwise returns the next handler's result unchanged |
| AnteChain.NewAnteHandler | ante/ante.go:16-45 | a missing bank keeper, then a missing sign-mode handler, is an error; otherwise the order is fixed (set-up, basic validation, whitelist, fee deduction, sequence increment): it starts with context set-up, puts the whitelist before fee deduction, and leaves out the timing gate |
| AnteChain.Decorate | ante/ante.go:31-44 | each decorator either rejects with its own verdict or hands the transaction to the rest of the chain |
| AnteChain.RunChain | ante/ante.go:44 | decorators run in order; the reached ones are a prefix of the chain; the transaction is admitted exactly when no decorator objects, and otherwise the last one reached is the first that objects |
| AnteChain.ChainFollowsRun | ante/ante.go:44 | the handler composed from the decorators agrees with the in-order walk on every transaction |
| AnteChain.WhitelistRejectsBeforeFees | ante/ante.go:31-41 | a transaction creating a validator from a foreign address is rejected as unauthorized before any fee is deducted or any sequence incremented |
| AnteChain.AdmissionIgnoresProposals | ante/ante.go:31-41 | the chain's verdict is the same whatever the group proposals are |
| AnteChain.TimingGateRejectsPrematureExec | ante/group_proposal_timing.go:53-61 | used on its own, the timing gate rejects a `MsgExec` before the voting end with InvalidRequest |
| AnteChain.PrematureExecIsAdmitted | ante/ante.go:31-41 | the chain admits that same premature `MsgExec` |
| AnteChain.WhitelistAnswersMixedTx | ante/ante.go:31-41 | a premature `MsgExec` followed by a foreign validator creation is rejected as unauthorized, not for its timing |

## Left out

- LegacyDec overflow: the SDK panics when a decimal result exceeds its fixed bit-length bound. Here decimals are unbounded. The per-block yield of any `uint64` deposit at a realistic rate stays far below that bound.
- LegacyDec.Mul, LegacyDec.Quo: state no contract of their own. Their behaviour is stated through `MulByIntegerIsExact`, `QuoNearExact`, `ChopRound` and `ChopRoundNonNeg`.
- RegistryKeeper.GetAuthority: a field read; its promise is the round trip stated by `NewKeeper` and `AuthorityRoundTrip`. The model's `Keeper` keeps only the authority, not the store service, codecs, logger or collections.
- AutoExec.EndBlock: the `Snapshot` stands for the first page of each group-keeper listing (at most 100 groups, policies per group and proposals per policy), because the queries carry no page request; later pages are never scanned.
- LegacyDec.QuoTrunc: states no contract of its own. Its behaviour, truncation toward zero, is stated through `QuoNearExact` and `TruncateInt`.
- Store write errors: `Params.Set`, `Validator.Set` and `DustAmount.Set` on a healthy store do not fail, and these writes are total here. The same goes for the existence check in onboarding (`Validator.Has`) and its "failed to check validator existence" error.
- TdFund.FundModule: an unknown target module makes the SDK panic. This is reported here as an `UnknownModule` transfer error. A zero amount is an ordinary zero transfer.
- TdAbci.SendFundsFromVeranaPool: the verana pool is reached through a hard-coded bech32 address. It is modelled as the verana pool module account. The module-name constants of `x/td/types` are not part of this model, so distinct stand-in names are used.
- The td keeper's `NewKeeper` and `GetAuthority` (x/td/keeper/keeper.go:32-71) have the same shape as the registry's and are modelled once, as `RegistryKeeper.NewKeeper` and `RegistryKeeper.GetAuthority`.
- The bank holds one denomination (`uvna`) per account. Multi-denomination balances of the pool are not modelled, so the sweep moves only `uvna`.
- AutoExec.EndBlock: the group keeper is read through one snapshot taken before the scan. The effect an `Exec` call has on later listings in the same block is not modelled. Neither is the group module's own execution of proposal messages.
- Logging, events and the Go `context` are not modelled.
- Pagination by key or offset, `reverse`, and `NextKey`: `ListValidator` models requests that start at the beginning of the collection, and omits the next-page key.
- The SDK's own ante decorators (context set-up, basic validation, fee deduction, sequence increment) are opaque verdicts. Their changes to the context (gas meter, fees charged) are not modelled.
- AnteChain.External: the verdicts take no `simulate` flag, although the SDK's basic-validation and fee decorators read it. Every lemma quantifies over all verdict functions, so each holds for either fixed value of the flag.
- The registry's `Params` type and its validation are not part of this model. They are a type parameter and a function argument.
- bech32 parsing and address codecs are predicates passed in, not implementations.
