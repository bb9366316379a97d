/** The registry's staking hooks, x/validatorregistry/keeper/hooks.go. Only
    `BeforeValidatorModified` does anything: it compares the operator's
    account address, rendered as a string, with a hard-coded placeholder. */
module RegistryHooks {
  import opened Outcomes

  /** "verana" followed by 34 copies of 'X'. */
  const AllowedHookAddress: string := "veranaXXXXXXXXXXXXXXXXXXXXXXXXXXXXXXXXXX"

  datatype StakingHook =
    | BeforeValidatorModified
    | AfterValidatorCreated
    | AfterValidatorBonded
    | AfterValidatorBeginUnbonding
    | AfterValidatorRemoved
    | BeforeDelegationCreated
    | BeforeDelegationSharesModified
    | BeforeDelegationRemoved
    | AfterDelegationModified
    | AfterUnbondingInitiated
    | BeforeValidatorSlashed

  datatype HookError = NotAuthorized(address: string)

  /** A staking hook call; `operator` is `sdk.AccAddress(valAddr).String()`
      for the hooks that receive a validator address. */
  function CallHook(hook: StakingHook, operator: string): (r: Option<HookError>)
    ensures r.Some? <==> hook == BeforeValidatorModified && operator != AllowedHookAddress
    ensures r.Some? ==> r.value == NotAuthorized(operator)
  {
    match hook
    case BeforeValidatorModified =>
      if operator != AllowedHookAddress then Some(NotAuthorized(operator)) else None
    case _ => None
  }

  /** A bech32 address string always carries the separator '1' (and the
      empty address renders as ""): the placeholder has neither form, so no
      rendered address passes and every `BeforeValidatorModified` call fails. */
  lemma NoRenderedAddressPasses(operator: string)
    requires operator == "" || '1' in operator
    ensures CallHook(BeforeValidatorModified, operator) == Some(NotAuthorized(operator))
  {
  }
}
