/** The validator registry keeper, x/validatorregistry/keeper/keeper.go and
    msg_server_onboard_validator.go: the authority it was built with, the
    whitelist membership test, and onboarding of a validator by member id. */
module RegistryKeeper {
  import opened Ints
  import opened Outcomes
  import opened ValidatorStore

  /** The keeper's state other than its authority (store service, codec,
      address codec, logger, collections) is not modelled. */
  datatype Keeper = Keeper(authority: seq<bv8>)

  /** `NewKeeper` panics when the authority bytes do not render as an
      address; `rendersAsAddress` stands for the address codec. */
  function NewKeeper(authority: seq<bv8>, rendersAsAddress: seq<bv8> -> bool): (r: Result<Keeper, string>)
    ensures r.Ok? <==> rendersAsAddress(authority)
    ensures r.Ok? ==> GetAuthority(r.value) == authority
  {
    if rendersAsAddress(authority) then Ok(Keeper(authority)) else Err("invalid authority address")
  }

  /** `GetAuthority`: the authority the keeper was built with. */
  function GetAuthority(k: Keeper): (a: seq<bv8>)
    ensures Keeper(a) == k
  {
    k.authority
  }

  /** A keeper built from an address-shaped authority reports exactly that
      authority. */
  lemma AuthorityRoundTrip(authority: seq<bv8>, rendersAsAddress: seq<bv8> -> bool)
    requires rendersAsAddress(authority)
    ensures NewKeeper(authority, rendersAsAddress).Ok?
    ensures GetAuthority(NewKeeper(authority, rendersAsAddress).value) == authority
  {
  }

  /** `IsValidatorWhitelisted`: walks the store in key order and stops at the
      first validator whose operator address matches. A value that does not
      decode ends the walk with an error, which is discarded, so the answer is
      then "not found". The store is only read. */
  function IsValidatorWhitelisted(es: seq<Entry>, operatorAddress: string): (found: bool)
    ensures found <==> exists i :: 0 <= i < |es| && es[i].stored.Decoded?
                                   && es[i].stored.validator.operatorAddress == operatorAddress
                                   && AllDecoded(es[..i])
    ensures |es| == 0 ==> !found
  {
    if |es| == 0 then false
    else match es[0].stored
      case Undecodable =>
        assert forall i :: 0 < i < |es| ==> !AllDecoded(es[..i]) by {
          forall i | 0 < i < |es| ensures !AllDecoded(es[..i]) {
            assert es[..i][0] == es[0];
          }
        }
        false
      case Decoded(v) =>
        if v.operatorAddress == operatorAddress then
          assert es[..0] == [];
          true
        else
          var rest := IsValidatorWhitelisted(es[1..], operatorAddress);
          assert rest ==> exists i :: 0 <= i < |es| && es[i].stored.Decoded?
                                      && es[i].stored.validator.operatorAddress == operatorAddress
                                      && AllDecoded(es[..i]) by {
            if rest {
              var j :| 0 <= j < |es[1..]| && es[1..][j].stored.Decoded?
                       && es[1..][j].stored.validator.operatorAddress == operatorAddress
                       && AllDecoded(es[1..][..j]);
              assert es[..j + 1] == [es[0]] + es[1..][..j];
            }
          }
          assert (exists i :: 0 <= i < |es| && es[i].stored.Decoded?
                              && es[i].stored.validator.operatorAddress == operatorAddress
                              && AllDecoded(es[..i])) ==> rest by {
            if exists i :: 0 <= i < |es| && es[i].stored.Decoded?
                           && es[i].stored.validator.operatorAddress == operatorAddress
                           && AllDecoded(es[..i]) {
              var i :| 0 <= i < |es| && es[i].stored.Decoded?
                       && es[i].stored.validator.operatorAddress == operatorAddress
                       && AllDecoded(es[..i]);
              assert es[1..][..i - 1] == es[..i][1..];
              assert es[1..][i - 1] == es[i];
            }
          }
          rest
  }

  /** When every stored value decodes, whitelisting is plain membership:
      some stored validator, under whatever key, has that operator address. */
  lemma WhitelistedIffStored(es: seq<Entry>, operatorAddress: string)
    requires AllDecoded(es)
    ensures IsValidatorWhitelisted(es, operatorAddress) <==>
            exists i :: 0 <= i < |es| && es[i].stored.validator.operatorAddress == operatorAddress
  {
    if exists i :: 0 <= i < |es| && es[i].stored.validator.operatorAddress == operatorAddress {
      var i :| 0 <= i < |es| && es[i].stored.validator.operatorAddress == operatorAddress;
      assert AllDecoded(es[..i]);
    }
  }

  datatype InvalidValidatorReason =
    | AlreadyExists(index: string)
    | EmptyOperatorAddress
    | MalformedOperatorAddress(address: string)

  datatype RegistryError =
    | InvalidAuthority(address: string)
    | InvalidValidator(reason: InvalidValidatorReason)

  /** `MsgOnboardValidator`; the operator address travels in `endpoints`. */
  datatype MsgOnboardValidator = MsgOnboardValidator(
    creator: string,
    memberId: string,
    endpoints: string,
    nodePubkey: string,
    termEnd: uint64)

  /** The record onboarding stores for a message. */
  function OnboardedRecord(msg: MsgOnboardValidator): Validator {
    Validator(msg.memberId, msg.memberId, msg.endpoints, msg.nodePubkey, "active", msg.termEnd)
  }

  /** `OnboardValidator`. `isAccAddress` and `isValoperAddress` stand for the
      address codec and `ValAddressFromBech32` succeeding. */
  function OnboardValidator(es: seq<Entry>, msg: MsgOnboardValidator,
                            isAccAddress: string -> bool, isValoperAddress: string -> bool)
    : (o: Outcome<seq<Entry>, RegistryError>)
    requires Sorted(es)
    ensures o.failure.Some? ==> o.state == es
    ensures !isAccAddress(msg.creator) ==> o.failure == Some(InvalidAuthority(msg.creator))
    ensures isAccAddress(msg.creator) && HasKey(es, msg.memberId) ==>
              o.failure == Some(InvalidValidator(AlreadyExists(msg.memberId)))
    ensures isAccAddress(msg.creator) && !HasKey(es, msg.memberId) && msg.endpoints == "" ==>
              o.failure == Some(InvalidValidator(EmptyOperatorAddress))
    ensures o.Succeeded() <==>
              isAccAddress(msg.creator) && !HasKey(es, msg.memberId)
              && msg.endpoints != "" && isValoperAddress(msg.endpoints)
    ensures o.Succeeded() ==>
              Sorted(o.state) && |o.state| == |es| + 1
              && Find(o.state, msg.memberId) == Some(Decoded(OnboardedRecord(msg)))
              && (forall k :: k != msg.memberId ==> Find(o.state, k) == Find(es, k))
    ensures o.Succeeded() && AllDecoded(es) ==> IsValidatorWhitelisted(o.state, msg.endpoints)
  {
    if !isAccAddress(msg.creator) then Outcome(es, Some(InvalidAuthority(msg.creator)))
    else if HasKey(es, msg.memberId) then Outcome(es, Some(InvalidValidator(AlreadyExists(msg.memberId))))
    else if msg.endpoints == "" then Outcome(es, Some(InvalidValidator(EmptyOperatorAddress)))
    else if !isValoperAddress(msg.endpoints) then
      Outcome(es, Some(InvalidValidator(MalformedOperatorAddress(msg.endpoints))))
    else
      var v := OnboardedRecord(msg);
      var stored := Set(es, msg.memberId, v);
      SetThenFindAll(es, msg.memberId, v);
      OnboardedIsWhitelisted(es, msg.memberId, v);
      Outcome(stored, None)
  }

  /** A validator just written is whitelisted under its operator address,
      when the store decodes. */
  lemma OnboardedIsWhitelisted(es: seq<Entry>, key: string, v: Validator)
    requires Sorted(es)
    ensures AllDecoded(es) ==> IsValidatorWhitelisted(Set(es, key, v), v.operatorAddress)
  {
    if AllDecoded(es) {
      var stored := Set(es, key, v);
      SetThenFindAll(es, key, v);
      WhitelistedIffStored(stored, v.operatorAddress);
    }
  }

  /** Onboarding the same member twice fails the second time and leaves the
      store as the first call left it. */
  lemma OnboardTwiceFails(es: seq<Entry>, msg: MsgOnboardValidator, msg2: MsgOnboardValidator,
                          isAccAddress: string -> bool, isValoperAddress: string -> bool)
    requires Sorted(es)
    requires OnboardValidator(es, msg, isAccAddress, isValoperAddress).Succeeded()
    requires msg2.memberId == msg.memberId && isAccAddress(msg2.creator)
    ensures
      var once := OnboardValidator(es, msg, isAccAddress, isValoperAddress).state;
      OnboardValidator(once, msg2, isAccAddress, isValoperAddress)
      == Outcome(once, Some(InvalidValidator(AlreadyExists(msg.memberId))))
  {
  }
}
