/** `MsgFundModule`, x/td/keeper/msg_server_fund_module.go: a user sends uvna
    to a named module account; when the target is the td module itself, the
    trust deposit value parameter grows by the amount sent. */
module TdFund {
  import opened Ints
  import opened Outcomes
  import opened Bank
  import opened TdParams
  import opened TdKeeper
  import opened TdAbci

  datatype MsgFundModule = MsgFundModule(creator: string, target: string, amount: int64)

  /** `FundModule`. `isAccAddress` stands for the address codec's
      `StringToBytes` succeeding. A negative amount makes `sdk.NewCoin` panic
      before the transfer; the panic is reported here as an error. */
  function FundModule(s: TdState, msg: MsgFundModule, isAccAddress: string -> bool)
    : (o: Outcome<TdState, TdError>)
    ensures !isAccAddress(msg.creator) ==> o == Outcome(s, Some(InvalidCreator(msg.creator)))
    ensures o.failure.Some? ==> o.state == s
    ensures o.Succeeded() <==>
              isAccAddress(msg.creator) && msg.amount >= 0
              && Send(s.bank, User(msg.creator), Module(msg.target), msg.amount).Ok?
    ensures o.Succeeded() ==> Balance(o.state.bank, Module(msg.target))
                              == Balance(s.bank, Module(msg.target)) + msg.amount
    ensures o.Succeeded() ==> Balance(o.state.bank, User(msg.creator))
                              == Balance(s.bank, User(msg.creator)) - msg.amount
    ensures o.state.dust == s.dust
    ensures msg.target != TdModule ==> o.state.params == s.params
    ensures o.Succeeded() && msg.target == TdModule ==>
              var before := s.params.GetOr(ZeroParams);
              o.state.params.Some?
              && o.state.params.value == before.(trustDepositValue := o.state.params.value.trustDepositValue)
              && (o.state.params.value.trustDepositValue - before.trustDepositValue - msg.amount) % Two64 == 0
  {
    if !isAccAddress(msg.creator) then Outcome(s, Some(InvalidCreator(msg.creator)))
    else if msg.amount < 0 then Outcome(s, Some(NegativeCoinAmount(msg.amount)))
    else
      match Send(s.bank, User(msg.creator), Module(msg.target), msg.amount)
      case Err(e) => Outcome(s, Some(Transfer(e)))
      case Ok(bank) =>
        if msg.target == TdModule then
          // a params read error is ignored: the zero value is updated instead
          var params := s.params.GetOr(ZeroParams);
          var grown := params.(trustDepositValue := AddUint64(params.trustDepositValue, ToUint64(msg.amount)));
          Outcome(s.(bank := bank, params := Some(grown)), None)
        else Outcome(s.(bank := bank), None)
  }

  /** Funding the td module with an amount that does not overflow the
      parameter raises the trust deposit value by exactly that amount. */
  lemma FundingTdRaisesTrustDepositValue(s: TdState, msg: MsgFundModule, isAccAddress: string -> bool)
    requires FundModule(s, msg, isAccAddress).Succeeded() && msg.target == TdModule
    requires s.params.Some? && s.params.value.trustDepositValue + msg.amount < Two64
    ensures FundModule(s, msg, isAccAddress).state.params
            == Some(s.params.value.(trustDepositValue := s.params.value.trustDepositValue + msg.amount))
  {
  }
}
