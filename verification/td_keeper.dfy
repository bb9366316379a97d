/** The `td` keeper's stores, x/td/keeper/keeper.go: the params item, the
    persisted dust accumulator, and the bank state the module moves funds in. */
module TdKeeper {
  import opened Outcomes
  import opened Bank
  import opened TdParams
  import opened LegacyDec

  /** The dust item: never written, holding a decimal, or holding bytes that
      do not decode (the one store error other than not-found). */
  datatype DustCell = Unset | Stored(dust: Dec) | Undecodable

  datatype TdError =
    | ParamsNotFound
    | DustUndecodable
    | InvalidCreator(address: string)
    | NegativeCoinAmount(amount: int)
    | Transfer(cause: BankError)

  datatype TdState = TdState(params: Option<Params>, dust: DustCell, bank: Bank)

  /** `Params.Get`: fails when the item was never set. */
  function GetParams(s: TdState): (r: Result<Params, TdError>)
    ensures r.Ok? <==> s.params.Some?
    ensures r.Ok? ==> r.value == s.params.value
  {
    match s.params
    case Some(p) => Ok(p)
    case None => Err(ParamsNotFound)
  }

  /** `GetDustAmount`: a dust value that was never stored reads as zero; a
      value that cannot be decoded is an error. */
  function GetDustAmount(c: DustCell): (r: Result<Dec, TdError>)
    ensures c.Unset? ==> r == Ok(0)
    ensures c.Stored? ==> r == Ok(c.dust)
    ensures r.Err? <==> c.Undecodable?
  {
    match c
    case Unset => Ok(0)
    case Stored(d) => Ok(d)
    case Undecodable => Err(DustUndecodable)
  }

  /** `SetDustAmount`: whatever the item held, it then reads back as `amount`. */
  function SetDustAmount(c: DustCell, amount: Dec): (c': DustCell)
    ensures GetDustAmount(c') == Ok(amount)
  {
    Stored(amount)
  }

  /** `AddToDustAmount`: read, add, write back; a read error is returned and
      nothing is written. */
  function AddToDustAmount(c: DustCell, amount: Dec): (o: Outcome<DustCell, TdError>)
    ensures GetDustAmount(c).Ok? ==>
              o.Succeeded() && GetDustAmount(o.state) == Ok(GetDustAmount(c).value + amount)
    ensures GetDustAmount(c).Err? ==> o.state == c && o.failure == Some(DustUndecodable)
  {
    match GetDustAmount(c)
    case Err(e) => Outcome(c, Some(e))
    case Ok(d) => Outcome(SetDustAmount(c, d + amount), None)
  }

  /** `ResetDustAmount`: the dust then reads as zero, whatever it held. */
  function ResetDustAmount(c: DustCell): (c': DustCell)
    ensures GetDustAmount(c') == Ok(0)
  {
    SetDustAmount(c, 0)
  }

  /** Resetting twice leaves the same store as resetting once. */
  lemma ResetDustAmountIdempotent(c: DustCell)
    ensures ResetDustAmount(ResetDustAmount(c)) == ResetDustAmount(c)
  {
  }
}
