/** Parameters of the trust-deposit (`td`) module, x/td/types/params.go.
    The generated `Params` message is not part of this model; the fields are
    the three the module's Go code reads or writes. */
module TdParams {
  import opened Ints
  import opened Outcomes
  import LegacyDec

  const DefaultTrustDepositShareValue: uint64 := 1

  datatype Params = Params(
    trustDepositShareValue: uint64,
    trustDepositValue: uint64,
    trustDepositYieldRate: LegacyDec.Dec)

  /** Go's zero value of `Params`, which `FundModule` works on when the
      params item cannot be read. */
  const ZeroParams := Params(0, 0, 0)

  /** `NewParams` sets the share value; the other fields keep their zero value. */
  function NewParams(trustDepositShareValue: uint64): (p: Params)
    ensures p.trustDepositShareValue == trustDepositShareValue
    ensures p.(trustDepositShareValue := 0) == ZeroParams
  {
    Params(trustDepositShareValue, 0, 0)
  }

  function DefaultParams(): (p: Params)
    ensures p.trustDepositShareValue == 1
    ensures p.trustDepositValue == 0 && p.trustDepositYieldRate == 0
  {
    NewParams(DefaultTrustDepositShareValue)
  }

  /** `Params.Validate`: the share-value validator accepts every value, so
      validation never fails. */
  function Validate(p: Params): (r: Option<string>)
    ensures r.None?
  {
    ValidateTrustDepositShareValue(p.trustDepositShareValue)
  }

  /** The share-value validator accepts every value. */
  function ValidateTrustDepositShareValue(v: uint64): (r: Option<string>)
    ensures r.None?
  {
    None
  }
}
