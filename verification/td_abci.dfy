/** The `td` begin-block hook, x/td/keeper/abci.go: each block a fixed yield
    is added to the carried dust, whole `uvna` units are paid from the verana
    pool to the td module when the pool can cover them, and whatever is left
    in the pool is swept to the community pool. */
module TdAbci {
  import opened Ints
  import opened Outcomes
  import opened Bank
  import opened LegacyDec
  import opened TdParams
  import opened TdKeeper

  /** Hard-coded blocks per year. */
  const BlocksPerYear: int := 6311520

  /** Module account names. The `td` keys file is not part of this model, so
      the first two are stand-ins; only their being distinct matters. The
      hard-coded bech32 pool address is taken to be the verana pool account. */
  const TdModule: string := "td"
  const VeranaPool: string := "verana_pool"
  const CommunityPool: string := "protocolpool"

  /** `(int64(TrustDepositValue) · TrustDepositYieldRate) / BlocksPerYear`, in
      10^-18 units. When the value fits in an `int64` and the rate is not
      negative, the annual yield value × rate is exact and the per-block yield
      is within one 10^-18 unit per block of a year of it: |y·B − value·rate| ≤ B. */
  function PerBlockYield(p: Params): (y: Dec)
    ensures p.trustDepositValue < Two63 && p.trustDepositYieldRate >= 0 ==>
              y >= 0
              && p.trustDepositValue * p.trustDepositYieldRate - BlocksPerYear
                 <= y * BlocksPerYear
                 <= p.trustDepositValue * p.trustDepositYieldRate + BlocksPerYear
  {
    var annual := Mul(FromInt(ToInt64(p.trustDepositValue)), p.trustDepositYieldRate);
    var y := Quo(annual, FromInt(BlocksPerYear));
    assert p.trustDepositValue < Two63 && p.trustDepositYieldRate >= 0 ==>
             y >= 0
             && p.trustDepositValue * p.trustDepositYieldRate - BlocksPerYear
                <= y * BlocksPerYear
                <= p.trustDepositValue * p.trustDepositYieldRate + BlocksPerYear
    by {
      if p.trustDepositValue < Two63 && p.trustDepositYieldRate >= 0 {
        MulByIntegerIsExact(p.trustDepositValue, p.trustDepositYieldRate);
        MulMono(0, p.trustDepositValue, p.trustDepositYieldRate);
        YearToBlock(annual);
      }
    }
    y
  }

  /** Dividing a non-negative annual amount by the blocks per year loses at
      most one 10^-18 unit per block: |y·B − annual| ≤ B. */
  lemma YearToBlock(annual: Dec)
    requires annual >= 0
    ensures Quo(annual, FromInt(BlocksPerYear)) >= 0
    ensures annual - BlocksPerYear
            <= Quo(annual, FromInt(BlocksPerYear)) * BlocksPerYear
            <= annual + BlocksPerYear
  {
    var y := Quo(annual, FromInt(BlocksPerYear));
    QuoNearExact(annual, FromInt(BlocksPerYear));
    assert annual * Precision - BlocksPerYear * Precision <= y * BlocksPerYear * Precision;
    assert y * BlocksPerYear * Precision <= annual * Precision + BlocksPerYear * Precision;
    CancelLe(annual - BlocksPerYear, y * BlocksPerYear, Precision);
    CancelLe(y * BlocksPerYear, annual + BlocksPerYear, Precision);
  }

  /** A deposit of 1,000,000 uvna at a 15% yield rate earns
      0.023766065860521713 uvna per block (rounded at the 18th digit). */
  lemma PerBlockYieldExample()
    ensures PerBlockYield(Params(0, 1_000_000, 150_000_000_000_000_000)) == 23_766_065_860_521_713
  {
    MulByIntegerIsExact(1_000_000, 150_000_000_000_000_000);
  }

  /** What the yield step decides for one block, from the stored dust, the
      block's yield and the verana pool balance. */
  datatype Settlement =
    | Accrue(newDust: Dec)             // total below one uvna: carry it all
    | Skip                             // pool cannot cover the whole units: do nothing
    | Pay(amount: nat, newDust: Dec)   // move the whole units, carry the fraction

  function Settle(dust: Dec, blockYield: Dec, pool: nat): (s: Settlement)
    ensures s.Accrue? <==> dust + blockYield < Precision
    ensures s.Pay? <==> dust + blockYield >= Precision && TruncateInt(dust + blockYield) <= pool
    ensures s.Accrue? ==> s.newDust == dust + blockYield
    ensures s.Pay? ==> s.amount >= 1 && s.amount <= pool
    ensures s.Pay? ==> s.amount * Precision + s.newDust == dust + blockYield
    ensures s.Pay? ==> 0 <= s.newDust < Precision
  {
    var total := dust + blockYield;
    if total >= Precision then
      var whole := TruncateInt(total);
      if pool < whole then Skip
      else Pay(whole, total - FromInt(whole))
    else Accrue(total)
  }

  /** The uvna the td module account gained between two states. */
  function Received(s: TdState, s': TdState): int {
    Balance(s'.bank, Module(TdModule)) - Balance(s.bank, Module(TdModule))
  }

  /** `SendFundsFromVeranaPool`. */
  function SendFundsFromVeranaPool(s: TdState): (o: Outcome<TdState, TdError>)
    ensures o.state.params == s.params
    ensures o.failure.Some? ==> o.state == s
    ensures GetParams(s).Err? ==> o.failure == Some(ParamsNotFound)
    ensures GetParams(s).Ok? && GetDustAmount(s.dust).Err? ==> o.failure == Some(DustUndecodable)
    ensures o.Succeeded() ==> GetParams(s).Ok? && GetDustAmount(s.dust).Ok?
    ensures o.Succeeded() ==>
              var dust := GetDustAmount(s.dust).value;
              var total := dust + PerBlockYield(s.params.value);
              var paid := Received(s, o.state);
              GetDustAmount(o.state.dust).Ok? &&
              ( // the yield is carried or paid out, and nothing is lost ...
                paid * Precision + GetDustAmount(o.state.dust).value == total
                // ... or the pool is short and the whole step is skipped
              || (o.state == s && total >= Precision
                  && Balance(s.bank, Module(VeranaPool)) < TruncateInt(total)))
    ensures o.Succeeded() && o.state.bank != s.bank ==>
              Balance(o.state.bank, Module(VeranaPool)) + Balance(o.state.bank, Module(TdModule))
              == Balance(s.bank, Module(VeranaPool)) + Balance(s.bank, Module(TdModule))
  {
    match GetParams(s)
    case Err(e) => Outcome(s, Some(e))
    case Ok(params) =>
      match GetDustAmount(s.dust)
      case Err(e) => Outcome(s, Some(e))
      case Ok(dust) =>
        match Settle(dust, PerBlockYield(params), Balance(s.bank, Module(VeranaPool)))
        case Accrue(newDust) => Outcome(s.(dust := SetDustAmount(s.dust, newDust)), None)
        case Skip => Outcome(s, None)
        case Pay(amount, newDust) =>
          match Send(s.bank, Module(VeranaPool), Module(TdModule), amount)
          case Err(e) => Outcome(s, Some(Transfer(e)))
          case Ok(bank) => Outcome(s.(bank := bank, dust := SetDustAmount(s.dust, newDust)), None)
  }

  /** `SendFundsBackToCommunityPool`: an empty pool is left alone; otherwise
      its whole balance goes to the community pool. */
  function SendFundsBackToCommunityPool(s: TdState): (o: Outcome<TdState, TdError>)
    ensures o.state.params == s.params && o.state.dust == s.dust
    ensures o.failure.Some? ==> o.state == s
    ensures Balance(s.bank, Module(VeranaPool)) == 0 ==> o == Outcome(s, None)
    ensures o.Succeeded() ==> Balance(o.state.bank, Module(VeranaPool)) == 0
    ensures o.Succeeded() ==>
              Balance(o.state.bank, Module(CommunityPool))
              == Balance(s.bank, Module(CommunityPool)) + Balance(s.bank, Module(VeranaPool))
    ensures forall a :: a != Module(VeranaPool) && a != Module(CommunityPool) ==>
              Balance(o.state.bank, a) == Balance(s.bank, a)
  {
    var balance := Balance(s.bank, Module(VeranaPool));
    if balance == 0 then Outcome(s, None)
    else
      match Send(s.bank, Module(VeranaPool), Module(CommunityPool), balance)
      case Err(e) => Outcome(s, Some(Transfer(e)))
      case Ok(bank) => Outcome(s.(bank := bank), None)
  }

  /** `BeginBlocker`: the yield step, then the sweep; an error in the yield
      step is returned before the sweep runs. */
  function BeginBlocker(s: TdState): (o: Outcome<TdState, TdError>)
    ensures SendFundsFromVeranaPool(s).failure.Some? ==> o == SendFundsFromVeranaPool(s)
    ensures SendFundsFromVeranaPool(s).Succeeded() ==>
              o.failure.Some? ==> o.state == SendFundsFromVeranaPool(s).state
    ensures o.state.params == s.params
    ensures o.Succeeded() ==> Balance(o.state.bank, Module(VeranaPool)) == 0
    ensures o.Succeeded() ==> Received(s, o.state) == Received(s, SendFundsFromVeranaPool(s).state)
    ensures o.Succeeded() ==>
              Balance(o.state.bank, Module(VeranaPool)) + Balance(o.state.bank, Module(TdModule))
                + Balance(o.state.bank, Module(CommunityPool))
              == Balance(s.bank, Module(VeranaPool)) + Balance(s.bank, Module(TdModule))
                + Balance(s.bank, Module(CommunityPool))
  {
    var yieldStep := SendFundsFromVeranaPool(s);
    if yieldStep.failure.Some? then yieldStep
    else SendFundsBackToCommunityPool(yieldStep.state)
  }

  /** The stores the hook relies on are in place: the params item is
      written, the dust decodes, and the three module accounts exist. */
  predicate Healthy(s: TdState) {
    && s.params.Some?
    && !s.dust.Undecodable?
    && TdModule in s.bank.modules
    && VeranaPool in s.bank.modules
    && CommunityPool in s.bank.modules
  }

  /** With its stores in place the hook never fails, and it leaves them in
      place: the pool always covers what the yield step moves, and the sweep
      moves exactly the pool's balance. */
  lemma HealthyBlockSucceeds(s: TdState)
    requires Healthy(s)
    ensures BeginBlocker(s).Succeeded() && Healthy(BeginBlocker(s).state)
  {
    var step := SendFundsFromVeranaPool(s);
    var dust := GetDustAmount(s.dust).value;
    match Settle(dust, PerBlockYield(s.params.value), Balance(s.bank, Module(VeranaPool)))
    case Accrue(_) =>
    case Skip =>
    case Pay(amount, _) =>
      assert Send(s.bank, Module(VeranaPool), Module(TdModule), amount).Ok?;
    assert step.Succeeded();
    assert step.state.bank.modules == s.bank.modules;
    var pool := Balance(step.state.bank, Module(VeranaPool));
    if pool > 0 {
      assert Send(step.state.bank, Module(VeranaPool), Module(CommunityPool), pool).Ok?;
    }
  }
}
