/** Yield settlement over many blocks: the dust carried from block to block
    makes every fraction of yield either paid out later or still held as
    dust, except the yield of blocks in which the verana pool was short,
    which the begin-block hook drops. */
module TdLedger {
  import opened Outcomes
  import opened Bank
  import opened LegacyDec
  import opened TdKeeper
  import opened TdAbci

  /** Totals after a run of blocks: whole uvna paid to the td module, yield
      dropped in skipped blocks (10^-18 units), and the dust left over. */
  datatype Totals = Totals(paid: nat, dropped: int, dust: Dec)

  /** Reference accounting: the settlement of consecutive blocks with a fixed
      per-block yield, `pools[i]` being the verana pool balance at block i. */
  function Ledger(dust: Dec, blockYield: Dec, pools: seq<nat>): (t: Totals)
    ensures t.paid * Precision + t.dust + t.dropped == dust + |pools| * blockYield
    ensures 0 <= dust < Precision && blockYield >= 0 ==> 0 <= t.dust < Precision
    ensures (forall i :: 0 <= i < |pools| ==> pools[i] == 0) ==> t.paid == 0
    ensures 0 <= dust < Precision && blockYield >= 0
            && (forall i :: 0 <= i < |pools| ==> pools[i] * Precision >= Precision + blockYield)
            ==> t.dropped == 0
    decreases |pools|
  {
    if |pools| == 0 then Totals(0, 0, dust)
    else
      assert |pools| * blockYield == blockYield + (|pools| - 1) * blockYield;
      match Settle(dust, blockYield, pools[0])
      case Accrue(newDust) =>
        Ledger(newDust, blockYield, pools[1..])
      case Skip =>
        var rest := Ledger(dust, blockYield, pools[1..]);
        rest.(dropped := rest.dropped + blockYield)
      case Pay(amount, newDust) =>
        var rest := Ledger(newDust, blockYield, pools[1..]);
        rest.(paid := rest.paid + amount)
  }

  /** One block of the yield step, read back through `Settle`: a successful
      step does exactly what `Settle` decides, and nothing else. */
  lemma YieldStepFollowsSettle(s: TdState)
    requires SendFundsFromVeranaPool(s).Succeeded()
    ensures GetParams(s).Ok? && GetDustAmount(s.dust).Ok?
    ensures
      var o := SendFundsFromVeranaPool(s).state;
      match Settle(GetDustAmount(s.dust).value, PerBlockYield(s.params.value),
                   Balance(s.bank, Module(VeranaPool)))
      case Accrue(newDust) => Received(s, o) == 0 && GetDustAmount(o.dust) == Ok(newDust)
      case Skip => o == s
      case Pay(amount, newDust) => Received(s, o) == amount && GetDustAmount(o.dust) == Ok(newDust)
  {
  }

  /** The chain over several blocks: before each block an outside deposit
      (possibly zero) lands in the verana pool, then the begin-block hook runs;
      the first block whose hook fails ends the run. */
  function RunBlocks(s: TdState, deposits: seq<nat>): (o: Outcome<TdState, TdError>)
    ensures o.state.params == s.params
    ensures o.Succeeded() && |deposits| > 0 ==> Balance(o.state.bank, Module(VeranaPool)) == 0
    ensures Healthy(s) ==> o.Succeeded() && Healthy(o.state)
    decreases |deposits|
  {
    if |deposits| == 0 then Outcome(s, None)
    else
      var funded := Deposit(s, deposits[0]);
      var o := BeginBlocker(funded);
      assert Healthy(s) ==> o.Succeeded() && Healthy(o.state) by {
        if Healthy(s) {
          HealthyBlockSucceeds(funded);
        }
      }
      if o.failure.Some? then o
      else RunBlocks(o.state, deposits[1..])
  }

  function Deposit(s: TdState, amount: nat): (s': TdState)
    ensures Balance(s'.bank, Module(VeranaPool)) == Balance(s.bank, Module(VeranaPool)) + amount
    ensures Received(s, s') == 0
    ensures s'.params == s.params && s'.dust == s.dust
    ensures s'.bank.modules == s.bank.modules
  {
    var pool := Module(VeranaPool);
    s.(bank := WithBalance(s.bank, pool, Balance(s.bank, pool) + amount))
  }

  /** The pool balance each block of a run sees: the first block sees what the
      pool already held plus its deposit; later blocks see only their own
      deposit, because every successful block sweeps the pool empty. */
  function PoolsSeen(initialPool: nat, deposits: seq<nat>): (pools: seq<nat>)
    requires |deposits| > 0
    ensures |pools| == |deposits|
  {
    [initialPool + deposits[0]] + deposits[1..]
  }

  /** A run of the real hook from healthy stores succeeds, pays the td
      module exactly what the reference ledger pays, and leaves exactly the
      ledger's dust. */
  lemma {:induction false} RunBlocksFollowsLedger(s: TdState, deposits: seq<nat>)
    requires |deposits| > 0
    requires Healthy(s)
    ensures RunBlocks(s, deposits).Succeeded()
    ensures GetParams(s).Ok? && GetDustAmount(s.dust).Ok?
    ensures
      var t := Ledger(GetDustAmount(s.dust).value, PerBlockYield(s.params.value),
                      PoolsSeen(Balance(s.bank, Module(VeranaPool)), deposits));
      Received(s, RunBlocks(s, deposits).state) == t.paid &&
      GetDustAmount(RunBlocks(s, deposits).state.dust) == Ok(t.dust)
    decreases |deposits|
  {
    var funded := Deposit(s, deposits[0]);
    var block := BeginBlocker(funded);
    var step := SendFundsFromVeranaPool(funded);
    HealthyBlockSucceeds(funded);
    assert block.Succeeded();
    assert step.Succeeded();
    YieldStepFollowsSettle(funded);
    var y := PerBlockYield(s.params.value);
    var pools := PoolsSeen(Balance(s.bank, Module(VeranaPool)), deposits);
    assert pools[0] == Balance(funded.bank, Module(VeranaPool));
    assert GetDustAmount(block.state.dust) == GetDustAmount(step.state.dust);
    assert Received(funded, block.state) == Received(funded, step.state);
    if |deposits| == 1 {
      assert RunBlocks(s, deposits) == RunBlocks(block.state, []);
      assert pools[1..] == [];
    } else {
      assert RunBlocks(s, deposits) == RunBlocks(block.state, deposits[1..]);
      RunBlocksFollowsLedger(block.state, deposits[1..]);
      assert pools[1..] == PoolsSeen(Balance(block.state.bank, Module(VeranaPool)), deposits[1..]);
    }
  }

  /** The conservation law of the settlement engine: when every block's pool
      can cover the payment, the yield of n blocks equals the uvna paid plus
      the dust left, exactly, in 10^-18 units. */
  lemma {:induction false} YieldIsConserved(s: TdState, deposits: seq<nat>)
    requires |deposits| > 0
    requires Healthy(s)
    requires 0 <= GetDustAmount(s.dust).value < Precision
    requires PerBlockYield(s.params.value) >= 0
    requires forall i :: 0 <= i < |deposits| ==>
               deposits[i] * Precision >= Precision + PerBlockYield(s.params.value)
    ensures
      var final := RunBlocks(s, deposits).state;
      GetDustAmount(final.dust).Ok? &&
      Received(s, final) * Precision + GetDustAmount(final.dust).value
      == GetDustAmount(s.dust).value + |deposits| * PerBlockYield(s.params.value)
  {
    RunBlocksFollowsLedger(s, deposits);
    var pools := PoolsSeen(Balance(s.bank, Module(VeranaPool)), deposits);
    assert pools[0] >= deposits[0];
    assert forall i :: 0 <= i < |pools| ==> pools[i] * Precision >= Precision + PerBlockYield(s.params.value) by {
      forall i | 0 <= i < |pools|
        ensures pools[i] * Precision >= Precision + PerBlockYield(s.params.value)
      {
        if i == 0 {
          MulMono(deposits[0], pools[0], Precision);
        } else {
          assert pools[i] == deposits[i];
        }
      }
    }
  }

  /** With an empty verana pool and only zero deposits, the td module never
      receives anything, however many blocks pass. */
  lemma EmptyPoolNeverPays(s: TdState, deposits: seq<nat>)
    requires |deposits| > 0
    requires Balance(s.bank, Module(VeranaPool)) == 0
    requires forall i :: 0 <= i < |deposits| ==> deposits[i] == 0
    requires Healthy(s)
    ensures RunBlocks(s, deposits).Succeeded()
    ensures Received(s, RunBlocks(s, deposits).state) == 0
  {
    RunBlocksFollowsLedger(s, deposits);
    var pools := PoolsSeen(0, deposits);
    assert forall i :: 0 <= i < |pools| ==> pools[i] == 0;
  }
}
