/** The transaction admission pipeline of ante/ante.go: which decorators
    `NewAnteHandler` chains, and how `sdk.ChainAnteDecorators` runs them, each
    decorator either rejecting or calling the rest of the chain. The SDK's
    own decorators are opaque here: `External` gives their verdicts. */
module AnteChain {
  import opened Outcomes
  import opened GroupProposals
  import opened AnteGates

  datatype Decorator =
    | SetUpContext
    | ValidateBasic
    | ValidatorWhitelist
    | GroupProposalTiming
    | DeductFee
    | IncrementSequence

  /** The verdict of an SDK decorator on a transaction. */
  type External = (Decorator, Context, Tx) -> Option<AnteError>

  /** `NewAnteHandler`: the decorators, outermost first, or the error for
      the first missing dependency. */
  function NewAnteHandler(bankKeeperSet: bool, signModeHandlerSet: bool): (r: Result<seq<Decorator>, string>)
    ensures r.Ok? <==> bankKeeperSet && signModeHandlerSet
    ensures !bankKeeperSet ==> r == Err("bank keeper is required")
    ensures bankKeeperSet && !signModeHandlerSet ==> r == Err("sign mode handler is required")
    ensures r.Ok? ==> r.value == [SetUpContext, ValidateBasic, ValidatorWhitelist, DeductFee, IncrementSequence]
    ensures r.Ok? ==> GroupProposalTiming !in r.value
    ensures r.Ok? ==> |r.value| > 0 && r.value[0] == SetUpContext
    ensures r.Ok? ==> exists i, j :: 0 <= i < j < |r.value| && r.value[i] == ValidatorWhitelist && r.value[j] == DeductFee
    ensures r.Ok? ==> forall i :: 0 <= i < |r.value| && r.value[i] == DeductFee ==>
                        exists k :: 0 <= k < i && r.value[k] == ValidatorWhitelist
  {
    if !bankKeeperSet then Err("bank keeper is required")
    else if !signModeHandlerSet then Err("sign mode handler is required")
    else
      var ds := [SetUpContext, ValidateBasic, ValidatorWhitelist, DeductFee, IncrementSequence];
      assert ds[2] == ValidatorWhitelist && ds[3] == DeductFee;
      Ok(ds)
  }

  /** What one decorator decides about a transaction on its own. */
  function Verdict(d: Decorator, table: ProposalTable, ext: External, ctx: Context, tx: Tx): Option<AnteError> {
    match d
    case ValidatorWhitelist => FirstViolation(tx.msgs, WhitelistCheck)
    case GroupProposalTiming => FirstViolation(tx.msgs, m => TimingCheck(table, ctx.blockTime, m))
    case _ => ext(d, ctx, tx)
  }

  /** One decorator's `AnteHandle`, given the rest of the chain as `next`. */
  function Decorate(d: Decorator, table: ProposalTable, ext: External, ctx: Context, tx: Tx, simulate: bool,
                    next: AnteHandler): (r: AnteResult)
    ensures Verdict(d, table, ext, ctx, tx).None? ==> r == next(ctx, tx, simulate)
    ensures Verdict(d, table, ext, ctx, tx).Some? ==> r == Err(Verdict(d, table, ext, ctx, tx).value)
  {
    match d
    case ValidatorWhitelist => ValidatorWhitelistAnteHandle(ctx, tx, simulate, next)
    case GroupProposalTiming => GroupProposalTimingAnteHandle(table, ctx, tx, simulate, next)
    case _ =>
      match ext(d, ctx, tx)
      case Some(e) => Err(e)
      case None => next(ctx, tx, simulate)
  }

  /** `sdk.ChainAnteDecorators`: each decorator's `next` is the rest of the
      chain, and the end of the chain accepts. */
  function ChainAnteDecorators(ds: seq<Decorator>, table: ProposalTable, ext: External): AnteHandler
    decreases |ds|
  {
    if |ds| == 0 then (ctx: Context, tx: Tx, simulate: bool) => Ok(ctx)
    else
      (ctx: Context, tx: Tx, simulate: bool) =>
        Decorate(ds[0], table, ext, ctx, tx, simulate, ChainAnteDecorators(ds[1..], table, ext))
  }

  /** A run of the chain: its result and the decorators it reached. */
  datatype ChainRun = ChainRun(result: AnteResult, reached: seq<Decorator>)

  /** The chain as a short-circuiting walk: decorators run in order, the
      first rejection ends the walk, and an empty verdict everywhere admits
      the transaction. */
  function RunChain(ds: seq<Decorator>, table: ProposalTable, ext: External, ctx: Context, tx: Tx): (r: ChainRun)
    ensures |r.reached| <= |ds| && r.reached == ds[..|r.reached|]
    ensures r.result.Ok? <==> forall k :: 0 <= k < |ds| ==> Verdict(ds[k], table, ext, ctx, tx).None?
    ensures r.result.Ok? ==> r.result == Ok(ctx) && r.reached == ds
    ensures r.result.Err? ==>
              && |r.reached| > 0
              && Verdict(r.reached[|r.reached| - 1], table, ext, ctx, tx) == Some(r.result.error)
              && forall k :: 0 <= k < |r.reached| - 1 ==> Verdict(r.reached[k], table, ext, ctx, tx).None?
    decreases |ds|
  {
    if |ds| == 0 then ChainRun(Ok(ctx), [])
    else
      match Verdict(ds[0], table, ext, ctx, tx)
      case Some(e) => ChainRun(Err(e), [ds[0]])
      case None =>
        var rest := RunChain(ds[1..], table, ext, ctx, tx);
        assert forall k :: 1 <= k < |ds| ==> ds[k] == ds[1..][k - 1];
        ChainRun(rest.result, [ds[0]] + rest.reached)
  }

  /** The composed handler and the walk agree on every transaction. */
  lemma {:induction false} ChainFollowsRun(ds: seq<Decorator>, table: ProposalTable, ext: External,
                                           ctx: Context, tx: Tx, simulate: bool)
    ensures ChainAnteDecorators(ds, table, ext)(ctx, tx, simulate) == RunChain(ds, table, ext, ctx, tx).result
    decreases |ds|
  {
    if |ds| > 0 {
      ChainFollowsRun(ds[1..], table, ext, ctx, tx, simulate);
    }
  }

  /** With the chain `NewAnteHandler` builds, a transaction that passes the
      SDK's context set-up and basic validation but creates a validator with
      any other operator address is rejected as unauthorized before any fee
      is deducted or sequence incremented. */
  lemma WhitelistRejectsBeforeFees(table: ProposalTable, ext: External, ctx: Context, tx: Tx, i: nat)
    requires ext(SetUpContext, ctx, tx).None? && ext(ValidateBasic, ctx, tx).None?
    requires i < |tx.msgs| && tx.msgs[i].MsgCreateValidator?
    requires tx.msgs[i].validatorAddress != AllowedValidatorAddress
    ensures
      var run := RunChain(NewAnteHandler(true, true).value, table, ext, ctx, tx);
      && run.result.Err? && run.result.error.Unauthorized?
      && DeductFee !in run.reached && IncrementSequence !in run.reached
  {
    var ds := NewAnteHandler(true, true).value;
    assert WhitelistCheck(tx.msgs[i]).Some?;
    var v := FirstViolation(tx.msgs, WhitelistCheck);
    assert v.Some? && v.value.Unauthorized?;
    assert ds[2..][0] == ValidatorWhitelist;
    var r3 := RunChain(ds[2..], table, ext, ctx, tx);
    assert r3 == ChainRun(Err(v.value), [ValidatorWhitelist]);
    var r2 := RunChain(ds[1..], table, ext, ctx, tx);
    assert ds[1..][1..] == ds[2..];
    assert r2 == ChainRun(r3.result, [ValidateBasic] + r3.reached);
    var run := RunChain(ds, table, ext, ctx, tx);
    assert run == ChainRun(r2.result, [SetUpContext] + r2.reached);
    assert run.reached == [SetUpContext, ValidateBasic, ValidatorWhitelist];
  }

  /** The timing gate is not in the chain: admission does not depend on the
      group proposals at all. */
  lemma AdmissionIgnoresProposals(table1: ProposalTable, table2: ProposalTable, ext: External, ctx: Context, tx: Tx)
    ensures RunChain(NewAnteHandler(true, true).value, table1, ext, ctx, tx)
            == RunChain(NewAnteHandler(true, true).value, table2, ext, ctx, tx)
  {
    var ds := NewAnteHandler(true, true).value;
    forall k | 0 <= k < |ds| ensures Verdict(ds[k], table1, ext, ctx, tx) == Verdict(ds[k], table2, ext, ctx, tx) {
    }
    SameVerdictsSameRun(ds, table1, table2, ext, ctx, tx);
  }

  lemma {:induction false} SameVerdictsSameRun(ds: seq<Decorator>, table1: ProposalTable, table2: ProposalTable,
                                               ext: External, ctx: Context, tx: Tx)
    requires forall k :: 0 <= k < |ds| ==> Verdict(ds[k], table1, ext, ctx, tx) == Verdict(ds[k], table2, ext, ctx, tx)
    ensures RunChain(ds, table1, ext, ctx, tx) == RunChain(ds, table2, ext, ctx, tx)
    decreases |ds|
  {
    if |ds| > 0 {
      assert forall k :: 1 <= k < |ds| ==> ds[k] == ds[1..][k - 1];
      SameVerdictsSameRun(ds[1..], table1, table2, ext, ctx, tx);
    }
  }

  /** A proposal whose voting period ends at 2000, seen at time 1000. */
  function PendingTable(): ProposalTable {
    map[7 := Proposal(7, "policy", StatusAccepted, ResultNotRun, 2000)]
  }

  /** The timing decorator on its own turns a premature `MsgExec` away. */
  lemma TimingGateRejectsPrematureExec()
    ensures GroupProposalTimingAnteHandle(PendingTable(), Context(1000), Tx([MsgExec(7, "policy")]), false,
                                          (c: Context, t: Tx, s: bool) => Ok(c))
            == Err(InvalidRequest(7, VotingPeriodNotEnded(2000, 1000)))
  {
    var tx := Tx([MsgExec(7, "policy")]);
    assert TimingCheck(PendingTable(), 1000, tx.msgs[0]).Some?;
  }

  /** The chain admits the same premature `MsgExec`. */
  lemma PrematureExecIsAdmitted(ext: External)
    requires forall d :: ext(d, Context(1000), Tx([MsgExec(7, "policy")])).None?
    ensures ChainAnteDecorators(NewAnteHandler(true, true).value, PendingTable(), ext)
              (Context(1000), Tx([MsgExec(7, "policy")]), false)
            == Ok(Context(1000))
  {
    var tx := Tx([MsgExec(7, "policy")]);
    var ds := NewAnteHandler(true, true).value;
    ChainFollowsRun(ds, PendingTable(), ext, Context(1000), tx, false);
    assert WhitelistCheck(tx.msgs[0]).None?;
    forall k | 0 <= k < |ds| ensures Verdict(ds[k], PendingTable(), ext, Context(1000), tx).None? {
    }
  }

  /** A premature `MsgExec` followed by a validator creation from a foreign
      address is rejected by the whitelist, not by the timing rule. */
  lemma WhitelistAnswersMixedTx(ext: External)
    requires forall d :: ext(d, Context(1000), Tx([MsgExec(7, "policy"), MsgCreateValidator("cosmosvaloper1other")])).None?
    ensures ChainAnteDecorators(NewAnteHandler(true, true).value, PendingTable(), ext)
              (Context(1000), Tx([MsgExec(7, "policy"), MsgCreateValidator("cosmosvaloper1other")]), false)
            == Err(Unauthorized("cosmosvaloper1other"))
  {
    var tx := Tx([MsgExec(7, "policy"), MsgCreateValidator("cosmosvaloper1other")]);
    var ds := NewAnteHandler(true, true).value;
    ChainFollowsRun(ds, PendingTable(), ext, Context(1000), tx, false);
    assert WhitelistCheck(tx.msgs[0]).None?;
    assert WhitelistCheck(tx.msgs[1]).Some?;
    WhitelistRejectsBeforeFees(PendingTable(), ext, Context(1000), tx, 1);
  }
}
