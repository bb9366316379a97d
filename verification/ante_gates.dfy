/** The chain's two custom ante decorators (ante/validator_whitelist.go and
    ante/group_proposal_timing.go). Each scans the transaction's messages in
    order, rejects at the first message that breaks its rule, and otherwise
    hands the transaction to the next handler unchanged. */
module AnteGates {
  import opened Outcomes
  import opened Ints
  import opened GroupProposals

  /** The only operator address allowed to create a validator. */
  const AllowedValidatorAddress: string := "cosmosvaloper1rkz2eeu3rveg7u6srnsdkcjqmwc32kyl9565pm"

  datatype Msg =
    | MsgExec(proposalId: uint64, executor: string)
    | MsgCreateValidator(validatorAddress: string)
    | OtherMsg(typeUrl: string)

  datatype Tx = Tx(msgs: seq<Msg>)

  datatype Context = Context(blockTime: Time)

  datatype TimingReason =
    | ProposalLookupFailed
    | VotingPeriodNotEnded(votingPeriodEnd: Time, now: Time)
    | ProposalNotAccepted(status: ProposalStatus)

  /** `ErrInvalidRequest` and `ErrUnauthorized` of the SDK, with what their
      messages carry, and the rejections of the SDK's own decorators. */
  datatype AnteError =
    | InvalidRequest(proposalId: uint64, reason: TimingReason)
    | Unauthorized(address: string)
    | SdkRejection(message: string)

  type AnteResult = Result<Context, AnteError>

  type AnteHandler = (Context, Tx, bool) -> AnteResult

  /** The first message, in order, that `check` rejects. */
  function FirstViolation(msgs: seq<Msg>, check: Msg -> Option<AnteError>): (r: Option<AnteError>)
    ensures r.None? <==> forall i :: 0 <= i < |msgs| ==> check(msgs[i]).None?
    ensures r.Some? ==> exists i :: 0 <= i < |msgs| && check(msgs[i]) == r
                                    && forall j :: 0 <= j < i ==> check(msgs[j]).None?
    decreases |msgs|
  {
    if |msgs| == 0 then None
    else if check(msgs[0]).Some? then check(msgs[0])
    else
      var r := FirstViolation(msgs[1..], check);
      assert forall i :: 1 <= i < |msgs| ==> msgs[i] == msgs[1..][i - 1];
      assert r.Some? ==> exists i :: 0 <= i < |msgs| && check(msgs[i]) == r
                                     && forall j :: 0 <= j < i ==> check(msgs[j]).None? by {
        if r.Some? {
          var i :| 0 <= i < |msgs[1..]| && check(msgs[1..][i]) == r
                   && forall j :: 0 <= j < i ==> check(msgs[1..][j]).None?;
          assert check(msgs[i + 1]) == r;
        }
      }
      r
  }

  /** The whitelist's rule for one message. */
  function WhitelistCheck(m: Msg): (r: Option<AnteError>)
    ensures r.Some? <==> m.MsgCreateValidator? && m.validatorAddress != AllowedValidatorAddress
    ensures r.Some? ==> r.value == Unauthorized(m.validatorAddress)
  {
    match m
    case MsgCreateValidator(address) =>
      if address != AllowedValidatorAddress then Some(Unauthorized(address)) else None
    case _ => None
  }

  /** `ValidatorWhitelistDecorator.AnteHandle`. */
  function ValidatorWhitelistAnteHandle(ctx: Context, tx: Tx, simulate: bool, next: AnteHandler): (r: AnteResult)
    ensures (forall i :: 0 <= i < |tx.msgs| && tx.msgs[i].MsgCreateValidator? ==>
               tx.msgs[i].validatorAddress == AllowedValidatorAddress)
            ==> r == next(ctx, tx, simulate)
    ensures (exists i :: 0 <= i < |tx.msgs| && tx.msgs[i].MsgCreateValidator?
                         && tx.msgs[i].validatorAddress != AllowedValidatorAddress)
            ==> exists i :: 0 <= i < |tx.msgs| && tx.msgs[i].MsgCreateValidator?
                            && r == Err(Unauthorized(tx.msgs[i].validatorAddress))
                            && tx.msgs[i].validatorAddress != AllowedValidatorAddress
                            && forall j :: 0 <= j < i && tx.msgs[j].MsgCreateValidator? ==>
                                 tx.msgs[j].validatorAddress == AllowedValidatorAddress
  {
    match FirstViolation(tx.msgs, WhitelistCheck)
    case Some(e) => Err(e)
    case None => next(ctx, tx, simulate)
  }

  /** The timing gate's rule for one message: the proposal must be found,
      its voting period over and its status accepted, checked in that
      order. */
  function TimingCheck(table: ProposalTable, now: Time, m: Msg): (r: Option<AnteError>)
    ensures r.None? <==> !m.MsgExec? || (m.proposalId in table && !Before(now, table[m.proposalId].votingPeriodEnd)
                                       && table[m.proposalId].status == StatusAccepted)
    ensures m.MsgExec? && m.proposalId !in table ==> r == Some(InvalidRequest(m.proposalId, ProposalLookupFailed))
    ensures m.MsgExec? && m.proposalId in table && Before(now, table[m.proposalId].votingPeriodEnd) ==>
              r == Some(InvalidRequest(m.proposalId, VotingPeriodNotEnded(table[m.proposalId].votingPeriodEnd, now)))
    ensures m.MsgExec? && m.proposalId in table && !Before(now, table[m.proposalId].votingPeriodEnd)
            && table[m.proposalId].status != StatusAccepted ==>
              r == Some(InvalidRequest(m.proposalId, ProposalNotAccepted(table[m.proposalId].status)))
    ensures r.Some? ==> r.value.InvalidRequest? && r.value.proposalId == m.proposalId
  {
    match m
    case MsgExec(id, _) =>
      if id !in table then Some(InvalidRequest(id, ProposalLookupFailed))
      else
        var p := table[id];
        if Before(now, p.votingPeriodEnd) then Some(InvalidRequest(id, VotingPeriodNotEnded(p.votingPeriodEnd, now)))
        else if p.status != StatusAccepted then Some(InvalidRequest(id, ProposalNotAccepted(p.status)))
        else None
    case _ => None
  }

  /** A group proposal that may be executed at `now`. */
  predicate Executable(table: ProposalTable, now: Time, id: uint64) {
    id in table && !Before(now, table[id].votingPeriodEnd) && table[id].status == StatusAccepted
  }

  /** `GroupProposalTimingDecorator.AnteHandle`; `table` stands for the group
      keeper's `Proposal` query. */
  function GroupProposalTimingAnteHandle(table: ProposalTable, ctx: Context, tx: Tx, simulate: bool,
                                         next: AnteHandler): (r: AnteResult)
    ensures (forall i :: 0 <= i < |tx.msgs| && tx.msgs[i].MsgExec? ==>
               Executable(table, ctx.blockTime, tx.msgs[i].proposalId))
            ==> r == next(ctx, tx, simulate)
    ensures (exists i :: 0 <= i < |tx.msgs| && tx.msgs[i].MsgExec?
                         && !Executable(table, ctx.blockTime, tx.msgs[i].proposalId))
            ==> exists i :: 0 <= i < |tx.msgs| && tx.msgs[i].MsgExec?
                            && !Executable(table, ctx.blockTime, tx.msgs[i].proposalId)
                            && r == Err(TimingCheck(table, ctx.blockTime, tx.msgs[i]).value)
                            && forall j :: 0 <= j < i && tx.msgs[j].MsgExec? ==>
                                 Executable(table, ctx.blockTime, tx.msgs[j].proposalId)
  {
    match FirstViolation(tx.msgs, m => TimingCheck(table, ctx.blockTime, m))
    case Some(e) => Err(e)
    case None => next(ctx, tx, simulate)
  }
}
