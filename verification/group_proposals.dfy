/** The parts of the Cosmos SDK group module that the chain's own code reads:
    a proposal's identity, its policy, its status, its executor result and
    the end of its voting period, and the keeper's `Proposal` lookup by id. */
module GroupProposals {
  import opened Ints

  /** Block time, as an instant on a single integer scale. */
  type Time = int

  /** `time.Time.Before`: strictly earlier. */
  predicate Before(t: Time, u: Time) {
    t < u
  }

  datatype ProposalStatus =
    | StatusUnspecified
    | StatusSubmitted
    | StatusAccepted
    | StatusRejected
    | StatusAborted
    | StatusWithdrawn

  datatype ExecutorResult =
    | ResultUnspecified
    | ResultNotRun
    | ResultSuccess
    | ResultFailure

  datatype Proposal = Proposal(
    id: uint64,
    groupPolicyAddress: string,
    status: ProposalStatus,
    executorResult: ExecutorResult,
    votingPeriodEnd: Time)

  /** What the group keeper's `Proposal` query answers, by proposal id; an
      id outside the table is a failed query. */
  type ProposalTable = map<uint64, Proposal>
}
