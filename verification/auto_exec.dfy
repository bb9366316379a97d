/** The registry module's EndBlock (x/validatorregistry/module/module.go):
    a scan over the groups the group keeper lists, the policies it lists for
    each group and the proposals it lists for each policy, which hands each accepted proposal whose voting period has
    ended and which has not been executed to the group keeper's `Exec`.

    The scan reads the group keeper through a `Snapshot`: the listings it
    obtains (each of which may fail) and the `Proposal` lookup table. The
    queries carry no page request, so each listing is the keeper's first
    page; the snapshot holds those pages as returned. The
    outcome of each `Exec` call is a parameter. */
module AutoExec {
  import opened Outcomes
  import opened Ints
  import opened GroupProposals

  /** A listing query's answer. */
  datatype Listing<T> = Listed(items: seq<T>) | QueryFailed(reason: string)

  datatype PolicyView = PolicyView(address: string, proposals: Listing<Proposal>)

  datatype GroupView = GroupView(id: uint64, policies: Listing<PolicyView>)

  datatype Snapshot = Snapshot(groups: Listing<GroupView>, table: ProposalTable)

  /** A `MsgExec` handed to the group keeper. */
  datatype ExecCall = ExecCall(proposalId: uint64, executor: string)

  /** One `Exec` call and whether it returned without error. */
  datatype Attempt = Attempt(call: ExecCall, succeeded: bool)

  datatype ScanResult = ScanResult(attempts: seq<Attempt>, failure: Option<string>)

  datatype PrepareError =
    | LookupFailed(proposalId: uint64)
    | NotAccepted(proposalId: uint64, status: ProposalStatus)
    | VotingNotEnded(proposalId: uint64)

  /** A failed listing contributes nothing. */
  function Items<T>(l: Listing<T>): seq<T> {
    if l.Listed? then l.items else []
  }

  /** The listing-side filter of the scan: voting over (the end itself
      included), no final executor result yet, and accepted. */
  predicate ReadyToExecute(p: Proposal, now: Time) {
    && !Before(now, p.votingPeriodEnd)
    && p.executorResult != ResultSuccess
    && p.executorResult != ResultFailure
    && p.status == StatusAccepted
  }

  /** `tryExecuteProposal` up to the `Exec` call: it fetches the proposal
      again and re-checks its status, then its voting period; the executor
      is the proposal's own group policy. */
  function PrepareExec(table: ProposalTable, now: Time, id: uint64): (r: Result<ExecCall, PrepareError>)
    ensures r.Ok? <==> id in table && table[id].status == StatusAccepted && !Before(now, table[id].votingPeriodEnd)
    ensures r.Ok? ==> r.value.proposalId == id && r.value.executor == table[id].groupPolicyAddress
    ensures id !in table ==> r == Err(LookupFailed(id))
    ensures id in table && table[id].status != StatusAccepted ==> r == Err(NotAccepted(id, table[id].status))
  {
    if id !in table then Err(LookupFailed(id))
    else
      var p := table[id];
      if p.status != StatusAccepted then Err(NotAccepted(id, p.status))
      else if Before(now, p.votingPeriodEnd) then Err(VotingNotEnded(id))
      else Ok(ExecCall(id, p.groupPolicyAddress))
  }

  /** A listed proposal for which the scan calls `Exec`. */
  predicate Executes(p: Proposal, table: ProposalTable, now: Time) {
    ReadyToExecute(p, now) && PrepareExec(table, now, p.id).Ok?
  }

  function CallsOf(attempts: seq<Attempt>): (cs: seq<ExecCall>)
    ensures |cs| == |attempts|
    ensures forall k :: 0 <= k < |attempts| ==> cs[k] == attempts[k].call
  {
    seq(|attempts|, k requires 0 <= k < |attempts| => attempts[k].call)
  }

  /** The innermost loop, over one list of proposals in order. Neither a
      failed preparation nor a failed `Exec` stops it. */
  function ScanProposals(ps: seq<Proposal>, table: ProposalTable, now: Time, exec: ExecCall -> bool)
    : (r: seq<Attempt>)
    ensures |r| <= |ps|
    ensures forall k :: 0 <= k < |r| ==> r[k].succeeded == exec(r[k].call)
    ensures forall c :: c in CallsOf(r) <==>
              exists i :: 0 <= i < |ps| && Executes(ps[i], table, now) && c == PrepareExec(table, now, ps[i].id).value
    decreases |ps|
  {
    if |ps| == 0 then []
    else
      var p := ps[0];
      var rest := ScanProposals(ps[1..], table, now, exec);
      assert forall i :: 1 <= i < |ps| ==> ps[i] == ps[1..][i - 1];
      if Before(now, p.votingPeriodEnd) then rest
      else if p.executorResult == ResultSuccess then rest
      else if p.executorResult == ResultFailure then rest
      else if p.status == StatusAccepted then
        match PrepareExec(table, now, p.id)
        case Err(_) => rest
        case Ok(c) =>
          var r := [Attempt(c, exec(c))] + rest;
          assert CallsOf(r) == [c] + CallsOf(rest);
          r
      else rest
  }

  /** The scan visits proposals in list order: scanning a concatenation is
      scanning each part in turn. */
  lemma {:induction false} ScanProposalsConcat(a: seq<Proposal>, b: seq<Proposal>, table: ProposalTable,
                                               now: Time, exec: ExecCall -> bool)
    ensures ScanProposals(a + b, table, now, exec)
            == ScanProposals(a, table, now, exec) + ScanProposals(b, table, now, exec)
    decreases |a|
  {
    if |a| == 0 {
      assert a + b == b;
    } else {
      assert (a + b)[1..] == a[1..] + b;
      ScanProposalsConcat(a[1..], b, table, now, exec);
    }
  }

  /** Every proposal the policies list, policy by policy in order. */
  function PolicyProposals(pols: seq<PolicyView>): seq<Proposal>
    decreases |pols|
  {
    if |pols| == 0 then [] else Items(pols[0].proposals) + PolicyProposals(pols[1..])
  }

  /** Every proposal the groups list, group by group in order. */
  function GroupProposalsOf(gs: seq<GroupView>): seq<Proposal>
    decreases |gs|
  {
    if |gs| == 0 then [] else PolicyProposals(Items(gs[0].policies)) + GroupProposalsOf(gs[1..])
  }

  /** The middle loop, over the policies of one group: a policy whose
      proposal listing fails is skipped. */
  function ScanPolicies(pols: seq<PolicyView>, table: ProposalTable, now: Time, exec: ExecCall -> bool)
    : (r: seq<Attempt>)
    ensures r == ScanProposals(PolicyProposals(pols), table, now, exec)
    decreases |pols|
  {
    if |pols| == 0 then []
    else
      match pols[0].proposals
      case QueryFailed(_) =>
        assert PolicyProposals(pols) == [] + PolicyProposals(pols[1..]);
        assert [] + PolicyProposals(pols[1..]) == PolicyProposals(pols[1..]);
        ScanPolicies(pols[1..], table, now, exec)
      case Listed(ps) =>
        ScanProposalsConcat(ps, PolicyProposals(pols[1..]), table, now, exec);
        ScanProposals(ps, table, now, exec) + ScanPolicies(pols[1..], table, now, exec)
  }

  /** The outer loop, over all groups: a group whose policy listing fails is
      skipped. */
  function ScanGroups(gs: seq<GroupView>, table: ProposalTable, now: Time, exec: ExecCall -> bool)
    : (r: seq<Attempt>)
    ensures r == ScanProposals(GroupProposalsOf(gs), table, now, exec)
    decreases |gs|
  {
    if |gs| == 0 then []
    else
      match gs[0].policies
      case QueryFailed(_) =>
        assert GroupProposalsOf(gs) == PolicyProposals([]) + GroupProposalsOf(gs[1..]);
        assert PolicyProposals([]) + GroupProposalsOf(gs[1..]) == GroupProposalsOf(gs[1..]);
        ScanGroups(gs[1..], table, now, exec)
      case Listed(pols) =>
        ScanProposalsConcat(PolicyProposals(pols), GroupProposalsOf(gs[1..]), table, now, exec);
        ScanPolicies(pols, table, now, exec) + ScanGroups(gs[1..], table, now, exec)
  }

  /** Every proposal the snapshot lists. */
  function ListedProposals(snap: Snapshot): seq<Proposal> {
    GroupProposalsOf(Items(snap.groups))
  }

  /** `executePendingGroupProposals`: only the group listing's failure is
      reported, and then nothing is executed. */
  function ExecutePendingGroupProposals(snap: Snapshot, now: Time, exec: ExecCall -> bool): (r: ScanResult)
    ensures r.failure.Some? <==> snap.groups.QueryFailed?
    ensures snap.groups.QueryFailed? ==> r.attempts == []
    ensures r.attempts == ScanProposals(ListedProposals(snap), snap.table, now, exec)
  {
    match snap.groups
    case QueryFailed(reason) => ScanResult([], Some("failed to query groups: " + reason))
    case Listed(gs) => ScanResult(ScanGroups(gs, snap.table, now, exec), None)
  }

  /** `EndBlock`: the scan's failure is logged and dropped, so the block
      never fails because of it. */
  function EndBlock(snap: Snapshot, now: Time, exec: ExecCall -> bool): (r: Outcome<seq<Attempt>, string>)
    ensures r.failure.None?
    ensures forall c :: c in CallsOf(r.state) <==>
              exists p :: p in ListedProposals(snap) && Executes(p, snap.table, now)
                          && c == ExecCall(p.id, snap.table[p.id].groupPolicyAddress)
  {
    var scan := ExecutePendingGroupProposals(snap, now, exec);
    var ps := ListedProposals(snap);
    forall c ensures c in CallsOf(scan.attempts) <==>
                     exists p :: p in ps && Executes(p, snap.table, now)
                                 && c == ExecCall(p.id, snap.table[p.id].groupPolicyAddress) {
      if c in CallsOf(scan.attempts) {
        var i :| 0 <= i < |ps| && Executes(ps[i], snap.table, now) && c == PrepareExec(snap.table, now, ps[i].id).value;
        assert ps[i] in ps;
      }
      if exists p :: p in ps && Executes(p, snap.table, now)
                     && c == ExecCall(p.id, snap.table[p.id].groupPolicyAddress) {
        var p :| p in ps && Executes(p, snap.table, now)
                 && c == ExecCall(p.id, snap.table[p.id].groupPolicyAddress);
        var i :| 0 <= i < |ps| && ps[i] == p;
        assert c == PrepareExec(snap.table, now, ps[i].id).value;
      }
    }
    Outcome(scan.attempts, None)
  }

  /** Which proposals are handed to `Exec` does not depend on how earlier
      `Exec` calls ended. */
  lemma {:induction false} CallsIgnoreExecOutcome(ps: seq<Proposal>, table: ProposalTable, now: Time,
                                                  exec1: ExecCall -> bool, exec2: ExecCall -> bool)
    ensures CallsOf(ScanProposals(ps, table, now, exec1)) == CallsOf(ScanProposals(ps, table, now, exec2))
    decreases |ps|
  {
    if |ps| > 0 {
      CallsIgnoreExecOutcome(ps[1..], table, now, exec1, exec2);
      var r1 := ScanProposals(ps, table, now, exec1);
      var r2 := ScanProposals(ps, table, now, exec2);
      var t1 := ScanProposals(ps[1..], table, now, exec1);
      var t2 := ScanProposals(ps[1..], table, now, exec2);
      if |r1| > |t1| {
        assert CallsOf(r1) == [r1[0].call] + CallsOf(t1);
        assert CallsOf(r2) == [r2[0].call] + CallsOf(t2);
      }
    }
  }

  /** A group whose policy listing fails is skipped, and only that group:
      the others are scanned exactly as if it were absent. */
  lemma InnerFailureSkipsOnlyThatGroup(gs: seq<GroupView>, k: nat, reason: string, table: ProposalTable,
                                       now: Time, exec: ExecCall -> bool)
    requires k < |gs|
    ensures ScanGroups(gs[k := gs[k].(policies := QueryFailed(reason))], table, now, exec)
            == ScanGroups(gs[..k], table, now, exec) + ScanGroups(gs[k + 1..], table, now, exec)
  {
    var gs' := gs[k := gs[k].(policies := QueryFailed(reason))];
    assert gs' == gs[..k] + [gs'[k]] + gs[k + 1..];
    GroupProposalsConcat(gs[..k] + [gs'[k]], gs[k + 1..]);
    GroupProposalsConcat(gs[..k], [gs'[k]]);
    assert GroupProposalsOf([gs'[k]]) == PolicyProposals([]) + GroupProposalsOf([]);
    assert GroupProposalsOf(gs') == GroupProposalsOf(gs[..k]) + GroupProposalsOf(gs[k + 1..]);
    ScanProposalsConcat(GroupProposalsOf(gs[..k]), GroupProposalsOf(gs[k + 1..]), table, now, exec);
  }

  lemma {:induction false} GroupProposalsConcat(a: seq<GroupView>, b: seq<GroupView>)
    ensures GroupProposalsOf(a + b) == GroupProposalsOf(a) + GroupProposalsOf(b)
    decreases |a|
  {
    if |a| == 0 {
      assert a + b == b;
    } else {
      assert (a + b)[1..] == a[1..] + b;
      GroupProposalsConcat(a[1..], b);
    }
  }

  /** The lookup table agrees with the listings. */
  predicate Consistent(snap: Snapshot) {
    forall p :: p in ListedProposals(snap) ==> p.id in snap.table && snap.table[p.id] == p
  }

  /** With consistent reads, `Exec` is called exactly for the listed
      proposals that are accepted, whose voting period is over and which
      have no final executor result, each with its own policy as executor. */
  lemma ExecutesExactlyTheReady(snap: Snapshot, now: Time, exec: ExecCall -> bool, c: ExecCall)
    requires Consistent(snap)
    ensures c in CallsOf(EndBlock(snap, now, exec).state) <==>
              exists p :: p in ListedProposals(snap) && ReadyToExecute(p, now)
                          && c == ExecCall(p.id, p.groupPolicyAddress)
  {
  }

  /** A proposal whose executor result is already final is never executed
      again, whatever the block time. */
  lemma SettledProposalIsNotExecuted(snap: Snapshot, now: Time, exec: ExecCall -> bool, p: Proposal)
    requires Consistent(snap) && p in ListedProposals(snap)
    requires p.executorResult == ResultSuccess || p.executorResult == ResultFailure
    ensures ExecCall(p.id, p.groupPolicyAddress) !in CallsOf(EndBlock(snap, now, exec).state)
  {
    ExecutesExactlyTheReady(snap, now, exec, ExecCall(p.id, p.groupPolicyAddress));
  }

  function SingleProposal(p: Proposal): Snapshot {
    Snapshot(Listed([GroupView(1, Listed([PolicyView(p.groupPolicyAddress, Listed([p]))]))]), map[p.id := p])
  }

  /** One accepted proposal ending at time 1000: not executed at 999,
      executed at exactly 1000 (the end is inclusive) and at 1001. */
  lemma VotingEndIsInclusive(exec: ExecCall -> bool)
    ensures
      var p := Proposal(7, "policy", StatusAccepted, ResultNotRun, 1000);
      var call := ExecCall(7, "policy");
      && EndBlock(SingleProposal(p), 999, exec).state == []
      && EndBlock(SingleProposal(p), 1000, exec).state == [Attempt(call, exec(call))]
      && EndBlock(SingleProposal(p), 1001, exec).state == [Attempt(call, exec(call))]
  {
    var p := Proposal(7, "policy", StatusAccepted, ResultNotRun, 1000);
    assert ListedProposals(SingleProposal(p)) == [p];
  }
}
