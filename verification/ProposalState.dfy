/** The proposal lifecycle and its store (lib/queue/proposal-state.ts), with the
    canonical approval hash (lib/proposals/canonical-hash.ts). */
module ProposalState {
  import opened Wrappers

  datatype Role = Owner | FinanceAdmin | Maker | Approver | Viewer | Auditor | Developer

  datatype Status =
    | Drafted
    | Simulated
    | PolicyEvaluated
    | PendingApproval
    | Approved
    | Signed
    | Submitted
    | Settled
    | Anchored
    | Rejected
    | Failed
    | Expired
    | Reversed

  datatype Approval = Approval(userId: string, role: Role, signedAt: string)

  /** Financial figures by field name, as the canonical form prints them. */
  type Impact = map<string, string>

  datatype Proposal = Proposal(
    id: string,
    idempotencyKey: string,
    orgId: string,
    createdBy: string,
    status: Status,
    requiredApprovers: int,
    beneficiaries: string,
    impact: Impact,
    corridor: Option<string>,
    expiresAt: string,
    version: Option<int>,
    approvalHash: Option<string>,
    approvals: seq<Approval>,
    simulation: Option<bool>,
    settlement: Option<string>)

  const AGENT := "OXWAL"

  type Requirement = n: int | 0 <= n <= 2

  datatype Event =
    | CompleteSimulation(ok: bool)
    | EvaluatePolicy(required: Requirement)
    | QueueForApproval
    | MarkApproved
    | Approve(approval: Approval)
    | Sign(signatureRef: string, signedBy: string, policyAuthorized: bool, signedAt: string)
    | Submit
    | Settle(digest: string)
    | Anchor
    | Reject
    | Fail
    | Expire
    | Reverse

  datatype Revision = Revision(impact: Impact, expiresAt: Option<string>, corridor: Option<string>)

  datatype ProposalError =
    | NotAllowed
    | NotSigned
    | BadRequirement
    | NothingToApprove
    | RequirementNotMet
    | RoleCannotApprove
    | OwnProposal
    | NotDistinct
    | HashMismatch
    | PolicyNotAuthorized
    | NoHumanSignature
    | NotFound
    | AlreadyExists
    | DanglingKey

  // ---- what an approval is for ----

  datatype Canon = Canon(
    proposalId: string,
    version: int,
    orgId: string,
    beneficiaries: string,
    amountIn: string,
    amountOut: string,
    currencyIn: string,
    currencyOut: string,
    routeId: string,
    quoteId: string,
    feeBps: string,
    expiresAt: string)

  type Hash = Canon -> string

  function Figure(impact: Impact, field: string): string {
    if field in impact then impact[field] else ""
  }

  function VersionOf(p: Proposal): int {
    match p.version case Some(v) => v case None => 1
  }

  function CanonOf(p: Proposal): Canon {
    Canon(
      p.id, VersionOf(p), p.orgId, p.beneficiaries,
      Figure(p.impact, "amountIn"), Figure(p.impact, "amountOut"),
      Figure(p.impact, "currencyIn"), Figure(p.impact, "currencyOut"),
      (match p.corridor case Some(c) => c case None => ""),
      Figure(p.impact, "fxRate"), Figure(p.impact, "feeBps"), p.expiresAt)
  }

  /** What approvals bind to: everything below, a missing part counting as empty
      and a missing version as the first, and nothing else of the proposal. */
  lemma {:induction false} SameCanonIff(p: Proposal, q: Proposal)
    ensures CanonOf(p) == CanonOf(q) <==>
              && p.id == q.id && p.orgId == q.orgId && p.beneficiaries == q.beneficiaries && p.expiresAt == q.expiresAt
              && (if p.version.Some? then p.version.value else 1) == (if q.version.Some? then q.version.value else 1)
              && (if p.corridor.Some? then p.corridor.value else "")
                 == (if q.corridor.Some? then q.corridor.value else "")
              && forall f :: f in {"amountIn", "amountOut", "currencyIn", "currencyOut", "fxRate", "feeBps"} ==>
                   (if f in p.impact then p.impact[f] else "") == (if f in q.impact then q.impact[f] else "")
  {
    assert CanonOf(p) == CanonOf(q) ==>
             Figure(p.impact, "amountIn") == Figure(q.impact, "amountIn")
             && Figure(p.impact, "amountOut") == Figure(q.impact, "amountOut")
             && Figure(p.impact, "currencyIn") == Figure(q.impact, "currencyIn")
             && Figure(p.impact, "currencyOut") == Figure(q.impact, "currencyOut")
             && Figure(p.impact, "fxRate") == Figure(q.impact, "fxRate")
             && Figure(p.impact, "feeBps") == Figure(q.impact, "feeBps");
  }

  /** Each part in the place that the canonical form has for it. */
  lemma {:induction false} CanonParts(p: Proposal)
    ensures var c := CanonOf(p);
            && c.proposalId == p.id && c.orgId == p.orgId && c.beneficiaries == p.beneficiaries
            && c.expiresAt == p.expiresAt
            && c.version == (if p.version.Some? then p.version.value else 1)
            && c.routeId == (if p.corridor.Some? then p.corridor.value else "")
            && ("amountIn" in p.impact ==> c.amountIn == p.impact["amountIn"])
            && ("amountOut" in p.impact ==> c.amountOut == p.impact["amountOut"])
            && ("currencyIn" in p.impact ==> c.currencyIn == p.impact["currencyIn"])
            && ("currencyOut" in p.impact ==> c.currencyOut == p.impact["currencyOut"])
            && ("fxRate" in p.impact ==> c.quoteId == p.impact["fxRate"])
            && ("feeBps" in p.impact ==> c.feeBps == p.impact["feeBps"])
  {
  }

  function WithCanon(h: Hash, p: Proposal): Proposal {
    var versioned := p.(version := Some(VersionOf(p)));
    versioned.(approvalHash := Some(h(CanonOf(versioned))))
  }

  predicate HasHash(p: Proposal) {
    p.approvalHash.Some? && p.approvalHash.value != ""
  }

  /** A stored hash, if there is one, is that of the stored row. */
  predicate Intact(h: Hash, p: Proposal) {
    HasHash(p) ==> p.approvalHash.value == h(CanonOf(p))
  }

  // ---- transitions ----

  function Users(approvals: seq<Approval>): set<string> {
    set k | 0 <= k < |approvals| :: approvals[k].userId
  }

  predicate ValidRequirement(p: Proposal) {
    0 <= p.requiredApprovers <= 2
  }

  /** As many distinct users have approved as the policy asks for. */
  predicate Met(p: Proposal) {
    ValidRequirement(p) && |Users(p.approvals)| >= p.requiredApprovers
  }

  predicate MayApprove(role: Role) {
    role.Owner? || role.FinanceAdmin? || role.Approver?
  }

  predicate IsTerminal(status: Status) {
    status.Anchored? || status.Rejected? || status.Failed? || status.Expired? || status.Reversed?
  }

  function To(p: Proposal, allowed: bool, status: Status): Result<Proposal, ProposalError> {
    if allowed then Ok(p.(status := status)) else Err(NotAllowed)
  }

  /** The status, provided the approvals are there. */
  function Gate(p: Proposal, status: Status): Result<Proposal, ProposalError> {
    if !ValidRequirement(p) then Err(BadRequirement)
    else if !Met(p) then Err(RequirementNotMet)
    else Ok(p.(status := status))
  }

  function Approving(h: Hash, p: Proposal, approval: Approval): Result<Proposal, ProposalError> {
    if p.status != PendingApproval then Err(NotAllowed)
    else if !Intact(h, p) then Err(HashMismatch)
    else if !MayApprove(approval.role) then Err(RoleCannotApprove)
    else if p.createdBy != AGENT && approval.userId == p.createdBy then Err(OwnProposal)
    else if approval.userId in Users(p.approvals) then Err(NotDistinct)
    else
      var p' := p.(approvals := p.approvals + [approval]);
      if !ValidRequirement(p') then Err(BadRequirement)
      else Ok(if Met(p') then p'.(status := Approved) else p')
  }

  function Signing(h: Hash, p: Proposal, event: Event): Result<Proposal, ProposalError>
    requires event.Sign?
  {
    if p.status != Approved then Err(NotAllowed)
    else if !Intact(h, p) then Err(HashMismatch)
    else if !event.policyAuthorized then Err(PolicyNotAuthorized)
    else if event.signatureRef == "" || event.signedBy == "" || event.signedBy == AGENT || event.signedAt == "" then
      Err(NoHumanSignature)
    else Gate(p, Signed)
  }

  function Transitioned(h: Hash, p: Proposal, event: Event): Result<Proposal, ProposalError> {
    match event
    case CompleteSimulation(ok) =>
      To(p.(simulation := Some(ok)), p.status.Drafted?, if ok then Simulated else Failed)
    case EvaluatePolicy(required) =>
      To(p.(requiredApprovers := required), p.status.Simulated?, PolicyEvaluated)
    case QueueForApproval =>
      if p.status != PolicyEvaluated then Err(NotAllowed)
      else if !ValidRequirement(p) then Err(BadRequirement)
      else if p.requiredApprovers == 0 then Err(NothingToApprove)
      else Ok(p.(status := PendingApproval))
    case MarkApproved =>
      if p.status.PolicyEvaluated? || p.status.PendingApproval? then Gate(p, Approved) else Err(NotAllowed)
    case Approve(approval) => Approving(h, p, approval)
    case Sign(_, _, _, _) => Signing(h, p, event)
    case Submit => if p.status.Signed? then Ok(p.(status := Submitted)) else Err(NotSigned)
    case Settle(digest) => To(p.(settlement := Some(digest)), p.status.Submitted?, Settled)
    case Anchor => To(p, p.status.Settled?, Anchored)
    case Reject => To(p, !IsTerminal(p.status), Rejected)
    case Fail => To(p, !IsTerminal(p.status), Failed)
    case Expire =>
      To(p, BeforeApproval(p.status) || p.status.Approved?, Expired)
    case Reverse => To(p, p.status.Settled? || p.status.Anchored?, Reversed)
  }

  /** The arrows of the lifecycle: the statuses an event is taken from, and the
      status it leads to. */
  predicate Arrow(event: Event, source: Status, target: Status) {
    match event
    case CompleteSimulation(ok) => source == Drafted && target == (if ok then Simulated else Failed)
    case EvaluatePolicy(_) => source == Simulated && target == PolicyEvaluated
    case QueueForApproval => source == PolicyEvaluated && target == PendingApproval
    case MarkApproved => source in {PolicyEvaluated, PendingApproval} && target == Approved
    case Approve(_) => source == PendingApproval && target in {PendingApproval, Approved}
    case Sign(_, _, _, _) => source == Approved && target == Signed
    case Submit => source == Signed && target == Submitted
    case Settle(_) => source == Submitted && target == Settled
    case Anchor => source == Settled && target == Anchored
    case Reject => source !in {Anchored, Rejected, Failed, Expired, Reversed} && target == Rejected
    case Fail => source !in {Anchored, Rejected, Failed, Expired, Reversed} && target == Failed
    case Expire =>
      source in {Drafted, Simulated, PolicyEvaluated, PendingApproval, Approved} && target == Expired
    case Reverse => source in {Settled, Anchored} && target == Reversed
  }

  /** Beside its status, what an event changes. */
  function Touched(p: Proposal, event: Event, status: Status): Proposal {
    var p' := p.(status := status);
    match event
    case CompleteSimulation(ok) => p'.(simulation := Some(ok))
    case EvaluatePolicy(required) => p'.(requiredApprovers := required)
    case Approve(approval) => p'.(approvals := p.approvals + [approval])
    case Settle(digest) => p'.(settlement := Some(digest))
    case _ => p'
  }

  /** What an event asks for beside its source status. */
  predicate Admits(h: Hash, p: Proposal, event: Event) {
    match event
    case QueueForApproval => p.requiredApprovers in {1, 2}
    case MarkApproved => p.requiredApprovers in {0, 1, 2} && |Users(p.approvals)| >= p.requiredApprovers
    case Approve(a) =>
      && (p.approvalHash.None? || p.approvalHash.value == "" || p.approvalHash.value == h(CanonOf(p)))
      && a.role in {Owner, FinanceAdmin, Approver}
      && (p.createdBy == "OXWAL" || a.userId != p.createdBy)
      && (forall b :: b in p.approvals ==> b.userId != a.userId)
      && p.requiredApprovers in {0, 1, 2}
    case Sign(signatureRef, signedBy, policyAuthorized, signedAt) =>
      && (p.approvalHash.None? || p.approvalHash.value == "" || p.approvalHash.value == h(CanonOf(p)))
      && policyAuthorized
      && signatureRef != "" && signedBy !in {"", "OXWAL"} && signedAt != ""
      && p.requiredApprovers in {0, 1, 2} && |Users(p.approvals)| >= p.requiredApprovers
    case _ => true
  }

  /** An event is accepted exactly along an arrow whose conditions hold; it
      moves to the end of the arrow and changes only what it carries. */
  lemma {:induction false} TransitionsAreArrows(h: Hash, p: Proposal, event: Event)
    ensures Transitioned(h, p, event) != Err(NotFound)
    ensures Transitioned(h, p, event).Ok? <==> Admits(h, p, event) && exists status :: Arrow(event, p.status, status)
    ensures Transitioned(h, p, event).Ok? ==>
              var p' := Transitioned(h, p, event).value;
              Arrow(event, p.status, p'.status) && p' == Touched(p, event, p'.status)
              && (event.Approve? ==>
                    (p'.status == Approved <==> |Users(p'.approvals)| >= p'.requiredApprovers))
  {
    hide CanonOf, Users;
    ArrowExists(event, p.status);
    if event.Approve? {
      ApproveAdmits(h, p, event.approval);
      hide Admits;
    }
  }

  /** Why an event is refused, the first reason in the order of the checks. */
  lemma {:induction false} RefusedBecause(h: Hash, p: Proposal, event: Event)
    requires Transitioned(h, p, event).Err?
    ensures var e := Transitioned(h, p, event).error;
            var arrow := exists status :: Arrow(event, p.status, status);
            var hashed := p.approvalHash.None? || p.approvalHash.value == "" || p.approvalHash.value == h(CanonOf(p));
            && (e == NotSigned <==> event.Submit?)
            && (e == NotAllowed <==> !arrow && !event.Submit?)
            && (arrow && event.QueueForApproval? ==>
                  e == if p.requiredApprovers == 0 then NothingToApprove else BadRequirement)
            && (arrow && event.MarkApproved? ==>
                  e == if 0 <= p.requiredApprovers <= 2 then RequirementNotMet else BadRequirement)
            && (arrow && event.Approve? ==>
                  e == if !hashed then HashMismatch
                       else if event.approval.role !in {Owner, FinanceAdmin, Approver} then RoleCannotApprove
                       else if p.createdBy != "OXWAL" && event.approval.userId == p.createdBy then OwnProposal
                       else if event.approval.userId in Users(p.approvals) then NotDistinct
                       else BadRequirement)
            && (arrow && event.Sign? ==>
                  e == if !hashed then HashMismatch
                       else if !event.policyAuthorized then PolicyNotAuthorized
                       else if event.signatureRef == "" || event.signedBy in {"", "OXWAL"} || event.signedAt == "" then
                         NoHumanSignature
                       else if 0 <= p.requiredApprovers <= 2 then RequirementNotMet
                       else BadRequirement)
  {
    hide CanonOf, Users;
    ArrowExists(event, p.status);
  }

  lemma {:induction false} ArrowExists(event: Event, source: Status)
    ensures (exists status :: Arrow(event, source, status)) <==>
              match event
              case CompleteSimulation(ok) => Arrow(event, source, if ok then Simulated else Failed)
              case EvaluatePolicy(_) => Arrow(event, source, PolicyEvaluated)
              case QueueForApproval => Arrow(event, source, PendingApproval)
              case MarkApproved => Arrow(event, source, Approved)
              case Approve(_) => Arrow(event, source, Approved)
              case Sign(_, _, _, _) => Arrow(event, source, Signed)
              case Submit => Arrow(event, source, Submitted)
              case Settle(_) => Arrow(event, source, Settled)
              case Anchor => Arrow(event, source, Anchored)
              case Reject => Arrow(event, source, Rejected)
              case Fail => Arrow(event, source, Failed)
              case Expire => Arrow(event, source, Expired)
              case Reverse => Arrow(event, source, Reversed)
  {
  }

  lemma {:induction false} ApproveAdmits(h: Hash, p: Proposal, a: Approval)
    ensures Approving(h, p, a).Ok? <==> p.status == PendingApproval && Admits(h, p, Approve(a))
    ensures Approving(h, p, a) != Err(NotFound)
  {
    hide CanonOf;
    if b :| b in p.approvals && b.userId == a.userId {
      var k :| 0 <= k < |p.approvals| && p.approvals[k] == b;
      assert p.approvals[k].userId in Users(p.approvals);
    }
    hide Users;
  }

  function OrElse(a: Option<string>, b: Option<string>): Option<string> {
    if a.Some? then a else b
  }

  /** The one way to change what approvals are for: the version goes up, the
      hash is new, and all approvals are gone. A status up to `Approved` falls
      back before the approval gate, a later one stays. */
  function Revised(h: Hash, p: Proposal, revision: Revision): Proposal {
    var revised := p.(
      corridor := OrElse(revision.corridor, p.corridor),
      expiresAt := (match revision.expiresAt case Some(t) => t case None => p.expiresAt),
      impact := p.impact + revision.impact,
      version := Some(VersionOf(p) + 1),
      approvals := [],
      status := if p.status.PendingApproval? || p.status.Approved? || p.status.PolicyEvaluated? then Simulated
                else p.status);
    revised.(approvalHash := Some(h(CanonOf(revised))))
  }

  /** What a revision leaves: a fresh version with its own hash and without
      approvals, the given parts replaced and every other part as it was. */
  predicate IsRevision(h: Hash, p: Proposal, revision: Revision, p': Proposal) {
    && p'.approvals == [] && p'.version == Some((if p.version.Some? then p.version.value else 1) + 1)
    && p'.approvalHash == Some(h(CanonOf(p')))
    && (if revision.corridor.Some? then p'.corridor == revision.corridor else p'.corridor == p.corridor)
    && (if revision.expiresAt.Some? then p'.expiresAt == revision.expiresAt.value else p'.expiresAt == p.expiresAt)
    && p'.impact.Keys == p.impact.Keys + revision.impact.Keys
    && (forall f :: f in p'.impact ==>
          p'.impact[f] == if f in revision.impact then revision.impact[f] else p.impact[f])
    && (if p.status in {PolicyEvaluated, PendingApproval, Approved} then p'.status == Simulated
        else p'.status == p.status)
    && p' == p.(corridor := p'.corridor, expiresAt := p'.expiresAt, impact := p'.impact, version := p'.version,
                approvals := p'.approvals, status := p'.status, approvalHash := p'.approvalHash)
  }

  lemma {:induction false} RevisedIs(h: Hash, p: Proposal, revision: Revision)
    ensures IsRevision(h, p, revision, Revised(h, p, revision))
  {
  }

  // ---- one proposal over a run ----

  datatype Step = Transition(event: Event) | Revise(revision: Revision)

  function Outcome(h: Hash, p: Proposal, step: Step): Result<Proposal, ProposalError> {
    match step
    case Transition(event) => Transitioned(h, p, event)
    case Revise(revision) => Ok(Revised(h, p, revision))
  }

  /** A refused step changes nothing. */
  function Next(h: Hash, p: Proposal, step: Step): Proposal {
    match Outcome(h, p, step) case Ok(p') => p' case Err(_) => p
  }

  function Run(h: Hash, p: Proposal, steps: seq<Step>): Proposal
    decreases |steps|
  {
    if steps == [] then p else Run(h, Next(h, p, steps[0]), steps[1..])
  }

  predicate BeforeApproval(status: Status) {
    status.Drafted? || status.Simulated? || status.PolicyEvaluated? || status.PendingApproval?
  }

  predicate PastSigning(status: Status) {
    status.Signed? || status.Submitted? || status.Settled? || status.Anchored? || status.Reversed?
  }

  /** A proposal as it is created: nothing approved, and hashed. */
  predicate Fresh(h: Hash, p: Proposal) {
    BeforeApproval(p.status) && p.approvals == [] && p.approvalHash == Some(h(CanonOf(p)))
  }

  /** Some revision of the run came when the proposal was already signed. */
  predicate LateRevision(h: Hash, p: Proposal, steps: seq<Step>)
    decreases |steps|
  {
    steps != [] && (IsLate(p, steps[0]) || LateRevision(h, Next(h, p, steps[0]), steps[1..]))
  }

  predicate IsLate(p: Proposal, step: Step) {
    step.Revise? && PastSigning(p.status)
  }

  // ---- what a run leaves behind ----

  /** An accepted approval, and what it was given for. */
  datatype Grant = Grant(approval: Approval, canon: Canon)

  /** The proposal, every approval ever accepted for it, and what was signed. */
  datatype World = World(p: Proposal, grants: seq<Grant>, signedFor: Option<Canon>)

  function WorldNext(h: Hash, w: World, step: Step): World {
    var ok := Outcome(h, w.p, step).Ok?;
    World(
      Next(h, w.p, step),
      (if ok && step.Transition? && step.event.Approve? then w.grants + [Grant(step.event.approval, CanonOf(w.p))]
       else w.grants),
      if ok && step.Transition? && step.event.Sign? then Some(CanonOf(w.p)) else w.signedFor)
  }

  function WorldRun(h: Hash, w: World, steps: seq<Step>): World
    decreases |steps|
  {
    if steps == [] then w else WorldRun(h, WorldNext(h, w, steps[0]), steps[1..])
  }

  function Start(p: Proposal): World {
    World(p, [], None)
  }

  lemma {:induction false} WorldRunIsRun(h: Hash, w: World, steps: seq<Step>)
    ensures WorldRun(h, w, steps).p == Run(h, w.p, steps)
    decreases |steps|
  {
    hide Next, Outcome;
    if steps != [] { WorldRunIsRun(h, WorldNext(h, w, steps[0]), steps[1..]); }
  }

  /** Distinct users with an approving role, none of them the maker, each of
      whom approved exactly what the proposal says now. */
  predicate Genuine(w: World) {
    && (forall i, j :: 0 <= i < j < |w.p.approvals| ==> w.p.approvals[i].userId != w.p.approvals[j].userId)
    && (forall a :: a in w.p.approvals ==>
          MayApprove(a.role) && (w.p.createdBy != AGENT ==> a.userId != w.p.createdBy)
          && Grant(a, CanonOf(w.p)) in w.grants)
  }

  /** Where the approvals stand, given whether a late revision happened. */
  predicate InOrder(w: World, late: bool) {
    && (w.p.status.Drafted? || w.p.status.Simulated? || w.p.status.PolicyEvaluated? ==> w.p.approvals == [])
    && (w.p.status.Approved? ==> Met(w.p))
    && (late ==> PastSigning(w.p.status) || w.p.status.Rejected? || w.p.status.Failed?)
    && (PastSigning(w.p.status) ==>
          && (if late then w.p.approvals == [] else Met(w.p))
          && w.signedFor.Some?
          && if late then w.signedFor.value.version < VersionOf(w.p) else w.signedFor.value == CanonOf(w.p))
  }

  ghost predicate Sound(h: Hash, w: World, late: bool) {
    w.p.approvalHash == Some(h(CanonOf(w.p))) && Genuine(w) && InOrder(w, late)
  }

  lemma {:induction false} FreshIsSound(h: Hash, p: Proposal)
    requires Fresh(h, p)
    ensures Sound(h, Start(p), false)
  {
  }

  lemma {:induction false} RevisionSound(h: Hash, w: World, late: bool, revision: Revision)
    requires Sound(h, w, late)
    ensures Sound(h, WorldNext(h, w, Revise(revision)), late || PastSigning(w.p.status))
  {
    hide Met;
  }

  lemma {:induction false} MetOfStatus(p: Proposal, status: Status)
    ensures Met(p.(status := status)) <==> Met(p)
  {
  }

  /** An approval of another user than those so far keeps the list genuine. */
  lemma {:induction false} GenuineWith(w: World, p: Proposal, approval: Approval)
    requires Genuine(w) && approval.userId !in Users(w.p.approvals)
    requires MayApprove(approval.role) && (p.createdBy != AGENT ==> approval.userId != p.createdBy)
    requires CanonOf(p) == CanonOf(w.p) && p.createdBy == w.p.createdBy && p.approvals == w.p.approvals + [approval]
    ensures Genuine(World(p, w.grants + [Grant(approval, CanonOf(p))], w.signedFor))
  {
    forall i | 0 <= i < |w.p.approvals| ensures w.p.approvals[i].userId != approval.userId {
      assert w.p.approvals[i].userId in Users(w.p.approvals);
    }
    hide CanonOf, Users, MayApprove;
  }

  lemma {:induction false} ApprovalSound(h: Hash, w: World, late: bool, approval: Approval)
    requires Sound(h, w, late)
    ensures Sound(h, WorldNext(h, w, Transition(Approve(approval))), late)
  {
    hide Met, Intact, Genuine, Users, MayApprove;
    var w' := WorldNext(h, w, Transition(Approve(approval)));
    if Approving(h, w.p, approval).Ok? {
      assert CanonOf(w'.p) == CanonOf(w.p);
      hide CanonOf;
      MetOfStatus(w.p.(approvals := w.p.approvals + [approval]), Approved);
      GenuineWith(w, w'.p, approval);
    }
  }

  lemma {:induction false} TransitionSound(h: Hash, w: World, late: bool, event: Event)
    requires Sound(h, w, late) && !event.Approve?
    ensures Sound(h, WorldNext(h, w, Transition(event)), late)
  {
    hide Users, Intact, CanonOf;
    var w' := WorldNext(h, w, Transition(event));
    assert CanonOf(w'.p) == CanonOf(w.p) by { CanonKept(h, w.p, event); }
    assert w'.p.approvals == w.p.approvals;
  }

  /** No transition changes what approvals are for. */
  lemma {:induction false} CanonKept(h: Hash, p: Proposal, event: Event)
    ensures CanonOf(Next(h, p, Transition(event))) == CanonOf(p)
    ensures Next(h, p, Transition(event)).approvalHash == p.approvalHash
  {
    hide Met, Intact;
  }

  lemma {:induction false} RunSound(h: Hash, w: World, steps: seq<Step>, late: bool)
    requires Sound(h, w, late)
    ensures Sound(h, WorldRun(h, w, steps), late || LateRevision(h, w.p, steps))
    decreases |steps|
  {
    hide Sound, Next, WorldNext, PastSigning;
    if steps != [] {
      var step := steps[0];
      match step {
        case Transition(event) =>
          if event.Approve? { ApprovalSound(h, w, late, event.approval); } else { TransitionSound(h, w, late, event); }
        case Revise(revision) => RevisionSound(h, w, late, revision);
      }
      WorldNextIsNext(h, w, step);
      RunSound(h, WorldNext(h, w, step), steps[1..], late || IsLate(w.p, step));
    }
  }

  lemma {:induction false} WorldNextIsNext(h: Hash, w: World, step: Step)
    ensures WorldNext(h, w, step).p == Next(h, w.p, step)
  {
  }

  /** Exactly when a signed, submitted or settled proposal still holds as many
      distinct approvals as it needs, over every run: it needs none, or no
      revision came after signing. */
  lemma {:induction false} SubmittedHoldsApprovals(h: Hash, p: Proposal, steps: seq<Step>)
    requires Fresh(h, p) && PastSigning(Run(h, p, steps).status)
    ensures var p' := Run(h, p, steps);
            Met(p') <==> p'.requiredApprovers == 0 || !LateRevision(h, p, steps)
  {
    hide Run, WorldRun, LateRevision, Fresh, CanonOf, Genuine;
    FreshIsSound(h, p);
    RunSound(h, Start(p), steps, false);
    WorldRunIsRun(h, Start(p), steps);
    NoUsers();
  }

  lemma {:induction false} NoUsers()
    ensures Users([]) == {}
  {
  }

  /** Likewise for what was signed: it is what the proposal says now exactly
      when no revision came after signing. */
  lemma {:induction false} SubmittedAsSigned(h: Hash, p: Proposal, steps: seq<Step>)
    requires Fresh(h, p) && PastSigning(Run(h, p, steps).status)
    ensures WorldRun(h, Start(p), steps).signedFor == Some(CanonOf(Run(h, p, steps))) <==> !LateRevision(h, p, steps)
  {
    hide Run, WorldRun, LateRevision, Fresh, Genuine, Met;
    FreshIsSound(h, p);
    RunSound(h, Start(p), steps, false);
    WorldRunIsRun(h, Start(p), steps);
  }

  /** In every reachable state each approval was given by an approver other
      than the maker, for exactly what the proposal says now, and no user
      approved twice; the stored hash is that of the row. */
  lemma {:induction false} ApprovalsBind(h: Hash, p: Proposal, steps: seq<Step>)
    requires Fresh(h, p)
    ensures Genuine(WorldRun(h, Start(p), steps))
    ensures Intact(h, Run(h, p, steps))
  {
    hide Run, WorldRun, LateRevision, Fresh, Genuine, Met, CanonOf;
    FreshIsSound(h, p);
    RunSound(h, Start(p), steps, false);
    WorldRunIsRun(h, Start(p), steps);
  }

  /** A row changed without a revision takes no approval and no signature
      exactly when its hash gives it away. */
  lemma {:induction false} ChangedRowRefused(h: Hash, p: Proposal, approval: Approval)
    requires p.status.PendingApproval? && HasHash(p)
    ensures Transitioned(h, p, Approve(approval)) == Err(HashMismatch) <==> h(CanonOf(p)) != p.approvalHash.value
    ensures h(CanonOf(p)) != p.approvalHash.value ==>
              forall ref, who, ok, at ::
                Transitioned(h, p.(status := Approved), Sign(ref, who, ok, at)) == Err(HashMismatch)
  {
  }

  function SampleHash(): Hash {
    _ => "hash"
  }

  function Sample(status: Status, required: int, approvals: seq<Approval>, version: int, expiresAt: string): Proposal {
    Proposal("p", "key", "org", AGENT, status, required, "cp", map[], None, expiresAt, Some(version), Some("hash"),
             approvals, if status.Drafted? then None else Some(true), None)
  }

  function SampleSteps(): seq<Step> {
    [Transition(CompleteSimulation(true)),
     Transition(EvaluatePolicy(1)),
     Transition(QueueForApproval),
     Transition(Approve(Approval("ann", Approver, "now"))),
     Transition(Sign("ref", "ann", true, "now")),
     Revise(Revision(map[], Some("later"), None)),
     Transition(Submit)]
  }

  function SampleStates(): seq<Proposal> {
    [Sample(Drafted, 0, [], 1, "soon"),
     Sample(Simulated, 0, [], 1, "soon"),
     Sample(PolicyEvaluated, 1, [], 1, "soon"),
     Sample(PendingApproval, 1, [], 1, "soon"),
     Sample(Approved, 1, [Approval("ann", Approver, "now")], 1, "soon"),
     Sample(Signed, 1, [Approval("ann", Approver, "now")], 1, "soon"),
     Sample(Signed, 1, [], 2, "later"),
     Sample(Submitted, 1, [], 2, "later")]
  }

  lemma {:induction false} SampleNext(k: nat)
    requires k < 7
    ensures Next(SampleHash(), SampleStates()[k], SampleSteps()[k]) == SampleStates()[k + 1]
  {
    var given := Approval("ann", Approver, "now");
    hide Users, CanonOf;
    NoUsers();
    assert Users([given]) == {"ann"} by { OneUser(given); }
    if k == 3 { assert [] + [given] == [given]; }
  }

  lemma {:induction false} OneUser(approval: Approval)
    ensures Users([approval]) == {approval.userId}
  {
    assert [approval][0] == approval;
  }

  lemma {:induction false} SampleRun(k: nat)
    requires k <= 7
    ensures Run(SampleHash(), SampleStates()[k], SampleSteps()[k..]) == SampleStates()[7]
    ensures k <= 5 ==> LateRevision(SampleHash(), SampleStates()[k], SampleSteps()[k..])
    decreases 7 - k
  {
    if k < 7 {
      SampleNext(k);
      assert k == 5 ==> IsLate(SampleStates()[k], SampleSteps()[k]);
      hide SampleStates, Next, IsLate, Sample;
      SampleRun(k + 1);
      var rest := SampleSteps()[k..];
      assert rest[0] == SampleSteps()[k] && rest[1..] == SampleSteps()[k + 1..];
    }
  }

  /** The case happens: a proposal that needs one approval is signed, revised
      and submitted with none. */
  lemma {:induction false} RevisedAfterSigningWitness()
    ensures var p := Sample(Drafted, 0, [], 1, "soon");
            var p' := Run(SampleHash(), p, SampleSteps());
            && Fresh(SampleHash(), p) && LateRevision(SampleHash(), p, SampleSteps())
            && p'.status.Submitted? && p'.requiredApprovers == 1 && p'.approvals == [] && !Met(p')
  {
    hide Run, LateRevision, SampleSteps;
    SampleRun(0);
    assert SampleSteps()[0..] == SampleSteps();
    NoUsers();
  }

  predicate IsDead(status: Status) {
    status == Rejected || status == Failed || status == Expired
  }

  /** A rejected, failed or expired proposal stays so for good, whatever is
      tried on it. */
  lemma {:induction false} DeadForGood(h: Hash, p: Proposal, steps: seq<Step>)
    requires IsDead(p.status)
    ensures Run(h, p, steps).status == p.status
    decreases |steps|
  {
    if steps != [] {
      StillDead(h, p, steps[0]);
      hide Next, IsDead;
      DeadForGood(h, Next(h, p, steps[0]), steps[1..]);
    }
  }

  lemma {:induction false} StillDead(h: Hash, p: Proposal, step: Step)
    requires IsDead(p.status)
    ensures Next(h, p, step).status == p.status
  {
    if step.Transition? { TransitionsAreArrows(h, p, step.event); }
    hide Transitioned, CanonOf;
  }

  /** So once a rejection, failure or expiry was accepted, no later state of the
      run is approved, signed, submitted or settled. */
  lemma {:induction false} RejectedForGood(h: Hash, p: Proposal, event: Event, steps: seq<Step>)
    requires event.Reject? || event.Fail? || event.Expire?
    requires Transitioned(h, p, event).Ok?
    ensures Run(h, p, [Transition(event)] + steps).status
         == if event.Reject? then Rejected else if event.Fail? then Failed else Expired
  {
    TransitionsAreArrows(h, p, event);
    var p' := Transitioned(h, p, event).value;
    hide Transitioned, Arrow;
    var all := [Transition(event)] + steps;
    assert all[1..] == steps;
    assert Run(h, p, all) == Run(h, p', steps);
    DeadForGood(h, p', steps);
  }

  // ---- the store ----

  /** A row as it is loaded: one with a stored hash stays word for word, so that
      a changed one is found out; any other gets its version and hash. */
  predicate IsLoaded(h: Hash, row: Proposal, p: Proposal) {
    if row.approvalHash.Some? && row.approvalHash.value != "" then p == row else IsAnchored(h, row, p)
  }

  predicate IsAnchored(h: Hash, row: Proposal, p: Proposal) {
    && p == row.(version := p.version, approvalHash := p.approvalHash)
    && p.version == (if row.version.Some? then row.version else Some(1))
    && p.approvalHash == Some(h(CanonOf(p)))
  }

  /** A key counts as taken by any id but the empty one. */
  predicate IsTaken(byKey: map<string, string>, key: string) {
    key in byKey && byKey[key] != ""
  }

  lemma {:induction false} LoadedIs(h: Hash, p: Proposal)
    ensures IsAnchored(h, p, WithCanon(h, p))
    ensures IsLoaded(h, p, if HasHash(p) then p else WithCanon(h, p))
  {
  }

  /** Proposals by id, and ids by idempotency key. */
  datatype Table = Table(byId: map<string, Proposal>, byKey: map<string, string>)

  /** Every key leads to a proposal with it, and every proposal's key is known. */
  predicate Valid(t: Table) {
    && (forall k :: k in t.byKey ==> t.byKey[k] in t.byId && t.byId[t.byKey[k]].idempotencyKey == k)
    && (forall id :: id in t.byId ==> t.byId[id].id == id && t.byId[id].idempotencyKey in t.byKey)
  }

  function Stored(t: Table, p: Proposal): Table {
    Table(t.byId[p.id := p], t.byKey[p.idempotencyKey := p.id])
  }

  function Created(h: Hash, t: Table, p: Proposal): (Table, Result<Proposal, ProposalError>) {
    if p.idempotencyKey in t.byKey && t.byKey[p.idempotencyKey] != "" then
      var id := t.byKey[p.idempotencyKey];
      (t, if id in t.byId then Ok(t.byId[id]) else Err(DanglingKey))
    else if p.id in t.byId then (t, Err(AlreadyExists))
    else (Stored(t, WithCanon(h, p)), Ok(WithCanon(h, p)))
  }

  function HydratedOne(h: Hash, t: Table, p: Proposal): Table {
    if p.id in t.byId then t else Stored(t, if HasHash(p) then p else WithCanon(h, p))
  }

  function Hydrated(h: Hash, t: Table, rows: seq<Proposal>): Table
    decreases |rows|
  {
    if rows == [] then t else Hydrated(h, HydratedOne(h, t, rows[0]), rows[1..])
  }

  function Applied(h: Hash, t: Table, id: string, step: Step): (Table, Result<Proposal, ProposalError>) {
    if id !in t.byId then (t, Err(NotFound))
    else
      match Outcome(h, t.byId[id], step)
      case Ok(p) => (t.(byId := t.byId[id := p]), Ok(p))
      case Err(e) => (t, Err(e))
  }

  class ProposalStore {
    var byId: map<string, Proposal>
    var byKey: map<string, string>

    ghost function Contents(): Table
      reads this
    {
      Table(byId, byKey)
    }

    constructor ()
      ensures Contents() == Table(map[], map[]) && Valid(Contents())
    {
      byId, byKey := map[], map[];
    }

    /** Rows whose id is already stored are skipped. */
    method Hydrate(h: Hash, rows: seq<Proposal>)
      modifies this
      ensures Contents() == Hydrated(h, old(Contents()), rows)
      ensures Valid(old(Contents())) ==> Valid(Contents())
      ensures forall id :: id in old(byId) ==> id in byId && byId[id] == old(byId)[id]
      ensures forall id :: id in byId && id !in old(byId) ==> exists row :: row in rows && IsLoaded(h, row, byId[id])
    {
      hide WithCanon, HasHash, Valid, IsLoaded;
      for i := 0 to |rows|
        invariant Hydrated(h, Contents(), rows[i..]) == Hydrated(h, old(Contents()), rows)
        invariant Valid(old(Contents())) ==> Valid(Contents())
        invariant forall id :: id in old(byId) ==> id in byId && byId[id] == old(byId)[id]
        invariant forall id :: id in byId && id !in old(byId) ==>
                    exists row :: row in rows && IsLoaded(h, row, byId[id])
      {
        var p := rows[i];
        assert rows[i..][0] == p && rows[i..][1..] == rows[i + 1..];
        if Valid(Contents()) { HydratedValid(h, Contents(), p); }
        if p.id !in byId {
          var anchored := if HasHash(p) then p else WithCanon(h, p);
          WithCanonKeeps(h, p);
          LoadedIs(h, p);
          assert p in rows;
          byId := byId[anchored.id := anchored];
          byKey := byKey[anchored.idempotencyKey := anchored.id];
        }
      }
    }

    method Create(h: Hash, p: Proposal) returns (result: Result<Proposal, ProposalError>)
      modifies this
      ensures (Contents(), result) == Created(h, old(Contents()), p)
      ensures Valid(old(Contents())) ==> Valid(Contents()) && result != Err(DanglingKey)
      ensures IsTaken(old(byKey), p.idempotencyKey) && old(byKey)[p.idempotencyKey] in old(byId) ==>
                result == Ok(old(byId)[old(byKey)[p.idempotencyKey]])
      ensures !IsTaken(old(byKey), p.idempotencyKey) && p.id in old(byId) ==> result == Err(AlreadyExists)
      ensures IsTaken(old(byKey), p.idempotencyKey) || p.id in old(byId) ==> byId == old(byId) && byKey == old(byKey)
      ensures !IsTaken(old(byKey), p.idempotencyKey) && p.id !in old(byId) ==>
                result.Ok? && IsAnchored(h, p, result.value) && byId == old(byId)[p.id := result.value]
                && byKey == old(byKey)[p.idempotencyKey := p.id]
    {
      LoadedIs(h, p);
      WithCanonKeeps(h, p);
      hide WithCanon, Valid, IsAnchored;
      if Valid(Contents()) { CreatedValid(h, Contents(), p); }
      if p.idempotencyKey in byKey && byKey[p.idempotencyKey] != "" {
        var existingId := byKey[p.idempotencyKey];
        return if existingId in byId then Ok(byId[existingId]) else Err(DanglingKey);
      }
      if p.id in byId {
        return Err(AlreadyExists);
      }
      var anchored := WithCanon(h, p);
      byId := byId[anchored.id := anchored];
      byKey := byKey[anchored.idempotencyKey := anchored.id];
      return Ok(anchored);
    }

    method ApplyTransition(h: Hash, id: string, event: Event) returns (result: Result<Proposal, ProposalError>)
      modifies this`byId
      ensures (Contents(), result) == Applied(h, old(Contents()), id, Transition(event))
      ensures Valid(old(Contents())) ==> Valid(Contents())
      ensures result == Err(NotFound) <==> id !in old(byId)
      ensures result.Err? ==> byId == old(byId)
      ensures result.Ok? ==>
                Arrow(event, old(byId)[id].status, result.value.status) && byId == old(byId)[id := result.value]
    {
      hide Transitioned, Valid;
      if Valid(Contents()) { AppliedValid(h, Contents(), id, Transition(event)); }
      if id !in byId {
        return Err(NotFound);
      }
      TransitionsAreArrows(h, byId[id], event);
      result := Transitioned(h, byId[id], event);
      if result.Ok? {
        byId := byId[id := result.value];
      }
    }

    method ApplyRevision(h: Hash, id: string, revision: Revision) returns (result: Result<Proposal, ProposalError>)
      modifies this`byId
      ensures (Contents(), result) == Applied(h, old(Contents()), id, Revise(revision))
      ensures Valid(old(Contents())) ==> Valid(Contents())
      ensures id !in old(byId) ==> result == Err(NotFound) && byId == old(byId)
      ensures id in old(byId) ==>
                result.Ok? && byId == old(byId)[id := result.value]
                && IsRevision(h, old(byId)[id], revision, result.value)
    {
      hide Revised, Valid;
      if Valid(Contents()) { AppliedValid(h, Contents(), id, Revise(revision)); }
      if id !in byId {
        return Err(NotFound);
      }
      RevisedIs(h, byId[id], revision);
      var revised := Revised(h, byId[id], revision);
      byId := byId[id := revised];
      return Ok(revised);
    }
  }

  lemma {:induction false} WithCanonKeeps(h: Hash, p: Proposal)
    ensures WithCanon(h, p).id == p.id && WithCanon(h, p).idempotencyKey == p.idempotencyKey
  {
  }

  lemma {:induction false} StoredValid(t: Table, p: Proposal)
    requires Valid(t) && p.id !in t.byId
    ensures Valid(Stored(t, p))
  {
  }

  lemma {:induction false} HydratedValid(h: Hash, t: Table, p: Proposal)
    requires Valid(t)
    ensures Valid(HydratedOne(h, t, p))
  {
    hide WithCanon, Valid, Stored;
    WithCanonKeeps(h, p);
    if p.id !in t.byId { StoredValid(t, if HasHash(p) then p else WithCanon(h, p)); }
  }

  lemma {:induction false} CreatedValid(h: Hash, t: Table, p: Proposal)
    requires Valid(t)
    ensures Valid(Created(h, t, p).0) && Created(h, t, p).1 != Err(DanglingKey)
  {
    hide WithCanon;
    WithCanonKeeps(h, p);
    if p.id !in t.byId { StoredValid(t, WithCanon(h, p)); }
  }

  lemma {:induction false} StepKeepsKeys(h: Hash, p: Proposal, step: Step)
    requires Outcome(h, p, step).Ok?
    ensures Outcome(h, p, step).value.id == p.id
    ensures Outcome(h, p, step).value.idempotencyKey == p.idempotencyKey
    ensures Outcome(h, p, step).value.createdBy == p.createdBy
  {
    hide Met, CanonOf, Intact, Users;
  }

  lemma {:induction false} AppliedValid(h: Hash, t: Table, id: string, step: Step)
    requires Valid(t)
    ensures Valid(Applied(h, t, id, step).0)
  {
    hide Outcome, Valid;
    if id in t.byId && Outcome(h, t.byId[id], step).Ok? {
      StepKeepsKeys(h, t.byId[id], step);
      ReplacedValid(t, id, Outcome(h, t.byId[id], step).value);
    }
  }

  lemma {:induction false} ReplacedValid(t: Table, id: string, p: Proposal)
    requires Valid(t) && id in t.byId && p.id == t.byId[id].id && p.idempotencyKey == t.byId[id].idempotencyKey
    ensures Valid(t.(byId := t.byId[id := p]))
  {
  }

  // ---- runs of the store ----

  datatype Op = Create(p: Proposal) | Hydrate(rows: seq<Proposal>) | Apply(id: string, step: Step)

  function TableNext(h: Hash, t: Table, op: Op): Table {
    match op
    case Create(p) => Created(h, t, p).0
    case Hydrate(rows) => Hydrated(h, t, rows)
    case Apply(id, step) => Applied(h, t, id, step).0
  }

  function TableRun(h: Hash, t: Table, ops: seq<Op>): Table
    decreases |ops|
  {
    if ops == [] then t else TableRun(h, TableNext(h, t, ops[0]), ops[1..])
  }

  /** The steps of a run that are about one proposal. */
  function StepsOf(ops: seq<Op>, id: string): seq<Step>
    decreases |ops|
  {
    if ops == [] then []
    else (if ops[0].Apply? && ops[0].id == id then [ops[0].step] else []) + StepsOf(ops[1..], id)
  }

  lemma {:induction false} HydratedKeeps(h: Hash, t: Table, rows: seq<Proposal>, id: string)
    requires Valid(t)
    ensures Valid(Hydrated(h, t, rows))
    ensures id in t.byId ==> id in Hydrated(h, t, rows).byId && Hydrated(h, t, rows).byId[id] == t.byId[id]
    decreases |rows|
  {
    hide Valid, HasHash, WithCanon;
    if rows != [] {
      HydratedValid(h, t, rows[0]);
      WithCanonKeeps(h, rows[0]);
      HydratedKeeps(h, HydratedOne(h, t, rows[0]), rows[1..], id);
    }
  }

  lemma {:induction false} OpKeeps(h: Hash, t: Table, op: Op, id: string)
    requires Valid(t) && id in t.byId
    ensures Valid(TableNext(h, t, op)) && id in TableNext(h, t, op).byId
    ensures TableNext(h, t, op).byId[id]
         == if op.Apply? && op.id == id then Next(h, t.byId[id], op.step) else t.byId[id]
  {
    hide Valid, Outcome, WithCanon, Hydrated;
    match op {
      case Create(p) =>
        CreatedValid(h, t, p);
        WithCanonKeeps(h, p);
      case Hydrate(rows) => HydratedKeeps(h, t, rows, id);
      case Apply(other, step) => AppliedValid(h, t, other, step);
    }
  }

  /** Whatever else the store does, a stored proposal goes through exactly the
      steps that name it, and is never lost. */
  lemma {:induction false} EntryRuns(h: Hash, t: Table, ops: seq<Op>, id: string)
    requires Valid(t) && id in t.byId
    ensures Valid(TableRun(h, t, ops)) && id in TableRun(h, t, ops).byId
    ensures TableRun(h, t, ops).byId[id] == Run(h, t.byId[id], StepsOf(ops, id))
    decreases |ops|
  {
    hide Valid, TableNext, Next;
    if ops != [] {
      var t' := TableNext(h, t, ops[0]);
      OpKeeps(h, t, ops[0], id);
      EntryRuns(h, t', ops[1..], id);
      var rest := StepsOf(ops[1..], id);
      if ops[0].Apply? && ops[0].id == id {
        assert ([ops[0].step] + rest)[1..] == rest;
      } else {
        assert StepsOf(ops, id) == rest;
      }
    }
  }

  /** So a proposal newly created in any valid store and past signing after any run
      holds its approvals exactly when it needs none or none of its own
      revisions came after signing. */
  lemma {:induction false} StoredHoldsApprovals(h: Hash, t: Table, p: Proposal, ops: seq<Op>)
    requires Valid(t) && p.id !in t.byId && p.idempotencyKey !in t.byKey
    requires BeforeApproval(p.status) && p.approvals == []
    ensures var t' := TableRun(h, Created(h, t, p).0, ops);
            p.id in t'.byId
            && (PastSigning(t'.byId[p.id].status) ==>
                  (Met(t'.byId[p.id]) <==>
                     t'.byId[p.id].requiredApprovers == 0 || !LateRevision(h, WithCanon(h, p), StepsOf(ops, p.id))))
  {
    hide Valid, TableRun, Run, LateRevision, Met, StepsOf, CanonOf;
    CreatedValid(h, t, p);
    CreatedEntry(h, t, p);
    var t1 := Created(h, t, p).0;
    EntryRuns(h, t1, ops, p.id);
    assert Fresh(h, WithCanon(h, p)) by { CreatedFresh(h, p); }
    hide WithCanon;
    if PastSigning(Run(h, WithCanon(h, p), StepsOf(ops, p.id)).status) {
      SubmittedHoldsApprovals(h, WithCanon(h, p), StepsOf(ops, p.id));
    }
  }

  lemma {:induction false} CreatedEntry(h: Hash, t: Table, p: Proposal)
    requires p.id !in t.byId && p.idempotencyKey !in t.byKey
    ensures p.id in Created(h, t, p).0.byId && Created(h, t, p).0.byId[p.id] == WithCanon(h, p)
  {
    hide WithCanon;
    WithCanonKeeps(h, p);
  }

  lemma {:induction false} CreatedFresh(h: Hash, p: Proposal)
    requires BeforeApproval(p.status) && p.approvals == []
    ensures Fresh(h, WithCanon(h, p))
  {
  }

  /** Some of the rows is new to the store and carries the key. */
  predicate RowMoves(h: Hash, t: Table, rows: seq<Proposal>, key: string)
    decreases |rows|
  {
    rows != [] && (MovesKey(t, rows[0], key) || RowMoves(h, HydratedOne(h, t, rows[0]), rows[1..], key))
  }

  predicate MovesKey(t: Table, row: Proposal, key: string) {
    row.idempotencyKey == key && row.id !in t.byId
  }

  /** Some hydration of the run loads such a row. */
  predicate KeyMoves(h: Hash, t: Table, ops: seq<Op>, key: string)
    decreases |ops|
  {
    ops != [] && (OpMoves(h, t, ops[0], key) || KeyMoves(h, TableNext(h, t, ops[0]), ops[1..], key))
  }

  predicate OpMoves(h: Hash, t: Table, op: Op, key: string) {
    op.Hydrate? && RowMoves(h, t, op.rows, key)
  }

  /** The key leads to the stored id, or, once moved, to another one. */
  predicate KeyAt(t: Table, key: string, id: string, moved: bool) {
    id != "" && id in t.byId && key in t.byKey && (t.byKey[key] == id <==> !moved)
  }

  lemma {:induction false} HydratedKey(h: Hash, t: Table, rows: seq<Proposal>, key: string, id: string, moved: bool)
    requires KeyAt(t, key, id, moved)
    ensures KeyAt(Hydrated(h, t, rows), key, id, moved || RowMoves(h, t, rows, key))
    decreases |rows|
  {
    hide HasHash, WithCanon;
    if rows != [] {
      WithCanonKeeps(h, rows[0]);
      HydratedKey(h, HydratedOne(h, t, rows[0]), rows[1..], key, id, moved || MovesKey(t, rows[0], key));
    }
  }

  lemma {:induction false} OpKey(h: Hash, t: Table, op: Op, key: string, id: string, moved: bool)
    requires KeyAt(t, key, id, moved)
    ensures KeyAt(TableNext(h, t, op), key, id, moved || OpMoves(h, t, op, key))
  {
    hide Hydrated, Outcome, WithCanon, RowMoves;
    match op {
      case Create(p) => WithCanonKeeps(h, p);
      case Hydrate(rows) => HydratedKey(h, t, rows, key, id, moved);
      case Apply(_, _) =>
    }
  }

  lemma {:induction false} RunKey(h: Hash, t: Table, ops: seq<Op>, key: string, id: string, moved: bool)
    requires Valid(t) && KeyAt(t, key, id, moved)
    ensures Valid(TableRun(h, t, ops))
    ensures KeyAt(TableRun(h, t, ops), key, id, moved || KeyMoves(h, t, ops, key))
    decreases |ops|
  {
    hide TableNext, Valid, OpMoves;
    if ops != [] {
      OpKeeps(h, t, ops[0], id);
      OpKey(h, t, ops[0], key, id, moved);
      RunKey(h, TableNext(h, t, ops[0]), ops[1..], key, id, moved || OpMoves(h, t, ops[0], key));
    }
  }

  /** Replaying an idempotency key at any later time returns the first proposal,
      as it then is, and changes nothing, exactly when no row with that key and
      a new id was hydrated in between. */
  lemma {:induction false} ReplayReturnsFirst(h: Hash, t: Table, ops: seq<Op>, id: string, again: Proposal)
    requires Valid(t) && KeyAt(t, again.idempotencyKey, id, false)
    ensures var t' := TableRun(h, t, ops);
            id in t'.byId
            && (Created(h, t', again) == (t', Ok(t'.byId[id])) <==> !KeyMoves(h, t, ops, again.idempotencyKey))
  {
    hide TableRun, KeyMoves, WithCanon;
    RunKey(h, t, ops, again.idempotencyKey, id, false);
    WithCanonKeeps(h, again);
  }

  /** The case happens: a proposal is created before the stored ones are loaded,
      and one of those has its key. */
  lemma {:induction false} HydrationMovesKeyWitness()
    ensures var first := Sample(Drafted, 0, [], 1, "soon");
            var loaded := first.(id := "old");
            var t := Created(SampleHash(), Table(map[], map[]), first).0;
            var t' := Hydrated(SampleHash(), t, [loaded]);
            Created(SampleHash(), t, first) == (t, Ok(first)) && Created(SampleHash(), t', first) == (t', Ok(loaded))
  {
    var first := Sample(Drafted, 0, [], 1, "soon");
    var t := Created(SampleHash(), Table(map[], map[]), first).0;
    var rows := [first.(id := "old")];
    assert rows[1..] == [];
    assert Hydrated(SampleHash(), t, rows) == HydratedOne(SampleHash(), t, rows[0]);
  }
}
