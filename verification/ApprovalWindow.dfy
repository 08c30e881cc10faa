/** The in-chat approval windows of the agent desk (app/dashboard/page.tsx):
    proposals arrive, the clock ticks, the operator clicks, the server replies. */
module ApprovalWindow {
  import opened Wrappers

  const WINDOW_MS := 120000

  const NEEDS_QUEUE := "Policy requires this one to go through the approval queue."
  const LOST := "Connection dropped — approve it from the queue instead."

  datatype State = Waiting | Approving | Approved | Expired | Blocked

  datatype Approval = Approval(state: State, expiresAt: int, note: Option<string>)

  type Approvals = map<string, Approval>

  /** The server's answer to a submitted approval. */
  datatype Reply = Accepted | Refused(error: Option<string>) | ConnectionLost

  datatype Step = Arrive(id: string, now: int) | Tick(now: int) | Click(id: string) | Answer(id: string, reply: Reply)

  // ---- state updates ----

  function Opened(m: Approvals, id: string, now: int): Approvals {
    m[id := Approval(Waiting, now + WINDOW_MS, None)]
  }

  predicate RanOut(entry: Approval, now: int) {
    entry.state.Waiting? && now >= entry.expiresAt
  }

  function Ticked(m: Approvals, now: int): Approvals {
    map id | id in m :: if RanOut(m[id], now) then m[id].(state := Expired) else m[id]
  }

  function Clicked(m: Approvals, id: string): Approvals {
    m[id := if id in m then m[id].(state := Approving) else Approval(Approving, 0, None)]
  }

  function Settled(reply: Reply): Approval {
    match reply
    case Accepted => Approval(Approved, 0, None)
    case Refused(None) => Approval(Blocked, 0, Some(NEEDS_QUEUE))
    case Refused(Some(error)) => Approval(Blocked, 0, Some(error))
    case ConnectionLost => Approval(Blocked, 0, Some(LOST))
  }

  /** What a refusal says: the server's own words, or else where to go next. */
  function NoteFor(reply: Reply): string
    requires !reply.Accepted?
  {
    if reply.ConnectionLost? then "Connection dropped — approve it from the queue instead."
    else if reply.error.Some? then reply.error.value
    else "Policy requires this one to go through the approval queue."
  }

  lemma {:induction false} SettledIs(reply: Reply)
    ensures Settled(reply) == if reply == Accepted then Approval(Approved, 0, None)
                              else Approval(Blocked, 0, Some(NoteFor(reply)))
  {
  }

  predicate IsApproved(m: Approvals, id: string) {
    id in m && m[id].state.Approved?
  }

  /** The reminder count: proposals in the thread not approved in chat. */
  function Unresolved(proposals: seq<string>, m: Approvals): nat {
    if proposals == [] then 0
    else (if IsApproved(m, proposals[0]) then 0 else 1) + Unresolved(proposals[1..], m)
  }

  function Recorded(proposals: seq<string>, m: Approvals, before: Option<nat>): Option<nat> {
    if proposals == [] then before else Some(Unresolved(proposals, m))
  }

  /** Everything the steps act on; `inFlight` are the submissions the server
      has not answered yet. */
  datatype Board = Board(
    proposals: seq<string>,
    approvals: Approvals,
    inFlight: multiset<string>,
    recorded: Option<nat>)

  const EMPTY := Board([], map[], multiset{}, None)

  function Changed(b: Board, proposals: seq<string>, approvals: Approvals, inFlight: multiset<string>): Board {
    Board(proposals, approvals, inFlight, Recorded(proposals, approvals, b.recorded))
  }

  /** The approve button is offered while an entry waits or is missing, and
      only an unanswered submission can be answered. */
  predicate Enabled(b: Board, step: Step) {
    match step
    case Arrive(_, _) => true
    case Tick(_) => true
    case Click(id) => id in b.proposals && (id in b.approvals ==> b.approvals[id].state.Waiting?)
    case Answer(id, _) => id in b.inFlight
  }

  function Next(b: Board, step: Step): Board {
    match step
    case Arrive(id, now) => Changed(b, b.proposals + [id], Opened(b.approvals, id, now), b.inFlight)
    case Tick(now) => Changed(b, b.proposals, Ticked(b.approvals, now), b.inFlight)
    case Click(id) => Changed(b, b.proposals, Clicked(b.approvals, id), b.inFlight + multiset{id})
    case Answer(id, reply) =>
      Changed(b, b.proposals, b.approvals[id := Settled(reply)], b.inFlight - multiset{id})
  }

  lemma {:induction false} NextAnswer(b: Board, id: string, reply: Reply)
    ensures Next(b, Answer(id, reply))
         == Board(b.proposals, b.approvals[id := Settled(reply)], b.inFlight - multiset{id},
                  Recorded(b.proposals, b.approvals[id := Settled(reply)], b.recorded))
  {
  }

  /** The component, updated step by step. */
  class ApprovalDesk {
    var proposals: seq<string>
    var approvals: Approvals
    var inFlight: multiset<string>
    var recorded: Option<nat>

    ghost function Contents(): Board
      reads this
    {
      Board(proposals, approvals, inFlight, recorded)
    }

    constructor ()
      ensures Contents() == EMPTY
    {
      proposals, approvals, inFlight, recorded := [], map[], multiset{}, None;
    }

    lemma {:induction false} ContentsOfFields()
      ensures Contents() == Board(proposals, approvals, inFlight, recorded)
    {
    }

    /** The effect that reminds the operator elsewhere in the app. */
    method RecordPending()
      modifies this`recorded
      ensures recorded == Recorded(proposals, approvals, old(recorded))
    {
      if |proposals| > 0 {
        var count := 0;
        for i := 0 to |proposals|
          invariant count + Unresolved(proposals[i..], approvals) == Unresolved(proposals, approvals)
        {
          if !IsApproved(approvals, proposals[i]) {
            count := count + 1;
          }
        }
        recorded := Some(count);
      }
    }

    method ProposalArrives(id: string, now: int)
      modifies this
      ensures Contents() == Next(old(Contents()), Arrive(id, now))
      ensures id in approvals && approvals[id] == Approval(Waiting, now + 2 * 60 * 1000, None)
      ensures forall other :: other != id ==> (other in approvals <==> other in old(approvals))
      ensures forall other :: other in approvals && other != id ==> approvals[other] == old(approvals)[other]
      ensures proposals == old(proposals) + [id]
    {
      hide Recorded;
      approvals := approvals[id := Approval(Waiting, now + WINDOW_MS, None)];
      proposals := proposals + [id];
      RecordPending();
    }

    /** One pass over the entries, replacing those that ran out. */
    method ClockTick(now: int)
      modifies this
      ensures Contents() == Next(old(Contents()), Tick(now))
      ensures approvals.Keys == old(approvals).Keys
      ensures forall id :: id in approvals ==>
                approvals[id] == if old(approvals)[id].state == Waiting && old(approvals)[id].expiresAt <= now
                                 then old(approvals)[id].(state := Expired) else old(approvals)[id]
    {
      hide Recorded;
      var next: Approvals := map[];
      var ids := approvals.Keys;
      while ids != {}
        invariant ids <= approvals.Keys && next.Keys == approvals.Keys - ids
        invariant forall id :: id in next ==> next[id] == Ticked(approvals, now)[id]
        invariant approvals == old(approvals)
        decreases |ids|
      {
        var id :| id in ids;
        ids := ids - {id};
        var entry := approvals[id];
        next := next[id := if RanOut(entry, now) then entry.(state := Expired) else entry];
      }
      assert next == Ticked(approvals, now);
      approvals := next;
      RecordPending();
    }

    method ApproveInChat(id: string)
      modifies this
      ensures Contents() == Next(old(Contents()), Click(id))
      ensures id in approvals && approvals[id].state == Approving && inFlight == old(inFlight) + multiset{id}
      ensures if id in old(approvals) then approvals[id] == old(approvals)[id].(state := Approving)
              else approvals[id] == Approval(Approving, 0, None)
      ensures forall other :: other in old(approvals) && other != id ==>
                other in approvals && approvals[other] == old(approvals)[other]
    {
      hide Recorded;
      var expiresAt := if id in approvals then approvals[id].expiresAt else 0;
      var note := if id in approvals then approvals[id].note else None;
      approvals := approvals[id := Approval(Approving, expiresAt, note)];
      inFlight := inFlight + multiset{id};
      RecordPending();
    }

    method ServerReplies(id: string, reply: Reply)
      requires id in inFlight
      modifies this
      ensures Contents() == Next(old(Contents()), Answer(id, reply))
      ensures id in approvals && approvals[id].expiresAt == 0
      ensures reply.Accepted? ==> approvals[id].state == Approved && approvals[id].note == None
      ensures !reply.Accepted? ==> approvals[id].state == Blocked && approvals[id].note == Some(NoteFor(reply))
      ensures forall other :: other in old(approvals) && other != id ==>
                other in approvals && approvals[other] == old(approvals)[other]
      ensures inFlight == old(inFlight) - multiset{id}
    {
      SettledIs(reply);
      ghost var before := Contents();
      NextAnswer(before, id, reply);
      assert before == Board(proposals, approvals, inFlight, recorded);
      hide *;
      approvals := approvals[id := Settled(reply)];
      inFlight := inFlight - multiset{id};
      RecordPending();
      assert Contents() == Board(proposals, approvals, inFlight, recorded) by { ContentsOfFields(); }
    }
  }

  // ---- runs ----

  /** Every step is enabled and no proposal id arrives twice. */
  predicate LegalRun(b: Board, steps: seq<Step>)
    decreases |steps|
  {
    steps == [] ||
    (&& Enabled(b, steps[0])
     && (steps[0].Arrive? ==> steps[0].id !in b.proposals)
     && LegalRun(Next(b, steps[0]), steps[1..]))
  }

  function Run(b: Board, steps: seq<Step>): Board
    decreases |steps|
  {
    if steps == [] then b else Run(Next(b, steps[0]), steps[1..])
  }

  predicate Distinct(ids: seq<string>) {
    forall i, j :: 0 <= i < j < |ids| ==> ids[i] != ids[j]
  }

  function ApprovedIds(m: Approvals): set<string> {
    set id | id in m && m[id].state.Approved?
  }

  /** What every reachable board satisfies. */
  ghost predicate Consistent(b: Board) {
    && Distinct(b.proposals)
    && (forall id :: id in b.approvals <==> id in b.proposals)
    && (forall id :: id in b.inFlight <==> id in b.approvals && b.approvals[id].state.Approving?)
    && (forall id :: id in b.inFlight ==> b.inFlight[id] == 1)
    && (b.proposals == [] ==> b.recorded == None)
    && (b.proposals != [] ==> b.recorded == Some(Unresolved(b.proposals, b.approvals)))
  }

  lemma {:induction false} DistinctNext(ids: seq<string>, id: string)
    requires Distinct(ids) && id !in ids
    ensures Distinct(ids + [id])
    ensures forall k :: k in ids + [id] <==> k in ids || k == id
  {
  }

  lemma {:induction false} StepConsistent(b: Board, step: Step)
    requires Consistent(b) && Enabled(b, step)
    requires step.Arrive? ==> step.id !in b.proposals
    ensures Consistent(Next(b, step))
  {
    hide Distinct, Unresolved;
    match step {
      case Arrive(id, now) => ArriveConsistent(b, id, now);
      case Tick(now) =>
      case Click(id) =>
      case Answer(id, reply) => AnswerConsistent(b, id, reply);
    }
  }

  lemma {:induction false} ArriveConsistent(b: Board, id: string, now: int)
    requires Consistent(b) && id !in b.proposals
    ensures Consistent(Next(b, Arrive(id, now)))
  {
    hide Distinct, Unresolved;
    DistinctNext(b.proposals, id);
  }

  lemma {:induction false} AnswerConsistent(b: Board, id: string, reply: Reply)
    requires Consistent(b) && id in b.inFlight
    ensures Consistent(Next(b, Answer(id, reply)))
  {
    hide Distinct, Unresolved;
    assert b.inFlight[id] == 1;
    assert !Settled(reply).state.Approving?;
  }

  lemma {:induction false} RunConsistent(b: Board, steps: seq<Step>)
    requires Consistent(b) && LegalRun(b, steps)
    ensures Consistent(Run(b, steps))
    decreases |steps|
  {
    hide Consistent, Next, Enabled;
    if steps != [] {
      StepConsistent(b, steps[0]);
      RunConsistent(Next(b, steps[0]), steps[1..]);
    }
  }

  /** What an answer leaves: no window, and a note exactly when it was refused. */
  predicate IsSettled(entry: Approval) {
    entry.expiresAt == 0
    && ((entry.state.Approved? && entry.note.None?) || (entry.state.Blocked? && entry.note.Some?))
  }

  /** How one step may change an entry: a waiting one may run out or be
      submitted, both with its window and note kept, a submitted one may be
      answered, and anything else stays exactly as it is. */
  predicate Moves(before: Approval, after: Approval) {
    || after == before
    || (before.state.Waiting? && (after == before.(state := Expired) || after == before.(state := Approving)))
    || (before.state.Approving? && IsSettled(after))
  }

  /** How an entry may look any number of steps later. */
  predicate Later(before: Approval, after: Approval) {
    || Moves(before, after)
    || (before.state.Waiting? && IsSettled(after))
  }

  /** That is the closure of single moves: two of them always suffice, and a
      further one leads nowhere else. */
  lemma {:induction false} LaterIsMoves(before: Approval, after: Approval)
    ensures Later(before, after) <==> exists middle :: Moves(before, middle) && Moves(middle, after)
    ensures forall next :: Later(before, after) && Moves(after, next) ==> Later(before, next)
  {
    if Moves(before, after) {
      assert Moves(before, before);
    } else if Later(before, after) {
      assert Moves(before, before.(state := Approving)) && Moves(before.(state := Approving), after);
    }
  }

  predicate AllMove(m: Approvals, m': Approvals) {
    forall id :: id in m ==> id in m' && Moves(m[id], m'[id])
  }

  lemma {:induction false} StepMoves(b: Board, step: Step)
    requires Consistent(b) && Enabled(b, step)
    requires step.Arrive? ==> step.id !in b.proposals
    ensures AllMove(b.approvals, Next(b, step).approvals)
  {
    hide Distinct, Unresolved, Recorded;
  }

  /** Over a whole run no entry is lost and none ever goes back. */
  lemma {:induction false} RunMovesForward(b: Board, steps: seq<Step>, id: string)
    requires Consistent(b) && LegalRun(b, steps) && id in b.approvals
    ensures id in Run(b, steps).approvals && Later(b.approvals[id], Run(b, steps).approvals[id])
    decreases |steps|
  {
    hide Consistent, Next, Enabled;
    if steps != [] {
      var b' := Next(b, steps[0]);
      StepConsistent(b, steps[0]);
      StepMoves(b, steps[0]);
      RunMovesForward(b', steps[1..], id);
    }
  }

  /** The run answers an entry's submission, and how. */
  predicate Answered(steps: seq<Step>, id: string, accepted: bool) {
    exists k :: 0 <= k < |steps| && steps[k].Answer? && steps[k].id == id && (steps[k].reply == Accepted <==> accepted)
  }

  lemma {:induction false} AnsweredHead(steps: seq<Step>, id: string, accepted: bool)
    requires steps != []
    ensures Answered(steps, id, accepted) <==> Answered([steps[0]], id, accepted) || Answered(steps[1..], id, accepted)
  {
    if k :| 0 <= k < |steps| && steps[k].Answer? && steps[k].id == id && (steps[k].reply == Accepted <==> accepted) {
      if k > 0 { assert steps[1..][k - 1] == steps[k]; } else { assert [steps[0]][0] == steps[0]; }
    }
    if k :| 0 <= k < |steps[1..]| && steps[1..][k].Answer? && steps[1..][k].id == id
            && (steps[1..][k].reply == Accepted <==> accepted) {
      assert steps[k + 1] == steps[1..][k];
    }
    if Answered([steps[0]], id, accepted) { assert [steps[0]][0] == steps[0]; }
  }

  predicate IsBlocked(m: Approvals, id: string) {
    id in m && m[id].state.Blocked?
  }

  lemma {:induction false} StepDecides(b: Board, step: Step, id: string)
    requires Consistent(b) && Enabled(b, step)
    requires step.Arrive? ==> step.id !in b.proposals
    ensures IsApproved(Next(b, step).approvals, id) <==> IsApproved(b.approvals, id) || Answered([step], id, true)
    ensures IsBlocked(Next(b, step).approvals, id) <==> IsBlocked(b.approvals, id) || Answered([step], id, false)
  {
    hide Distinct, Unresolved, Recorded, NoteFor;
    OneAnswered(step, id, true);
    OneAnswered(step, id, false);
    hide Answered;
    if step.Answer? { SettledIs(step.reply); }
    hide Settled;
  }

  lemma {:induction false} OneAnswered(step: Step, id: string, accepted: bool)
    ensures Answered([step], id, accepted)
       <==> step.Answer? && step.id == id && (step.reply == Accepted <==> accepted)
  {
    assert [step][0] == step;
  }

  /** Over every legal run an entry counts as approved exactly when the server
      accepted its submission in that run, and as blocked exactly when it
      answered otherwise. */
  lemma {:induction false} DecidedIffAnswered(steps: seq<Step>, id: string)
    requires LegalRun(EMPTY, steps)
    ensures IsApproved(Run(EMPTY, steps).approvals, id)
       <==> exists k :: 0 <= k < |steps| && steps[k] == Answer(id, Accepted)
    ensures IsBlocked(Run(EMPTY, steps).approvals, id)
       <==> exists k :: 0 <= k < |steps| && steps[k].Answer? && steps[k].id == id && steps[k].reply != Accepted
  {
    DecidedFrom(EMPTY, steps, id);
    hide Run, LegalRun;
    if Answered(steps, id, true) {
      var k :| 0 <= k < |steps| && steps[k].Answer? && steps[k].id == id && (steps[k].reply == Accepted <==> true);
      assert steps[k] == Answer(id, Accepted);
    }
  }

  lemma {:induction false} DecidedFrom(b: Board, steps: seq<Step>, id: string)
    requires Consistent(b) && LegalRun(b, steps)
    ensures IsApproved(Run(b, steps).approvals, id) <==> IsApproved(b.approvals, id) || Answered(steps, id, true)
    ensures IsBlocked(Run(b, steps).approvals, id) <==> IsBlocked(b.approvals, id) || Answered(steps, id, false)
    decreases |steps|
  {
    hide Consistent, Next, Enabled, IsApproved, IsBlocked;
    if steps != [] {
      StepConsistent(b, steps[0]);
      StepDecides(b, steps[0], id);
      DecidedFrom(Next(b, steps[0]), steps[1..], id);
      AnsweredHead(steps, id, true);
      AnsweredHead(steps, id, false);
    }
  }

  /** A repeated id restarts its window: an arrival keeps the order of states
      exactly when the id is new or its entry is the one the arrival writes. */
  lemma {:induction false} ArrivalKeepsOrder(b: Board, id: string, now: int)
    ensures (forall k :: k in b.approvals ==>
               Later(b.approvals[k], Next(b, Arrive(id, now)).approvals[k]))
       <==> id !in b.approvals || b.approvals[id] == Approval(Waiting, now + WINDOW_MS, None)
  {
    assert Next(b, Arrive(id, now)).approvals[id] == Approval(Waiting, now + WINDOW_MS, None);
  }

  /** A run of enabled steps in which a repeated id reopens an approved entry. */
  lemma {:induction false} RepeatedIdWitness()
    ensures var b1 := Next(EMPTY, Arrive("p", 0));
            var b2 := Next(b1, Click("p"));
            var b3 := Next(b2, Answer("p", Accepted));
            var b4 := Next(b3, Arrive("p", 1));
            && Enabled(b1, Click("p")) && Enabled(b2, Answer("p", Accepted)) && Enabled(b3, Arrive("p", 1))
            && "p" in b3.approvals && b3.approvals["p"] == Approval(Approved, 0, None)
            && "p" in b4.approvals && b4.approvals["p"] == Approval(Waiting, 1 + WINDOW_MS, None)
            && !Later(b3.approvals["p"], b4.approvals["p"])
  {
  }

  /** After a tick every window still open closes later, and the tick touched
      nothing but windows that had run out. */
  lemma {:induction false} TickExpires(b: Board, now: int, id: string)
    requires id in b.approvals
    ensures var m' := Next(b, Tick(now)).approvals;
            id in m'
            && (m'[id].state.Waiting? ==> m'[id] == b.approvals[id] && now < m'[id].expiresAt)
            && (m'[id] != b.approvals[id] ==>
                  b.approvals[id].state.Waiting? && b.approvals[id].expiresAt <= now && m'[id].state.Expired?)
  {
  }

  function ApprovedAmong(proposals: seq<string>, m: Approvals): set<string> {
    set id | id in proposals && IsApproved(m, id)
  }

  lemma {:induction false} CountUnresolved(proposals: seq<string>, m: Approvals)
    requires Distinct(proposals)
    ensures Unresolved(proposals, m) == |proposals| - |ApprovedAmong(proposals, m)|
  {
    hide IsApproved, ApprovedAmong;
    if proposals == [] {
      assert ApprovedAmong([], m) == {} by { NoneApproved(m); }
    } else {
      CountUnresolved(proposals[1..], m);
      FirstApproved(proposals, m);
    }
  }

  lemma {:induction false} NoneApproved(m: Approvals)
    ensures ApprovedAmong([], m) == {}
  {
  }

  lemma {:induction false} FirstApproved(proposals: seq<string>, m: Approvals)
    requires Distinct(proposals) && proposals != []
    ensures |ApprovedAmong(proposals, m)|
         == |ApprovedAmong(proposals[1..], m)| + (if IsApproved(m, proposals[0]) then 1 else 0)
  {
    hide IsApproved;
    var first, rest := proposals[0], proposals[1..];
    var done, done' := ApprovedAmong(proposals, m), ApprovedAmong(rest, m);
    assert proposals == [first] + rest;
    assert first !in rest;
    assert done == if IsApproved(m, first) then done' + {first} else done';
  }

  /** The reminder always shows proposals minus approved ones. */
  lemma {:induction false} PendingCount(steps: seq<Step>)
    requires LegalRun(EMPTY, steps)
    ensures var b := Run(EMPTY, steps);
            b.recorded == if b.proposals == [] then None else Some(|b.proposals| - |ApprovedIds(b.approvals)|)
  {
    var b := Run(EMPTY, steps);
    RunConsistent(EMPTY, steps);
    hide Run, LegalRun, Unresolved, Distinct, IsApproved;
    ApprovedInThread(b);
    CountUnresolved(b.proposals, b.approvals);
  }

  lemma {:induction false} ApprovedInThread(b: Board)
    requires Consistent(b)
    ensures ApprovedIds(b.approvals) == ApprovedAmong(b.proposals, b.approvals)
  {
    hide Distinct, Unresolved;
  }
}
