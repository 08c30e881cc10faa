/** The fifteen-minute idle rule (lib/auth/idle-timeout.ts) over runs of requests. */
module IdleTimeout {
  import opened Wrappers

  const IDLE_TIMEOUT_MS := 15 * 60 * 1000
  const IDLE_REFRESH_INTERVAL_MS := 60 * 1000

  datatype IdleVerdict = Active(idleMs: int, refresh: bool) | Expired(idleMs: int)

  /** `lastSeen` is absent for a missing or unreadable stamp. */
  function EvaluateIdle(lastSeen: Option<int>, now: int): IdleVerdict {
    match lastSeen
    case None => Active(0, true)
    case Some(seen) =>
      if seen > now then Active(0, true)
      else
        var idleMs := now - seen;
        if idleMs >= IDLE_TIMEOUT_MS then Expired(idleMs)
        else Active(idleMs, idleMs >= IDLE_REFRESH_INTERVAL_MS)
  }

  /** A session is idle exactly from fifteen minutes after its stamp on; until
      then it is stamped anew exactly when the stamp is missing, in the future
      or a minute old. */
  lemma {:induction false} VerdictIs(lastSeen: Option<int>, now: int)
    ensures EvaluateIdle(lastSeen, now).Expired? <==> lastSeen.Some? && now - lastSeen.value >= 900000
    ensures EvaluateIdle(lastSeen, now).idleMs
         == if lastSeen.Some? && lastSeen.value <= now then now - lastSeen.value else 0
    ensures EvaluateIdle(lastSeen, now).Active? ==>
              (EvaluateIdle(lastSeen, now).refresh
               <==> lastSeen.None? || lastSeen.value > now || now - lastSeen.value >= 60000)
  {
  }

  /** One request in a run: an idle session closes for good, an open one takes
      the time as its stamp exactly when it is stamped anew. */
  lemma {:induction false} RequestIs(s: Session, now: int)
    ensures Request(s, now).open <==> s.open && (s.stamp.None? || now - s.stamp.value < 900000)
    ensures Request(s, now).stamp
         == if Request(s, now).open && (s.stamp.None? || s.stamp.value > now || now - s.stamp.value >= 60000)
            then Some(now) else s.stamp
  {
  }

  /** A session's stamp, and whether it has survived so far. */
  datatype Session = Session(stamp: Option<int>, open: bool)

  /** One request; the stamp is rewritten when the verdict asks for it. */
  function Request(s: Session, now: int): Session {
    if !s.open then s
    else
      match EvaluateIdle(s.stamp, now)
      case Expired(_) => Session(s.stamp, false)
      case Active(_, refresh) => Session(if refresh then Some(now) else s.stamp, true)
  }

  function Run(s: Session, times: seq<int>): Session {
    if times == [] then s else Request(Run(s, times[..|times| - 1]), times[|times| - 1])
  }

  predicate Clocked(times: seq<int>) {
    forall i, j :: 0 <= i < j < |times| ==> times[i] <= times[j]
  }

  /** After every accepted request the stamp is at most just under a minute old. */
  lemma {:induction false} StampLag(start: Option<int>, times: seq<int>)
    requires Clocked(times) && times != [] && Run(Session(start, true), times).open
    ensures var stamp := Run(Session(start, true), times).stamp;
            stamp.Some? && 0 <= times[|times| - 1] - stamp.value < 60 * 1000
  {
  }

  /** The next request after a gap of fifteen minutes finds the session gone. */
  lemma {:induction false} LongGapExpires(start: Option<int>, times: seq<int>, next: int)
    requires Clocked(times) && times != []
    requires next - times[|times| - 1] >= 15 * 60 * 1000
    ensures !Run(Session(start, true), times + [next]).open
  {
    assert (times + [next])[..|times|] == times;
    if Run(Session(start, true), times).open {
      StampLag(start, times);
    }
  }

  /** A session that has gone stays gone. */
  lemma {:induction false} ExpiredForGood(s: Session, times: seq<int>, n: nat)
    requires n <= |times| && !Run(s, times[..n]).open
    ensures !Run(s, times).open
    decreases |times| - n
  {
    if n < |times| {
      assert times[..n + 1][..n] == times[..n];
      ExpiredForGood(s, times, n + 1);
    } else {
      assert times[..n] == times;
    }
  }

  function Gap(times: seq<int>, i: nat): int
    requires 0 < i < |times|
  {
    times[i] - times[i - 1]
  }

  predicate ShortGaps(times: seq<int>) {
    forall i :: 0 < i < |times| ==> Gap(times, i) <= 14 * 60 * 1000
  }

  /** Requests that are never more than fourteen minutes apart never lose the
      session, once the first of them was accepted. */
  lemma {:induction false} ShortGapsSurvive(start: Option<int>, times: seq<int>)
    requires Clocked(times) && ShortGaps(times) && times != []
    requires Request(Session(start, true), times[0]).open
    ensures Run(Session(start, true), times).open
  {
    var n := |times| - 1;
    var init := times[..n];
    if n == 0 {
      assert init == [];
    } else {
      assert forall i :: 0 < i < n ==> Gap(init, i) == Gap(times, i);
      ShortGapsSurvive(start, init);
      StampLag(start, init);
      assert Gap(times, n) <= 14 * 60 * 1000;
    }
  }

  /** Both bounds are sharp: any gap strictly between them is survived by one
      run and fatal to another, depending on how old the stamp already was. */
  lemma {:induction false} BetweenBothHappen(gap: int)
    requires 14 * 60 * 1000 < gap < 15 * 60 * 1000
    ensures Run(Session(None, true), [0, gap]).open
    ensures Run(Session(Some(0), true), [59999]).open
    ensures !Run(Session(Some(0), true), [59999, 59999 + gap]).open
  {
    var last := IDLE_REFRESH_INTERVAL_MS - 1;
    assert [0, gap][..1] == [0] && [0][..0] == [];
    assert [last, last + gap][..1] == [last] && [last][..0] == [];
  }
}
