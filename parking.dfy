/**
 * The counter-based ("traditional") parking session of one ACE unit, as pure
 * transitions over the session's fields. Times are milliseconds of the host's
 * monotonic clock.
 */
module Parking {
  import opened Protocol

  /** The feed-assist counter must have risen within this long after the start. */
  const StallTimeoutMs: int := 3000

  datatype Session = Session(
    inProgress: bool,
    error: bool,
    index: int,           // local slot being parked, -1 when idle
    startTime: int,
    hitCount: int,        // consecutive ready polls with an unchanged counter
    lastCount: int,       // the last feed-assist counter seen
    countIncreased: bool) // the counter has changed to a positive value at least once

  /** A session is well formed when an active one has no error and names a local slot. */
  predicate Consistent(s: Session)
  {
    s.inProgress ==> !s.error && 0 <= s.index < 4
  }

  /** A status observation: whether the unit reported `ready`, its feed-assist counter, and when. */
  datatype Poll = Poll(ready: bool, count: int, now: int)

  function PollOf(result: Object, now: int): Poll
  {
    Poll(ReportsReady(result), AssistCount(result), now)
  }

  /** The observer that runs on every merged result while a session is active. */
  function Observe(s: Session, p: Poll): (r: Session)
    ensures !p.ready ==> r == s
    ensures p.ready && p.count != s.lastCount ==>
              r.lastCount == p.count && r.hitCount == 0 && r.inProgress == s.inProgress && !r.error == !s.error
    ensures p.ready && p.count == s.lastCount ==> r.hitCount == s.hitCount + 1 && r.lastCount == s.lastCount
    ensures r.countIncreased <==> s.countIncreased || (p.ready && p.count != s.lastCount && p.count > 0)
    ensures r.startTime == s.startTime
    ensures !r.inProgress && s.inProgress ==>
              r.error && r.index == -1 && p.now - s.startTime > StallTimeoutMs && !s.countIncreased
  {
    if !p.ready then s
    else if p.count != s.lastCount then
      s.(lastCount := p.count, hitCount := 0, countIncreased := s.countIncreased || p.count > 0)
    else
      var s' := s.(hitCount := s.hitCount + 1);
      if p.now - s.startTime > StallTimeoutMs && !s.countIncreased then
        s'.(error := true, inProgress := false, index := -1)
      else s'
  }

  /** Results keep arriving; the observer only runs while the session is active. */
  function ObserveAll(s: Session, polls: seq<Poll>): Session
    decreases |polls|
  {
    if polls == [] then s
    else ObserveAll(if s.inProgress then Observe(s, polls[0]) else s, polls[1..])
  }

  datatype Progress = Progress(completed: bool, error: bool, inProgress: bool)

  /** The `(completed, error, in_progress)` answer of a progress query. */
  function CheckProgress(s: Session, parkHitCount: int): (r: Progress)
    ensures !(r.completed && r.error) && !(r.completed && r.inProgress) && !(r.error && r.inProgress)
    ensures r.completed <==> s.inProgress && !s.error && s.hitCount >= parkHitCount && s.countIncreased
    ensures r.error <==> s.error
    ensures r.inProgress <==> s.inProgress && !s.error && !r.completed
  {
    if !s.inProgress then Progress(false, s.error, false)
    else if s.error then Progress(false, true, false)
    else if s.hitCount >= parkHitCount && s.countIncreased then Progress(true, false, false)
    else Progress(false, false, true)
  }

  /** Arming a traditional park of `localSlot`; the last counter is left as it was. */
  function Start(s: Session, localSlot: int, now: int): (r: Session)
    ensures r.inProgress && !r.error && r.index == localSlot && r.startTime == now
    ensures r.hitCount == 0 && !r.countIncreased && r.lastCount == s.lastCount
    ensures 0 <= localSlot < 4 ==> Consistent(r)
  {
    Session(true, false, localSlot, now, 0, s.lastCount, false)
  }

  /** Python's `x != 0` for the JSON values a `code` can hold. */
  predicate IsZero(j: Json)
  {
    j == JInt(0) || j == JFloat(0.0) || j == JBool(false)
  }

  /** The dictionary a callback receives for each kind of reply. */
  function ReplyObject(reply: Reply): Object
  {
    match reply
    case QueueOverflow => map["error" := JStr("Queue overflow")]
    case ConnectionLost => map["error" := JStr("Connection lost"), "code" := JInt(-100)]
    case NotConnected => map["error" := JStr("not connected"), "code" := JInt(-1)]
    case Response(m) => m
  }

  /**
   * The `start_feed_assist` callback: a non-zero `code` aborts the session;
   * otherwise the counter reported in the reply becomes the baseline. A
   * `result` that is present but not an object makes the callback fail before
   * it changes anything.
   */
  function OnStartReply(s: Session, reply: Object): (r: Session)
    ensures "code" in reply && !IsZero(reply["code"]) ==> r == s.(inProgress := false)
    ensures ("code" !in reply || IsZero(reply["code"])) && "result" !in reply ==> r == s.(lastCount := 0)
    ensures ("code" !in reply || IsZero(reply["code"])) && "result" in reply && reply["result"].JObject? ==>
              r == s.(lastCount := AssistCount(reply["result"].fields))
    ensures r.index == s.index && r.error == s.error && r.countIncreased == s.countIncreased
  {
    if "code" in reply && !IsZero(reply["code"]) then s.(inProgress := false)
    else if "result" !in reply then s.(lastCount := 0)
    else if reply["result"].JObject? then s.(lastCount := AssistCount(reply["result"].fields))
    else s
  }

  /** `complete_parking`: a no-op without an active session, otherwise back to idle without error. */
  function Complete(s: Session): (r: Session)
    ensures !s.inProgress ==> r == s
    ensures s.inProgress ==> !r.inProgress && !r.error && r.index == -1
    ensures Consistent(r) == Consistent(s) || s.inProgress
  {
    if !s.inProgress then s else s.(inProgress := false, error := false, index := -1)
  }

  /** The reset on disconnect: no active session, error set. */
  function Abort(s: Session): (r: Session)
    ensures !r.inProgress && r.error && Consistent(r)
  {
    s.(inProgress := false, error := true)
  }

  /** Every transition keeps an active session well formed. */
  lemma TransitionsKeepConsistency(s: Session, p: Poll, reply: Object)
    requires Consistent(s)
    ensures Consistent(Observe(s, p))
    ensures Consistent(OnStartReply(s, reply))
    ensures Consistent(Complete(s))
    ensures Consistent(Abort(s))
  {
  }

  lemma {:induction false} ObserveAllKeepsConsistency(s: Session, polls: seq<Poll>)
    requires Consistent(s)
    ensures Consistent(ObserveAll(s, polls))
    decreases |polls|
  {
    if polls != [] {
      var s' := if s.inProgress then Observe(s, polls[0]) else s;
      TransitionsKeepConsistency(s, polls[0], map[]);
      ObserveAllKeepsConsistency(s', polls[1..]);
    }
  }

  /** "Increased" is only ever set by a ready poll with a positive counter. */
  lemma {:induction false} IncreaseNeedsPositiveCount(s: Session, polls: seq<Poll>)
    ensures ObserveAll(s, polls).countIncreased ==>
              s.countIncreased || exists i :: 0 <= i < |polls| && polls[i].ready && polls[i].count > 0
    decreases |polls|
  {
    if polls != [] {
      var s' := if s.inProgress then Observe(s, polls[0]) else s;
      IncreaseNeedsPositiveCount(s', polls[1..]);
      if ObserveAll(s, polls).countIncreased && !s.countIncreased && !s'.countIncreased {
        var i :| 0 <= i < |polls[1..]| && polls[1..][i].ready && polls[1..][i].count > 0;
        assert polls[i + 1] == polls[1..][i];
      }
    }
  }

  /** Hence a session that never sees a positive counter never completes. */
  lemma NoCompletionWithoutPositiveCount(s: Session, polls: seq<Poll>, parkHitCount: int)
    requires !s.countIncreased
    requires forall i :: 0 <= i < |polls| ==> !polls[i].ready || polls[i].count <= 0
    ensures !CheckProgress(ObserveAll(s, polls), parkHitCount).completed
  {
    IncreaseNeedsPositiveCount(s, polls);
  }

  /** Ready polls with the counter unchanged from the session's baseline. */
  predicate Steady(s: Session, polls: seq<Poll>)
  {
    forall i :: 0 <= i < |polls| ==> polls[i].ready && polls[i].count == s.lastCount
  }

  /** After an increase, every steady poll adds one hit and nothing else changes. */
  lemma {:induction false} SteadyPollsCountHits(s: Session, polls: seq<Poll>)
    requires s.inProgress && !s.error && s.countIncreased && Steady(s, polls)
    ensures ObserveAll(s, polls) == s.(hitCount := s.hitCount + |polls|)
    decreases |polls|
  {
    if polls != [] {
      var s' := Observe(s, polls[0]);
      assert s' == s.(hitCount := s.hitCount + 1);
      assert Steady(s', polls[1..]) by {
        forall i | 0 <= i < |polls[1..]| ensures polls[1..][i].ready && polls[1..][i].count == s'.lastCount {
          assert polls[1..][i] == polls[i + 1];
        }
      }
      SteadyPollsCountHits(s', polls[1..]);
    }
  }

  /** Completion: once the counter has risen, `parkHitCount` steady polls complete the park. */
  lemma SteadyPollsComplete(s: Session, polls: seq<Poll>, parkHitCount: int)
    requires s.inProgress && !s.error && s.countIncreased && Steady(s, polls)
    requires s.hitCount + |polls| >= parkHitCount
    ensures CheckProgress(ObserveAll(s, polls), parkHitCount) == Progress(true, false, false)
  {
    SteadyPollsCountHits(s, polls);
  }

  /** Before an increase, a steady poll adds a hit until the deadline passes, which fails the session. */
  lemma {:induction false} SteadyPollsStall(s: Session, polls: seq<Poll>)
    requires s.inProgress && !s.error && !s.countIncreased && Steady(s, polls)
    requires exists i :: 0 <= i < |polls| && polls[i].now - s.startTime > StallTimeoutMs
    ensures var r := ObserveAll(s, polls); !r.inProgress && r.error && r.index == -1 && !r.countIncreased
    ensures CheckProgress(ObserveAll(s, polls), 0) == Progress(false, true, false)
    decreases |polls|
  {
    var s' := Observe(s, polls[0]);
    if polls[0].now - s.startTime > StallTimeoutMs {
      assert !s'.inProgress && s'.error && s'.index == -1;
      NotActiveIgnoresPolls(s', polls[1..]);
    } else {
      assert s' == s.(hitCount := s.hitCount + 1);
      var i :| 0 <= i < |polls| && polls[i].now - s.startTime > StallTimeoutMs;
      assert i > 0 && polls[1..][i - 1] == polls[i];
      assert Steady(s', polls[1..]) by {
        forall j | 0 <= j < |polls[1..]| ensures polls[1..][j].ready && polls[1..][j].count == s'.lastCount {
          assert polls[1..][j] == polls[j + 1];
        }
      }
      SteadyPollsStall(s', polls[1..]);
    }
  }

  /**
   * Ready polls whose counter changes every time (a strictly rising counter, say)
   * keep resetting the hit count: the session stays active and never completes
   * for a positive `parkHitCount`.
   */
  lemma {:induction false} ChangingCountsNeverComplete(s: Session, polls: seq<Poll>, parkHitCount: int)
    requires s.inProgress && !s.error && polls != []
    requires forall i :: 0 <= i < |polls| ==> polls[i].ready
    requires polls[0].count != s.lastCount
    requires forall i :: 0 < i < |polls| ==> polls[i].count != polls[i - 1].count
    requires parkHitCount > 0
    ensures var r := ObserveAll(s, polls);
            r.inProgress && !r.error && r.hitCount == 0 && r.lastCount == polls[|polls| - 1].count
    ensures CheckProgress(ObserveAll(s, polls), parkHitCount) == Progress(false, false, true)
    decreases |polls|
  {
    var s' := Observe(s, polls[0]);
    var rest := polls[1..];
    if rest != [] {
      assert rest[0] == polls[1];
      forall i | 0 < i < |rest|
        ensures rest[i].count != rest[i - 1].count
      {
        assert rest[i] == polls[i + 1] && rest[i - 1] == polls[i];
      }
      ChangingCountsNeverComplete(s', rest, parkHitCount);
      assert rest[|rest| - 1] == polls[|polls| - 1];
    }
  }

  /** An inactive session ignores every poll. */
  lemma {:induction false} NotActiveIgnoresPolls(s: Session, polls: seq<Poll>)
    requires !s.inProgress
    ensures ObserveAll(s, polls) == s
    decreases |polls|
  {
    if polls != [] {
      NotActiveIgnoresPolls(s, polls[1..]);
    }
  }

  /**
   * A start reply that already reports counter `c`, followed by polls that all
   * report `c`, never sets "increased": the park cannot complete and fails once
   * a poll arrives after the deadline.
   */
  lemma StartReplyBaselineStalls(s: Session, localSlot: int, now: int, c: int, polls: seq<Poll>, parkHitCount: int)
    requires 0 <= localSlot < 4
    requires forall i :: 0 <= i < |polls| ==> polls[i].ready && polls[i].count == c
    requires exists i :: 0 <= i < |polls| && polls[i].now - now > StallTimeoutMs
    ensures var armed := OnStartReply(Start(s, localSlot, now), map["result" := JObject(map["feed_assist_count" := JInt(c)])]);
            CheckProgress(ObserveAll(armed, polls), parkHitCount) == Progress(false, true, false)
  {
    var armed := OnStartReply(Start(s, localSlot, now), map["result" := JObject(map["feed_assist_count" := JInt(c)])]);
    StartReplySetsBaseline(s, localSlot, now, c);
    SteadyPollsStall(armed, polls);
  }

  /** A start reply reporting counter `c` arms a fresh session with `c` as its baseline. */
  lemma StartReplySetsBaseline(s: Session, localSlot: int, now: int, c: int)
    ensures OnStartReply(Start(s, localSlot, now), map["result" := JObject(map["feed_assist_count" := JInt(c)])])
            == Session(true, false, localSlot, now, 0, c, false)
  {
    var fields: Object := map["feed_assist_count" := JInt(c)];
    var reply: Object := map["result" := JObject(fields)];
    assert "code" !in reply && "result" in reply && reply["result"] == JObject(fields);
    assert AssistCount(fields) == c;
  }
}
