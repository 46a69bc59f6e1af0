/**
 * One ACE unit's link (`ACEDevice`): the outbound request queue, the table of
 * callbacks waiting for a reply, the device-info snapshot, the read buffer and
 * the embedded parking session. The serial port, the reactor's timers and JSON
 * text are outside the model; the loops' single steps are methods.
 */
module Device {
  import opened Wrappers
  import opened Crc16
  import opened Frame
  import opened Protocol
  import opened Parking
  import opened Sets

  /** Request ids run through 0 .. IdLimit - 1. */
  const IdLimit: int := 300000

  /** `_get_next_request_id` on the counter's previous value. */
  function NextRequestId(prev: int): (r: int)
    ensures -1 <= prev < IdLimit ==> 0 <= r < IdLimit && r == (prev + 1) % IdLimit
  {
    if prev + 1 >= IdLimit then 0 else prev + 1
  }

  /** The counter after `k` more ids were drawn. */
  function IdAfter(prev: int, k: nat): int
  {
    if k == 0 then prev else NextRequestId(IdAfter(prev, k - 1))
  }

  /** One more id on the counter's residue: the residue steps by one and wraps to 0. */
  lemma ResidueStep(a: nat)
    ensures (a + 1) % IdLimit == NextRequestId(a % IdLimit)
  {
    var q, r := a / IdLimit, a % IdLimit;
    assert a == q * IdLimit + r;
    if r + 1 == IdLimit {
      assert a + 1 == (q + 1) * IdLimit;
    } else {
      assert a + 1 == q * IdLimit + (r + 1);
    }
  }

  lemma {:induction false} IdsCycle(prev: int, k: nat)
    requires 0 <= prev < IdLimit
    ensures IdAfter(prev, k) == (prev + k) % IdLimit
  {
    if k > 0 {
      IdsCycle(prev, k - 1);
      ResidueStep(prev + k - 1);
    }
  }

  /** Any `IdLimit` consecutive ids are pairwise different. */
  lemma IdsDistinct(prev: int, i: nat, j: nat)
    requires 0 <= prev < IdLimit && i < j < i + IdLimit
    ensures IdAfter(prev, i) != IdAfter(prev, j)
  {
    IdsCycle(prev, i);
    IdsCycle(prev, j);
  }

  /** The snapshot a unit starts from: `_get_default_info`. */
  function DefaultInfo(): (r: Object)
    ensures "status" in r && r["status"] == JStr("disconnected")
    ensures "feed_assist_count" in r && r["feed_assist_count"] == JInt(0)
    ensures "slots" in r && r["slots"].JList? && |r["slots"].items| == 4
  {
    var slot := (i: int) => JObject(map["index" := JInt(i), "status" := JStr("empty"), "sku" := JStr(""),
                                        "type" := JStr(""), "color" := JList([JInt(0), JInt(0), JInt(0)])]);
    map[
      "status" := JStr("disconnected"),
      "dryer" := JObject(map["status" := JStr("stop"), "target_temp" := JInt(0), "duration" := JInt(0), "remain_time" := JInt(0)]),
      "temp" := JInt(0),
      "enable_rfid" := JInt(1),
      "fan_speed" := JInt(7000),
      "feed_assist_count" := JInt(0),
      "cont_assist_time" := JFloat(0.0),
      "slots" := JList([slot(0), slot(1), slot(2), slot(3)])]
  }

  /** No invocation is logged twice. */
  predicate Distinct(s: seq<Invocation>)
  {
    forall i, j :: 0 <= i < j < |s| ==> s[i] != s[j]
  }

  /**
   * How `_clear_pending_operations` extends the log: the queued entries' callbacks
   * in queue order, then every pending callback exactly once, in some order.
   */
  ghost predicate FailedPending(log: seq<Invocation>, log': seq<Invocation>, q: seq<Entry>, m: map<int, Callback>)
  {
    var n := |log| + |Notices(q, ConnectionLost)|;
    n <= |log'| && log'[..n] == log + Notices(q, ConnectionLost) &&
    Distinct(log'[n..]) && (forall x :: x in log'[n..] <==> PendingNotice(m, ConnectionLost, x))
  }

  /** What a single write-loop step found when it handed a request to the serial port. */
  datatype Transmission =
    | Sent          // written to the port
    | NotEncodable  // `json.dumps` failed; the port is untouched
    | LinkFailed    // the write raised: the link is reconnected, which first disconnects

  const StartFeedAssistCallback: Callback := Cb("start_feed_assist")
  const StopFeedAssistCallback: Callback := Cb("stop_feed_assist")
  const StatusCallback: Callback := Cb("status")

  /**
   * What one callback call does to the parking session. Only the
   * `start_feed_assist` callback of a park touches it; the status callback's
   * `update` is repeated by the merge that follows it (`StatusCallbackAbsorbed`)
   * and the stop callback does nothing.
   */
  function Effect(s: Session, x: Invocation): Session
  {
    if x.callback == StartFeedAssistCallback.name then OnStartReply(s, ReplyObject(x.reply)) else s
  }

  /** The session after the calls of `log`, first call first. */
  function Effects(s: Session, log: seq<Invocation>): Session
    decreases |log|
  {
    if log == [] then s else Effects(Effect(s, log[0]), log[1..])
  }

  lemma {:induction false} EffectsAppend(s: Session, a: seq<Invocation>, b: seq<Invocation>)
    ensures Effects(s, a + b) == Effects(Effects(s, a), b)
    decreases |a|
  {
    if a == [] {
      assert a + b == b;
    } else {
      assert (a + b)[0] == a[0];
      assert (a + b)[1..] == a[1..] + b;
      EffectsAppend(Effect(s, a[0]), a[1..], b);
    }
  }

  /** The calls of a log whose first call is `x`. */
  lemma EffectsCons(s: Session, x: Invocation, rest: seq<Invocation>)
    ensures Effects(s, [x] + rest) == Effects(Effect(s, x), rest)
  {
    assert ([x] + rest)[0] == x;
    assert ([x] + rest)[1..] == rest;
  }

  /** Failing a non-empty queue is failing its head, then the rest. */
  lemma FailStep(q: seq<Entry>, reply: Reply, log: seq<Invocation>, s: Session)
    requires q != []
    ensures var head := if q[0].callback.Cb? then [Notice(q[0], reply)] else [];
            var rest := Notices(q[1..], reply);
            log + Notices(q, reply) == (log + head) + rest &&
            Effects(s, Notices(q, reply)) ==
              Effects(if q[0].callback.Cb? then Effect(s, Notice(q[0], reply)) else s, rest)
  {
    var rest := Notices(q[1..], reply);
    var all := Notices(q, reply);
    if q[0].callback.Cb? {
      var x := Notice(q[0], reply);
      assert all == [x] + rest;
      assert log + all == (log + [x]) + rest;
      EffectsCons(s, x, rest);
    } else {
      assert all == [] + rest == rest;
      assert log + all == (log + []) + rest;
    }
  }

  /** `send_request`'s new queue: on overflow only the new entry, otherwise the old queue with it appended. */
  function Enqueue(maxSize: int, q: seq<Entry>, e: Entry): (r: seq<Entry>)
    ensures r != [] && r[|r| - 1] == e
    ensures |q| < maxSize ==> r[..|r| - 1] == q
  {
    if |q| >= maxSize then [e] else q + [e]
  }

  /** The calls `send_request` makes before queueing: every queued callback fails with "Queue overflow" when the queue is full. */
  function Overflowed(maxSize: int, q: seq<Entry>): seq<Invocation>
  {
    if |q| >= maxSize then Notices(q, QueueOverflow) else []
  }

  /** Some entry of `q` waits with the `start_feed_assist` callback of a park. */
  predicate HasStart(q: seq<Entry>)
  {
    exists i :: 0 <= i < |q| && q[i].callback == StartFeedAssistCallback
  }

  lemma HasStartCons(q: seq<Entry>)
    requires q != []
    ensures HasStart(q) <==> q[0].callback == StartFeedAssistCallback || HasStart(q[1..])
  {
    if HasStart(q) && q[0].callback != StartFeedAssistCallback {
      var i :| 0 <= i < |q| && q[i].callback == StartFeedAssistCallback;
      assert q[1..][i - 1] == q[i];
    }
    if HasStart(q[1..]) {
      var j :| 0 <= j < |q[1..]| && q[1..][j].callback == StartFeedAssistCallback;
      assert q[j + 1] == q[1..][j];
    }
  }

  /**
   * Failing a queue on overflow: a queued `start_feed_assist` callback reads the
   * error reply's missing `result` as a counter of 0, so the session's baseline
   * drops to 0 exactly when such a callback was queued, and nothing else changes.
   */
  lemma {:induction false} OverflowResetsBaseline(s: Session, q: seq<Entry>)
    ensures Effects(s, Notices(q, QueueOverflow)) == if HasStart(q) then s.(lastCount := 0) else s
    decreases |q|
  {
    if q != [] {
      FailStep(q, QueueOverflow, [], s);
      HasStartCons(q);
      var s' := if q[0].callback.Cb? then Effect(s, Notice(q[0], QueueOverflow)) else s;
      assert s' == if q[0].callback == StartFeedAssistCallback then s.(lastCount := 0) else s;
      OverflowResetsBaseline(s', q[1..]);
    }
  }

  /** A call answered with "Connection lost" changes nothing that the abort which follows it keeps. */
  lemma LostCallThenAbort(s: Session, x: Invocation)
    requires x.reply == ConnectionLost
    ensures Abort(Effect(s, x)) == Abort(s)
  {
  }

  /** The callbacks failed on a disconnect change nothing that the abort which follows them keeps. */
  lemma {:induction false} LostCallsThenAbort(s: Session, log: seq<Invocation>)
    requires forall x :: x in log ==> x.reply == ConnectionLost
    ensures Abort(Effects(s, log)) == Abort(s)
    decreases |log|
  {
    if log != [] {
      assert log[0] in log;
      forall x | x in log[1..]
        ensures x.reply == ConnectionLost
      {
        assert x in log;
      }
      LostCallsThenAbort(Effect(s, log[0]), log[1..]);
      LostCallThenAbort(s, log[0]);
    }
  }

  /** The call a response makes: the callback waiting under the response's id, when there is one and it is not `None`. */
  function Answered(m: map<int, Callback>, message: Object): (r: seq<Invocation>)
    ensures |r| <= 1
    ensures r != [] ==> ResponseId(message).Some? && r[0].id == ResponseId(message) && r[0].reply == Response(message)
  {
    var rid := ResponseId(message);
    if rid.Some? && rid.value in m && m[rid.value].Cb? then [Invocation(rid, m[rid.value].name, Response(message))] else []
  }

  /**
   * The reply to a park's `start_feed_assist` request, carrying a counter, makes
   * that counter the session's baseline before the result is observed.
   */
  lemma StartReplyAnswered(s: Session, m: map<int, Callback>, id: int, result: Object, c: int)
    requires id in m && m[id] == StartFeedAssistCallback
    requires result == map["feed_assist_count" := JInt(c)]
    ensures Effects(s, Answered(m, map["id" := JInt(id), "result" := JObject(result)])) == s.(lastCount := c)
  {
    var message := map["id" := JInt(id), "result" := JObject(result)];
    var x := Invocation(Some(id), "start_feed_assist", Response(message));
    assert Answered(m, message) == [x];
    assert [x][1..] == [];
  }

  /** The status callback's `update` of the snapshot is overwritten by the merge of the normalised result that follows it. */
  lemma StatusCallbackAbsorbed(info: Object, result: Object)
    ensures MergeInfo(MergeInfo(info, result), NormaliseResult(result)) == MergeInfo(info, NormaliseResult(result))
  {
  }

  class AceDevice {
    const deviceId: int
    const maxQueueSize: int
    var connected: bool
    var requestId: int
    var queue: seq<Entry>
    var callbackMap: map<int, Callback>
    var info: Object
    var readBuffer: seq<byte>
    var park: Session
    var feedAssistIndex: int
    var dwellScheduled: bool
    /** Every callback invocation so far, in the order they happened. */
    var invocations: seq<Invocation>

    /** The queue never holds more than this many entries (a non-positive maximum empties it on every send). */
    function QueueBound(): int
    {
      if maxQueueSize < 1 then 1 else maxQueueSize
    }

    ghost predicate Valid()
      reads this
    {
      0 <= requestId < IdLimit && |queue| <= QueueBound() &&
      (forall i :: 0 <= i < |queue| ==> 0 <= queue[i].request.id < IdLimit) &&
      (forall k :: k in callbackMap ==> 0 <= k < IdLimit)
    }

    constructor (deviceId: int, maxQueueSize: int)
      ensures this.deviceId == deviceId && this.maxQueueSize == maxQueueSize
      ensures !connected && requestId == 0 && queue == [] && callbackMap == map[] && readBuffer == []
      ensures info == DefaultInfo() && invocations == []
      ensures park == Session(false, false, -1, 0, 0, 0, false) && Consistent(park)
      ensures feedAssistIndex == -1 && !dwellScheduled
      ensures Valid()
    {
      this.deviceId := deviceId;
      this.maxQueueSize := maxQueueSize;
      connected := false;
      requestId := 0;
      queue := [];
      callbackMap := map[];
      info := DefaultInfo();
      readBuffer := [];
      park := Session(false, false, -1, 0, 0, 0, false);
      feedAssistIndex := -1;
      dwellScheduled := false;
      invocations := [];
    }

    /** `_get_next_request_id` */
    method GetNextRequestId() returns (id: int)
      requires Valid()
      modifies this`requestId
      ensures id == requestId == NextRequestId(old(requestId))
      ensures 0 <= id < IdLimit && Valid()
    {
      requestId := requestId + 1;
      if requestId >= IdLimit {
        requestId := 0;
      }
      id := requestId;
    }

    /**
     * Calls the callback `name` with `reply`: the call is logged, and the
     * `start_feed_assist` callback of a park updates the session.
     */
    method Call(id: Option<int>, name: string, reply: Reply)
      modifies this`invocations, this`park
      ensures invocations == old(invocations) + [Invocation(id, name, reply)]
      ensures park == Effect(old(park), Invocation(id, name, reply))
    {
      invocations := invocations + [Invocation(id, name, reply)];
      if name == StartFeedAssistCallback.name {
        OnStartFeedAssistReply(reply);
      }
    }

    /** Empties the queue, calling each entry's callback with `reply` in queue order. */
    method FailQueued(reply: Reply)
      modifies this`queue, this`invocations, this`park
      ensures queue == [] && invocations == old(invocations) + Notices(old(queue), reply)
      ensures park == Effects(old(park), Notices(old(queue), reply))
    {
      while queue != []
        invariant old(invocations) + Notices(old(queue), reply) == invocations + Notices(queue, reply)
        invariant Effects(old(park), Notices(old(queue), reply)) == Effects(park, Notices(queue, reply))
        decreases |queue|
      {
        FailStep(queue, reply, invocations, park);
        var e := queue[0];
        queue := queue[1..];
        if e.callback.Cb? {
          Call(Some(e.request.id), e.callback.name, reply);
        }
      }
    }

    /** `send_request`: on overflow every queued callback is failed first; the new request is always queued. */
    method SendRequest(name: string, params: Object, callback: Callback)
      requires Valid()
      modifies this`queue, this`requestId, this`invocations, this`park
      ensures Valid()
      ensures requestId == NextRequestId(old(requestId))
      ensures queue == Enqueue(maxQueueSize, old(queue), Entry(Request(name, params, requestId), callback))
      ensures invocations == old(invocations) + Overflowed(maxQueueSize, old(queue))
      ensures park == Effects(old(park), Overflowed(maxQueueSize, old(queue)))
    {
      if |queue| >= maxQueueSize {
        FailQueued(QueueOverflow);
      }
      var id := GetNextRequestId();
      queue := queue + [Entry(Request(name, params, id), callback)];
    }

    /** `send_request_safe`: refuses, and tells the callback, when the link is down. */
    method SendRequestSafe(name: string, params: Object, callback: Callback) returns (accepted: bool)
      requires Valid()
      modifies this`queue, this`requestId, this`invocations, this`park
      ensures Valid()
      ensures accepted == old(connected)
      ensures !accepted ==>
                var refused := if callback.Cb? then [Invocation(None, callback.name, NotConnected)] else [];
                queue == old(queue) && requestId == old(requestId) &&
                invocations == old(invocations) + refused && park == Effects(old(park), refused)
      ensures accepted ==>
                requestId == NextRequestId(old(requestId)) &&
                queue == Enqueue(maxQueueSize, old(queue), Entry(Request(name, params, requestId), callback)) &&
                invocations == old(invocations) + Overflowed(maxQueueSize, old(queue)) &&
                park == Effects(old(park), Overflowed(maxQueueSize, old(queue)))
    {
      if !connected {
        if callback.Cb? {
          ghost var x := Invocation(None, callback.name, NotConnected);
          assert [x][1..] == [];
          Call(None, callback.name, NotConnected);
        }
        return false;
      }
      SendRequest(name, params, callback);
      return true;
    }

    /**
     * `_request_status` once its cadence test has passed: an id is drawn for the
     * request's own `id` key and then overwritten by `send_request`, so every
     * status poll uses up two ids.
     */
    method RequestStatus()
      requires Valid()
      modifies this`queue, this`requestId, this`invocations, this`park
      ensures Valid()
      ensures requestId == NextRequestId(NextRequestId(old(requestId)))
      ensures queue == Enqueue(maxQueueSize, old(queue), Entry(Request("get_status", map[], requestId), StatusCallback))
      ensures invocations == old(invocations) + Overflowed(maxQueueSize, old(queue))
      ensures park == Effects(old(park), Overflowed(maxQueueSize, old(queue)))
    {
      var overwritten := GetNextRequestId();
      SendRequest("get_status", map[], StatusCallback);
    }

    /** `_clear_pending_operations`: every waiting callback is failed once; the parking session is aborted. */
    method ClearPendingOperations()
      requires Valid()
      modifies this`queue, this`callbackMap, this`invocations, this`park, this`feedAssistIndex
      ensures Valid()
      ensures queue == [] && callbackMap == map[]
      ensures FailedPending(old(invocations), invocations, old(queue), old(callbackMap))
      ensures park == Abort(old(park)) && feedAssistIndex == -1
    {
      FailQueued(ConnectionLost);
      LostCallsThenAbort(old(park), Notices(old(queue), ConnectionLost));
      var n := |invocations|;
      var remaining := callbackMap.Keys;
      while remaining != {}
        modifies this`invocations, this`park
        invariant Abort(park) == Abort(old(park))
        invariant remaining <= callbackMap.Keys
        invariant n <= |invocations| && invocations[..n] == old(invocations) + Notices(old(queue), ConnectionLost)
        invariant Distinct(invocations[n..])
        invariant forall x :: x in invocations[n..] <==>
                    PendingNotice(callbackMap, ConnectionLost, x) && x.id.value !in remaining
        decreases |remaining|
      {
        HasElement(remaining);
        var k :| k in remaining;
        ghost var before := invocations;
        if callbackMap[k].Cb? {
          LostCallThenAbort(park, Invocation(Some(k), callbackMap[k].name, ConnectionLost));
          Call(Some(k), callbackMap[k].name, ConnectionLost);
          assert invocations[n..] == before[n..] + [Invocation(Some(k), callbackMap[k].name, ConnectionLost)];
        }
        remaining := remaining - {k};
      }
      callbackMap := map[];
      park := Abort(park);
      feedAssistIndex := -1;
    }

    /** `disconnect`: only a connected link does anything. */
    method Disconnect()
      requires Valid()
      modifies this`connected, this`info, this`queue, this`callbackMap, this`invocations, this`park, this`feedAssistIndex
      ensures Valid()
      ensures !old(connected) ==> unchanged(this)
      ensures old(connected) ==>
                !connected && info == old(info)["status" := JStr("disconnected")] &&
                queue == [] && callbackMap == map[] &&
                FailedPending(old(invocations), invocations, old(queue), old(callbackMap)) &&
                park == Abort(old(park)) && feedAssistIndex == -1
    {
      if !connected {
        return;
      }
      connected := false;
      info := info["status" := JStr("disconnected")];
      ClearPendingOperations();
    }

    /**
     * One dequeue step of `_writer_loop`: the head request moves into the callback
     * table and is handed to the port; a failed hand-over puts it back at the tail.
     */
    method WriterStep(t: Transmission)
      requires Valid()
      modifies this`connected, this`info, this`queue, this`callbackMap, this`invocations, this`park, this`feedAssistIndex
      ensures Valid()
      ensures !old(connected) || old(queue) == [] ==> unchanged(this)
      ensures old(connected) && old(queue) != [] && !t.LinkFailed? ==>
                connected && info == old(info) && invocations == old(invocations) &&
                park == old(park) && feedAssistIndex == old(feedAssistIndex)
      ensures old(connected) && old(queue) != [] && t.Sent? ==>
                var task := old(queue)[0];
                queue == old(queue)[1..] && callbackMap == old(callbackMap)[task.request.id := task.callback]
      ensures old(connected) && old(queue) != [] && t.NotEncodable? ==>
                var task := old(queue)[0];
                queue == old(queue)[1..] + [task] && callbackMap == old(callbackMap)[task.request.id := task.callback]
      ensures old(connected) && old(queue) != [] && t.LinkFailed? ==>
                var task := old(queue)[0];
                !connected && info == old(info)["status" := JStr("disconnected")] && feedAssistIndex == -1 &&
                queue == [task] && callbackMap == map[] &&
                FailedPending(old(invocations), invocations, old(queue)[1..], old(callbackMap)[task.request.id := task.callback]) &&
                (task.callback.Cb? ==> Invocation(Some(task.request.id), task.callback.name, ConnectionLost) in invocations) &&
                park == Abort(old(park))
    {
      if !connected || queue == [] {
        return;
      }
      var task := queue[0];
      queue := queue[1..];
      callbackMap := callbackMap[task.request.id := task.callback];
      match t
      case Sent =>
      case NotEncodable =>
        queue := queue + [task];
      case LinkFailed =>
        ghost var before := invocations;
        Disconnect();
        queue := queue + [task];
        if task.callback.Cb? {
          ghost var n := |before| + |Notices(old(queue)[1..], ConnectionLost)|;
          assert PendingNotice(old(callbackMap)[task.request.id := task.callback], ConnectionLost,
                               Invocation(Some(task.request.id), task.callback.name, ConnectionLost));
          assert Invocation(Some(task.request.id), task.callback.name, ConnectionLost) in invocations[n..];
        }
    }

    /**
     * One call of `_process_messages`: cuts candidates off the read buffer, hands
     * on every good payload in order, and counts the "too many incomplete
     * messages" reconnects. The counter of consecutive incomplete candidates is
     * local to the call.
     */
    method ProcessMessages() returns (payloads: seq<seq<byte>>, resets: nat)
      modifies this`readBuffer
      ensures Decode(old(readBuffer), 0) == Outcome(payloads, readBuffer, resets)
    {
      var incomplete: nat := 0;
      payloads, resets := [], 0;
      while readBuffer != []
        invariant incomplete <= MaxIncomplete
        invariant Decode(old(readBuffer), 0) == Account(payloads, resets, readBuffer, incomplete)
        decreases |readBuffer|
      {
        var cut := TakeCandidate(readBuffer);
        if cut.None? {
          break;
        }
        var candidate := CheckCandidate(cut.value.msg);
        if candidate.BadCrc? {
          AccountBadCrc(payloads, resets, readBuffer, incomplete);
          readBuffer := cut.value.rest;
          return;
        }
        AccountStep(payloads, resets, readBuffer, incomplete);
        payloads, resets, incomplete := Tally(candidate, payloads, resets, incomplete);
        readBuffer := cut.value.rest;
      }
      AccountDone(payloads, resets, readBuffer, incomplete);
    }

    /** `_reader_loop` after a read: the bytes are appended and the buffer is processed. */
    method OnBytesReceived(raw: seq<byte>) returns (payloads: seq<seq<byte>>, resets: nat)
      modifies this`readBuffer
      ensures raw == [] ==> readBuffer == old(readBuffer) && payloads == [] && resets == 0
      ensures raw != [] ==> Decode(old(readBuffer) + raw, 0) == Outcome(payloads, readBuffer, resets)
    {
      if raw == [] {
        return [], 0;
      }
      readBuffer := readBuffer + raw;
      payloads, resets := ProcessMessages();
    }

    /**
     * `_handle_response`: the waiting callback, if any, is popped and called; a
     * `result` object is normalised, merged into the snapshot and, during a park,
     * observed.
     */
    method HandleResponse(message: Object, now: int)
      requires Valid()
      modifies this`callbackMap, this`invocations, this`info, this`park
      ensures Valid()
      ensures ResponseId(message).None? ==> callbackMap == old(callbackMap)
      ensures ResponseId(message).Some? ==>
                var id := ResponseId(message).value;
                id !in callbackMap && callbackMap == old(callbackMap) - {id}
      ensures invocations == old(invocations) + Answered(old(callbackMap), message)
      ensures var called := Effects(old(park), Answered(old(callbackMap), message));
              if ResponseResult(message).None? then info == old(info) && park == called
              else
                var result := NormaliseResult(ResponseResult(message).value);
                info == MergeInfo(old(info), result) &&
                park == (if called.inProgress then Observe(called, PollOf(result, now)) else called)
    {
      AnswerCallback(message);
      var res := ResponseResult(message);
      if res.Some? {
        var result := NormaliseResult(res.value);
        info := MergeInfo(info, result);
        if park.inProgress {
          HandleParkingResponse(result, now);
        }
      }
    }

    /** The first part of `_handle_response`: the callback waiting under the response's id is popped and called. */
    method AnswerCallback(message: Object)
      requires Valid()
      modifies this`callbackMap, this`invocations, this`park
      ensures Valid()
      ensures ResponseId(message).None? ==> callbackMap == old(callbackMap)
      ensures ResponseId(message).Some? ==>
                var id := ResponseId(message).value;
                id !in callbackMap && callbackMap == old(callbackMap) - {id}
      ensures invocations == old(invocations) + Answered(old(callbackMap), message)
      ensures park == Effects(old(park), Answered(old(callbackMap), message))
    {
      var rid := ResponseId(message);
      if rid.Some? {
        var id := rid.value;
        if id in callbackMap {
          var callback := callbackMap[id];
          callbackMap := callbackMap - {id};
          if callback.Cb? {
            ghost var x := Invocation(Some(id), callback.name, Response(message));
            assert [x][1..] == [];
            Call(Some(id), callback.name, Response(message));
          }
        }
      }
    }

    /** `_handle_parking_response` */
    method HandleParkingResponse(result: Object, now: int)
      modifies this`park
      ensures park == Observe(old(park), PollOf(result, now))
    {
      var ready := ReportsReady(result);
      var count := AssistCount(result);
      if ready {
        if count != park.lastCount {
          park := park.(lastCount := count, hitCount := 0);
          if count > 0 {
            park := park.(countIncreased := true);
          }
        } else {
          park := park.(hitCount := park.hitCount + 1);
          if now - park.startTime > StallTimeoutMs && !park.countIncreased {
            park := park.(error := true, inProgress := false, index := -1);
            return;
          }
        }
      }
    }

    /** `check_parking_progress`: while the park is still running, a grace dwell is armed once. */
    method CheckParkingProgress(parkHitCount: int) returns (p: Progress)
      modifies this`dwellScheduled
      ensures p == CheckProgress(park, parkHitCount)
      ensures dwellScheduled == (old(dwellScheduled) || p.inProgress)
    {
      if !park.inProgress {
        return Progress(false, park.error, false);
      }
      if park.error {
        return Progress(false, true, false);
      }
      if park.hitCount >= parkHitCount && park.countIncreased {
        return Progress(true, false, false);
      }
      if !dwellScheduled {
        dwellScheduled := true;
      }
      return Progress(false, false, true);
    }

    /** The grace dwell's timer firing clears the flag. */
    method OnDwellElapsed()
      modifies this`dwellScheduled
      ensures !dwellScheduled
    {
      dwellScheduled := false;
    }

    /** `complete_parking`: stops feed assist for the parked slot and returns the session to idle. */
    method CompleteParking(disableAssistAfterToolchange: bool)
      requires Valid()
      modifies this`queue, this`requestId, this`invocations, this`park, this`feedAssistIndex
      ensures Valid()
      ensures !old(park).inProgress ==> unchanged(this)
      ensures old(park).inProgress ==>
                var stop := Entry(Request("stop_feed_assist", map["index" := JInt(old(park).index)], requestId), StopFeedAssistCallback);
                var failed := Overflowed(maxQueueSize, old(queue));
                requestId == NextRequestId(old(requestId)) && queue == Enqueue(maxQueueSize, old(queue), stop) &&
                invocations == old(invocations) + failed && park == Complete(Effects(old(park), failed)) &&
                feedAssistIndex == (if disableAssistAfterToolchange then -1 else old(feedAssistIndex))
    {
      if !park.inProgress {
        return;
      }
      SendRequest("stop_feed_assist", map["index" := JInt(park.index)], StopFeedAssistCallback);
      park := Complete(park);
      if disableAssistAfterToolchange {
        feedAssistIndex := -1;
      }
    }

    /** The traditional branch of `_park_to_toolhead`: arm the session, then ask for feed assist. */
    method StartParking(localSlot: int, now: int)
      requires Valid()
      modifies this`queue, this`requestId, this`invocations, this`park
      ensures Valid()
      ensures requestId == NextRequestId(old(requestId))
      ensures queue == Enqueue(maxQueueSize, old(queue),
                               Entry(Request("start_feed_assist", map["index" := JInt(localSlot)], requestId), StartFeedAssistCallback))
      ensures invocations == old(invocations) + Overflowed(maxQueueSize, old(queue))
      ensures park == Effects(Start(old(park), localSlot, now), Overflowed(maxQueueSize, old(queue)))
    {
      park := Start(park, localSlot, now);
      SendRequest("start_feed_assist", map["index" := JInt(localSlot)], StartFeedAssistCallback);
    }

    /** The `start_feed_assist` callback of `_park_to_toolhead`, run with whatever the link called it with. */
    method OnStartFeedAssistReply(reply: Reply)
      modifies this`park
      ensures park == OnStartReply(old(park), ReplyObject(reply))
    {
      var response := ReplyObject(reply);
      if "code" in response && !IsZero(response["code"]) {
        park := park.(inProgress := false);
      } else if "result" !in response {
        park := park.(lastCount := 0);
      } else if response["result"].JObject? {
        park := park.(lastCount := AssistCount(response["result"].fields));
      }
    }
  }
}
