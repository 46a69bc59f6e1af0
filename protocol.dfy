/**
 * The JSON-level vocabulary of the ACE link: decoded messages, requests, the
 * callbacks that wait for replies, and the record of callback invocations.
 * JSON text itself is not modelled; a decoded object is a map from keys to values.
 */
module Protocol {
  import opened Wrappers

  datatype Json =
    | JNull
    | JBool(b: bool)
    | JInt(i: int)
    | JFloat(f: real)
    | JStr(s: string)
    | JList(items: seq<Json>)
    | JObject(fields: map<string, Json>)

  type Object = map<string, Json>

  /** A request as queued: method name, parameters, and the id stamped by `send_request`. */
  datatype Request = Request(name: string, params: Object, id: int)

  /**
   * A callback is opaque: only its identity matters to the link. `NoCallback` is
   * Python's `None`, which the link skips (or, where it calls it anyway, fails
   * harmlessly inside a `try`).
   */
  datatype Callback = NoCallback | Cb(name: string)

  /** A queued request with the callback that waits for its reply. */
  datatype Entry = Entry(request: Request, callback: Callback)

  /** What a callback is called with. */
  datatype Reply =
    | QueueOverflow              // {'error': 'Queue overflow'}
    | ConnectionLost             // {'error': 'Connection lost', 'code': -100}
    | NotConnected               // {'error': 'Device N not connected', 'code': -1}
    | Response(message: Object)  // the decoded response, as received

  /**
   * One call of a callback: the id of the request it belonged to (`None` when the
   * request was refused before an id was stamped), which callback, and with what.
   */
  datatype Invocation = Invocation(id: Option<int>, callback: string, reply: Reply)

  /** The invocations that failing `entries` with `reply` makes, in queue order; `None` callbacks are skipped. */
  function Notices(entries: seq<Entry>, reply: Reply): (r: seq<Invocation>)
    ensures |r| <= |entries|
    ensures forall x :: x in r ==> x.reply == reply
    ensures forall i :: 0 <= i < |entries| && entries[i].callback.Cb? ==> Notice(entries[i], reply) in r
  {
    if entries == [] then []
    else
      var e := entries[0];
      (if e.callback.Cb? then [Notice(e, reply)] else []) + Notices(entries[1..], reply)
  }

  /** The invocation that failing entry `e` with `reply` makes. */
  function Notice(e: Entry, reply: Reply): Invocation
    requires e.callback.Cb?
  {
    Invocation(Some(e.request.id), e.callback.name, reply)
  }

  /** Every invocation made by failing `entries` is the one of some entry with a callback. */
  lemma {:induction false} NoticesComeFromEntries(entries: seq<Entry>, reply: Reply)
    ensures forall x :: x in Notices(entries, reply) ==>
              exists i :: 0 <= i < |entries| && entries[i].callback.Cb? && x == Notice(entries[i], reply)
    decreases |entries|
  {
    if entries != [] {
      var tail := entries[1..];
      NoticesComeFromEntries(tail, reply);
      forall x | x in Notices(entries, reply)
        ensures exists i :: 0 <= i < |entries| && entries[i].callback.Cb? && x == Notice(entries[i], reply)
      {
        if x !in Notices(tail, reply) {
          assert entries[0].callback.Cb? && x == Notice(entries[0], reply);
        } else {
          var j :| 0 <= j < |tail| && tail[j].callback.Cb? && x == Notice(tail[j], reply);
          assert entries[j + 1] == tail[j];
        }
      }
    }
  }

  /** When every entry has a callback, failing them makes exactly one invocation per entry, in queue order. */
  lemma {:induction false} NoticesOnePerEntry(entries: seq<Entry>, reply: Reply)
    requires forall i :: 0 <= i < |entries| ==> entries[i].callback.Cb?
    ensures |Notices(entries, reply)| == |entries|
    ensures forall i :: 0 <= i < |entries| ==> Notices(entries, reply)[i] == Notice(entries[i], reply)
    decreases |entries|
  {
    if entries != [] {
      var tail := entries[1..];
      NoticesOnePerEntry(tail, reply);
      assert Notices(entries, reply) == [Notice(entries[0], reply)] + Notices(tail, reply);
      forall i | 1 <= i < |entries|
        ensures Notices(entries, reply)[i] == Notice(entries[i], reply)
      {
        assert tail[i - 1] == entries[i];
      }
    }
  }

  /** Failing two queues one after the other calls the first one's callbacks first. */
  lemma {:induction false} NoticesAppend(a: seq<Entry>, b: seq<Entry>, reply: Reply)
    ensures Notices(a + b, reply) == Notices(a, reply) + Notices(b, reply)
    decreases |a|
  {
    if a != [] {
      assert (a + b)[0] == a[0];
      assert (a + b)[1..] == a[1..] + b;
      NoticesAppend(a[1..], b, reply);
    } else {
      assert a + b == b;
    }
  }

  /** `x` is the invocation that failing the pending callback of its request id in `m` with `reply` makes. */
  predicate PendingNotice(m: map<int, Callback>, reply: Reply, x: Invocation)
  {
    x.id.Some? && x.id.value in m && m[x.id.value].Cb? && x == Invocation(x.id, m[x.id.value].name, reply)
  }

  /** The integer `id` of a response, when it carries one. */
  function ResponseId(message: Object): Option<int>
  {
    if "id" in message && message["id"].JInt? then Some(message["id"].i) else None
  }

  /** The `result` of a response, when it is an object (`isinstance(response['result'], dict)`). */
  function ResponseResult(message: Object): Option<Object>
  {
    if "result" in message && message["result"].JObject? then Some(message["result"].fields) else None
  }

  /** A `dryer_status` object in a result is also published under `dryer`; nothing else changes. */
  function NormaliseResult(result: Object): (r: Object)
    ensures r.Keys == result.Keys + (if "dryer_status" in result && result["dryer_status"].JObject? then {"dryer"} else {})
    ensures forall k :: k in result && k != "dryer" ==> r[k] == result[k]
    ensures "dryer_status" in result && result["dryer_status"].JObject? ==> r["dryer"] == result["dryer_status"]
    ensures "dryer" in result && !("dryer_status" in result && result["dryer_status"].JObject?) ==> r["dryer"] == result["dryer"]
  {
    if "dryer_status" in result && result["dryer_status"].JObject? then result["dryer" := result["dryer_status"]] else result
  }

  /** `dict.update`: every key of the result overwrites, every other key of the snapshot stays. */
  function MergeInfo(info: Object, result: Object): (r: Object)
    ensures r.Keys == info.Keys + result.Keys
    ensures forall k :: k in result ==> r[k] == result[k]
    ensures forall k :: k in info && k !in result ==> r[k] == info[k]
  {
    info + result
  }

  /** `result.get('status', 'unknown') == 'ready'` */
  predicate ReportsReady(result: Object)
  {
    "status" in result && result["status"] == JStr("ready")
  }

  /** `result.get('feed_assist_count', 0)` for the integer counts the device reports. */
  function AssistCount(result: Object): int
  {
    if "feed_assist_count" in result && result["feed_assist_count"].JInt? then result["feed_assist_count"].i else 0
  }
}
