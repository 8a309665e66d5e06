/**
 * `capture_network_logs`: the Chrome performance log is folded into one
 * record per network request id, in the order the ids were first seen; a
 * later `Network.responseReceived` for a known id adds the response fields.
 */
module NetworkLogs {
  import opened Wrappers
  import opened PyStr

  /** A JSON value copied through unchanged; `Absent` is what `.get(key)`
      gives (and `json.dump` writes as `null`) when the key is missing. */
  datatype Json = Absent | Value(text: string)

  /** `params.get('requestId')`: `None` when the event carries none. */
  type RequestId = Option<string>

  /** One performance log entry, as the fold sees it after `json.loads`.
      `postData` is already `request.get('postData', '')`. */
  datatype Entry =
    | Undecodable
      // `json.loads` raised `JSONDecodeError`: the entry is skipped
    | Malformed
      // any other failure (no `message` key, a value that is not an object):
      // the exception leaves the capture
    | RequestWillBeSent(requestId: RequestId, url: Json, httpMethod: Json, headers: Json, postData: Json, timestamp: Json)
    | ResponseReceived(requestId: RequestId, status: Json, headers: Json, mimeType: Json)
    | OtherEvent
      // any other `method`, including none

  datatype Response = Response(status: Json, headers: Json, mimeType: Json)

  /** One entry of the written JSON list. */
  datatype Record = Record(url: Json, httpMethod: Json, requestHeaders: Json, postData: Json,
                           timestamp: Json, response: Option<Response>)

  /** The record's `type` field. */
  function Type(r: Record): string {
    if r.response.Some? then "response" else "request"
  }

  /** The `network_data` dictionary: its keys in insertion order and its
      contents. */
  datatype Capture = Capture(order: seq<RequestId>, records: map<RequestId, Record>)

  /** The keys are listed once each, and exactly the stored ones. */
  ghost predicate Valid(c: Capture) {
    && (forall i, j :: 0 <= i < j < |c.order| ==> c.order[i] != c.order[j])
    && (forall id :: id in c.records <==> id in c.order)
  }

  const Empty := Capture([], map[])

  /** The body of the loop for one entry; `None` when the exception escapes. */
  function Apply(c: Capture, e: Entry): (r: Option<Capture>)
    requires Valid(c)
    ensures r.Some? ==> Valid(r.value)
  {
    match e
    case Undecodable => Some(c)
    case Malformed => None
    case OtherEvent => Some(c)
    case RequestWillBeSent(id, url, httpMethod, headers, postData, timestamp) =>
      var record := Record(url, httpMethod, headers, postData, timestamp, None);
      var order := if id in c.records then c.order else c.order + [id];
      Some(Capture(order, c.records[id := record]))
    case ResponseReceived(id, status, headers, mimeType) =>
      if id in c.records then
        var record := c.records[id].(response := Some(Response(status, headers, mimeType)));
        Some(Capture(c.order, c.records[id := record]))
      else
        Some(c)
  }

  /** The dictionary after the loop has seen `entries`. */
  function Fold(entries: seq<Entry>): (r: Option<Capture>)
    ensures r.Some? ==> Valid(r.value)
  {
    if entries == [] then Some(Empty)
    else
      match Fold(entries[..|entries| - 1])
      case None => None
      case Some(c) => Apply(c, Last(entries))
  }

  /** `list(network_data.values())`. */
  function Output(c: Capture): (r: seq<Record>)
    requires Valid(c)
    ensures |r| == |c.order|
  {
    seq(|c.order|, i requires 0 <= i < |c.order| => c.records[c.order[i]])
  }

  /** What the capture writes, or `None` when it raises. */
  function NetworkLog(entries: seq<Entry>): Option<seq<Record>> {
    match Fold(entries)
    case None => None
    case Some(c) => Some(Output(c))
  }

  /** `capture_network_logs`, with the performance log as input and the
      list it would dump as output. */
  method CaptureNetworkLogs(entries: seq<Entry>) returns (logs: Option<seq<Record>>)
    ensures logs == NetworkLog(entries)
  {
    var order: seq<RequestId> := [];
    var records: map<RequestId, Record> := map[];
    var i := 0;
    while i < |entries|
      invariant 0 <= i <= |entries|
      invariant Fold(entries[..i]) == Some(Capture(order, records))
    {
      var entry := entries[i];
      assert entries[..i + 1] == entries[..i] + [entry];
      FoldSnoc(entries[..i], entry);
      match entry {
        case Undecodable =>
        case Malformed =>
          FoldStaysNone(entries[..i + 1], entries[i + 1..]);
          assert entries[..i + 1] + entries[i + 1..] == entries;
          return None;
        case OtherEvent =>
        case RequestWillBeSent(id, url, httpMethod, headers, postData, timestamp) =>
          if id !in records {
            order := order + [id];
          }
          records := records[id := Record(url, httpMethod, headers, postData, timestamp, None)];
        case ResponseReceived(id, status, headers, mimeType) =>
          if id in records {
            records := records[id := records[id].(response := Some(Response(status, headers, mimeType)))];
          }
      }
      i := i + 1;
    }
    assert entries[..i] == entries;
    var c := Capture(order, records);
    var enriched: seq<Record> := [];
    var j := 0;
    while j < |order|
      invariant 0 <= j <= |order|
      invariant enriched == Output(c)[..j]
    {
      assert Output(c)[..j + 1] == Output(c)[..j] + [records[order[j]]];
      enriched := enriched + [records[order[j]]];
      j := j + 1;
    }
    assert Output(c)[..j] == Output(c);
    return Some(enriched);
  }

  /** Once the capture has raised, later entries change nothing. */
  lemma {:induction false} FoldStaysNone(entries: seq<Entry>, more: seq<Entry>)
    requires Fold(entries) == None
    ensures Fold(entries + more) == None
    decreases |more|
  {
    if more != [] {
      var init := more[..|more| - 1];
      assert (entries + more)[..|entries + more| - 1] == entries + init;
      FoldStaysNone(entries, init);
    } else {
      assert entries + more == entries;
    }
  }

  /** A malformed entry anywhere makes the whole capture fail. */
  lemma MalformedAborts(before: seq<Entry>, after: seq<Entry>)
    ensures NetworkLog(before + [Malformed] + after) == None
  {
    var upTo := before + [Malformed];
    assert upTo[..|upTo| - 1] == before;
    if Fold(before).Some? {
      assert Fold(upTo) == None;
    }
    FoldStaysNone(upTo, after);
  }

  /** The fold takes one more entry by applying the loop body to it. */
  lemma FoldSnoc(entries: seq<Entry>, e: Entry)
    ensures Fold(entries + [e]) == if Fold(entries).None? then None else Apply(Fold(entries).value, e)
  {
    var s := entries + [e];
    assert s[..|s| - 1] == entries;
  }

  /** Undecodable entries are skipped as if they were not there. */
  lemma {:induction false} UndecodableSkipped(before: seq<Entry>, after: seq<Entry>)
    ensures Fold(before + [Undecodable] + after) == Fold(before + after)
    decreases |after|
  {
    if after == [] {
      FoldSnoc(before, Undecodable);
      assert before + [Undecodable] + after == before + [Undecodable];
      assert before + after == before;
    } else {
      var init, e := after[..|after| - 1], Last(after);
      assert after == init + [e];
      assert before + [Undecodable] + after == (before + [Undecodable] + init) + [e];
      assert before + after == (before + init) + [e];
      UndecodableSkipped(before, init);
      FoldSnoc(before + [Undecodable] + init, e);
      FoldSnoc(before + init, e);
    }
  }

  /** The request ids of the `requestWillBeSent` events, in log order. */
  function RequestIds(entries: seq<Entry>): seq<RequestId> {
    if entries == [] then []
    else
      var init := RequestIds(entries[..|entries| - 1]);
      if Last(entries).RequestWillBeSent? then init + [Last(entries).requestId] else init
  }

  /** Where id first appears in ids. */
  function FirstIndex(ids: seq<RequestId>, id: RequestId): (k: nat)
    requires id in ids
    ensures k < |ids| && ids[k] == id
    ensures forall q :: 0 <= q < k ==> ids[q] != id
  {
    if ids[0] == id then 0 else 1 + FirstIndex(ids[1..], id)
  }

  /** Adding to the end does not move a first appearance. */
  lemma FirstIndexOfPrefix(ids: seq<RequestId>, id: RequestId)
    requires ids != [] && id in ids[..|ids| - 1]
    ensures FirstIndex(ids, id) == FirstIndex(ids[..|ids| - 1], id)
  {
    var init := ids[..|ids| - 1];
    var a, b := FirstIndex(ids, id), FirstIndex(init, id);
    assert ids[b] == init[b] == id;
    assert a <= b;
    assert init[a] == ids[a];
  }

  /** Each id once, in the order of first appearance. */
  function Dedup(ids: seq<RequestId>): (r: seq<RequestId>)
    ensures forall id :: id in r <==> id in ids
    ensures forall i, j :: 0 <= i < j < |r| ==> r[i] != r[j]
    ensures forall i, j :: 0 <= i < j < |r| ==> FirstIndex(ids, r[i]) < FirstIndex(ids, r[j])
  {
    if ids == [] then []
    else
      var init := ids[..|ids| - 1];
      var d := Dedup(init);
      assert forall id :: id in ids <==> id in init || id == Last(ids);
      forall id | id in d ensures FirstIndex(ids, id) == FirstIndex(init, id) && FirstIndex(init, id) < |init| {
        FirstIndexOfPrefix(ids, id);
      }
      if Last(ids) in d then d
      else
        assert FirstIndex(ids, Last(ids)) == |ids| - 1;
        d + [Last(ids)]
  }

  /** There is one record per distinct request id, in order of the id's
      first request; responses never add a record. */
  lemma {:induction false} OneRecordPerRequest(entries: seq<Entry>)
    requires Fold(entries).Some?
    ensures Fold(entries).value.order == Dedup(RequestIds(entries))
  {
    if entries != [] {
      var init := entries[..|entries| - 1];
      OneRecordPerRequest(init);
    }
  }

  /** A response for a request id seen before sets the response fields and
      the type and leaves the request's own fields and the order alone. */
  lemma ResponseCompletesRequest(c: Capture, id: RequestId, status: Json, headers: Json, mimeType: Json)
    requires Valid(c) && id in c.records
    ensures var r := Apply(c, ResponseReceived(id, status, headers, mimeType));
      && r.Some? && r.value.order == c.order
      && id in r.value.records
      && r.value.records[id] == c.records[id].(response := Some(Response(status, headers, mimeType)))
      && Type(r.value.records[id]) == "response"
      && (forall other :: other in c.records && other != id ==> r.value.records[other] == c.records[other])
  {
  }

  /** A response for an id no request introduced is ignored. */
  lemma UnknownResponseIgnored(c: Capture, id: RequestId, status: Json, headers: Json, mimeType: Json)
    requires Valid(c) && id !in c.records
    ensures Apply(c, ResponseReceived(id, status, headers, mimeType)) == Some(c)
  {
  }

  /** A repeated request id keeps its place and starts a fresh request
      record from the event; no other record changes. */
  lemma RepeatedRequestKeepsPlace(c: Capture, e: Entry)
    requires Valid(c) && e.RequestWillBeSent? && e.requestId in c.records
    ensures var r := Apply(c, e);
      && r.Some? && r.value.order == c.order
      && r.value.records.Keys == c.records.Keys
      && r.value.records[e.requestId] == Record(e.url, e.httpMethod, e.headers, e.postData, e.timestamp, None)
      && Type(r.value.records[e.requestId]) == "request"
      && (forall other :: other in c.records && other != e.requestId ==> r.value.records[other] == c.records[other])
  {
  }

  /** A new request id goes to the end of the order with a request record
      from the event; no other record changes. */
  lemma NewRequestAppended(c: Capture, e: Entry)
    requires Valid(c) && e.RequestWillBeSent? && e.requestId !in c.records
    ensures var r := Apply(c, e);
      && r.Some? && r.value.order == c.order + [e.requestId]
      && r.value.records.Keys == c.records.Keys + {e.requestId}
      && r.value.records[e.requestId] == Record(e.url, e.httpMethod, e.headers, e.postData, e.timestamp, None)
      && Type(r.value.records[e.requestId]) == "request"
      && (forall other :: other in c.records ==> r.value.records[other] == c.records[other])
  {
  }
}
